/** What each step of the compositor does, to the last field, without saying how. */
module CompositorEffects {
  import opened Common
  import opened Compositor
  import opened CompositorRun
  import opened CompositorOrder
  import opened CompositorLeaving

  // ----- the effects -----

  /** w is in front of its stack, unless it was pushed out of an end slot; the others keep their order. */
  ghost predicate Raised(s: State, s': State, w: Wid) {
    && s' == s.(mid := s'.mid, overlay := s'.overlay, menu := s'.menu)
    && Undisturbed(s, s', w) && (Get(s', w).z != TOP ==> Uppermost(s', w))
  }

  /** w has the focus and is in front; if it was minimised it is back in the middle stack. */
  ghost predicate Focused(s: State, s': State, w: Wid) {
    if s.focused == Some(w) then s' == s
    else
      var x := Get(s, w);
      && s' == s.(focused := Some(w), mid := s'.mid, overlay := s'.overlay, menu := s'.menu,
                  win := if x.minimized then s.win[w := x.(z := 1, minimized := false, anim := Unminimizing)] else s.win,
                  minimized := if x.minimized then Minus(s.minimized, {w}) else s.minimized)
      && Undisturbed(s, s', w) && (Get(s', w).z != TOP ==> Uppermost(s', w))
  }

  /** w is gone: from the picture, from the live windows and from the focus, and its buffer is released. */
  ghost predicate Closed(s: State, s': State, w: Wid) {
    AllClosed(s, s', {w}, [Get(s, w).bufid])
  }

  /** w has left the picture for the end of the minimised list. */
  ghost predicate Minimized(s: State, s': State, w: Wid) {
    AllMinimized(s, s', [w])
  }

  /** w has a new place in the stacks and is in front there.  A window that held an end slot before it
      is drawn no more; all others keep their order. */
  ghost predicate Restacked(s: State, s': State, w: Wid, z: int) {
    var (x, out) := (Get(s, w).(z := z), Owner(z) == Single && Held(s, z).Some? && Held(s, z) != Some(w));
    && s' == s.(bottom := s'.bottom, top := s'.top, mid := s'.mid, overlay := s'.overlay, menu := s'.menu,
                win := if out then s.win[w := x][Held(s, z).value := Get(s, Held(s, z).value).(z := TOP)] else s.win[w := x])
    && Uppermost(s', w)
    && if out then Evicted(s, s', w, Held(s, z).value) else Without(DrawOrder(s'), w) == Without(DrawOrder(s), w)
  }

  ghost predicate Evicted(s: State, s': State, w: Wid, u: Wid) {
    && Without(DrawOrder(s'), u) == DrawOrder(s')
    && Without(Without(DrawOrder(s'), w), u) == Without(Without(DrawOrder(s), w), u)
  }

  /** A window with an id and a buffer that no other has, hidden and in front of the middle stack, on the list of
      its client; all others stand as they stood. */
  ghost predicate Created(s: State, s': State, w: Wid, c: Client, still: bool) {
    var x := Get(s', w);
    && w !in s.live && w !in s.win && NewBuffer(s, x.bufid) && x.newbufid == 0 && x.hidden && !x.minimized
    && x.anim == Idle && x.owner == c && !x.advertised && x.still == still && Owner(x.z) == Mid && Uppermost(s', w)
    && Without(DrawOrder(s'), w) == DrawOrder(s)
    && c in s.clients && s'.clients == s.clients[c := s.clients[c] + [w]]
    && s' == s.(win := s.win[w := x], live := s.live + {w}, windows := s.windows + [w], clients := s'.clients,
                mid := s'.mid, nextWid := s'.nextWid, nextBuf := s'.nextBuf)
  }

  ghost predicate NewBuffer(s: State, b: BufId) {
    b != 0 && b !in s.released && forall v: Wid :: v in s.win ==> !Holds(s.win[v], b)
  }

  /** Only the fields of w have changed, and they are x now. */
  ghost predicate Changed(s: State, s': State, w: Wid, x: Window) {
    s' == s.(win := s.win[w := x])
  }

  /** w is drawn from now on, with an animation unless it asked for none. */
  ghost predicate Revealed(s: State, s': State, w: Wid) {
    var x := Get(s, w);
    if x.hidden then Changed(s, s', w, x.(hidden := false, anim := if x.still then Idle else Opening)) else s' == s
  }

  /** Windows nobody can see are closed at once. */
  predicate AtOnce(x: Window) { x.hidden || x.minimized }

  /** w is closed, or on its way out if it can be seen. */
  ghost predicate Marked(s: State, s': State, w: Wid) {
    if AtOnce(Get(s, w)) then Closed(s, s', w) else Changed(s, s', w, Get(s, w).(anim := Closing))
  }

  /** A close message: w is marked and its client has it no more. */
  ghost predicate LetGo(s: State, s': State, w: Wid) {
    var c := Get(s, w).owner;
    && Marked(s, s'.(clients := s.clients), w) && Unowned(s', w)
    && s'.clients == if c in s.clients then s.clients[c := Minus(s.clients[c], {w})] else s.clients
  }

  /** All of `ws` are marked: those nobody can see are closed, in order, and the others begin to close. */
  ghost predicate AllMarked(s: State, s': State, ws: seq<Wid>) {
    var gone := set w | w in ws && AtOnce(Get(s, w));
    && StacksLeft(s, s', gone) && FocusLeft(s, s', gone) && s'.win.Keys == s.win.Keys
    && (forall v: Wid :: v !in gone ==>
          Get(s', v) == if v in ws then Get(s, v).(anim := Closing) else Get(s, v))
    && s' == s.(live := s.live - gone, windows := Minus(s.windows, gone), released := s.released + BufsAtOnce(s, ws),
                minimized := Minus(s.minimized, gone), win := s'.win, focused := s'.focused,
                bottom := s'.bottom, top := s'.top, mid := s'.mid, overlay := s'.overlay, menu := s'.menu)
  }

  function BufsAtOnce(s: State, ws: seq<Wid>): seq<BufId> {
    if ws == [] then [] else (if AtOnce(Get(s, ws[0])) then [Get(s, ws[0]).bufid] else []) + BufsAtOnce(s, ws[1..])
  }

  /** A client is gone and all its windows are marked. */
  ghost predicate Disconnected(s: State, s': State, c: Client)
    requires c in s.clients
  {
    s'.clients == s.clients - {c} && AllMarked(s, s'.(clients := s.clients), s.clients[c])
  }

  /** The animation a of a window that is drawn has run its time. */
  ghost predicate Expired(s: State, due: set<Wid>, w: Wid, a: Anim) {
    w in due && w in DrawOrder(s) && !Get(s, w).hidden && !Get(s, w).minimized && Get(s, w).anim == a
  }

  /** A closing window that stands on no stack would never be drawn. */
  ghost predicate Lost(s: State, w: Wid) {
    w in s.windows && Get(s, w).z == TOP && s.top != Some(w) && Get(s, w).anim == Closing
  }

  function Only(xs: seq<Wid>, keep: set<Wid>): seq<Wid> {
    if xs == [] then [] else (if xs[0] in keep then [xs[0]] else []) + Only(xs[1..], keep)
  }

  /** A frame: the windows whose closing has run its time, and the lost ones, are closed; those whose minimising
      has are minimised, the one drawn last first; other animations that have run their time end; nothing else
      changes. */
  ghost predicate Refreshed(s: State, s': State, due: set<Wid>) {
    var closed := set w | w in s.live && (Expired(s, due, w, Closing) || Lost(s, w));
    var hiding := Only(DrawOrder(s), set w | w in s.live && Expired(s, due, w, Minimizing));
    && StacksLeft(s, s', closed + Members(hiding)) && FocusLeft(s, s', closed + Members(hiding))
    && (forall v: Wid :: v !in closed ==>
          Get(s', v) == if v in hiding then AsMinimized(Get(s, v))
                        else if Expired(s, due, v, Opening) || Expired(s, due, v, Unminimizing) then Get(s, v).(anim := Idle)
                        else Get(s, v))
    && s' == s.(live := s.live - closed, windows := Minus(s.windows, closed), win := s'.win,
                minimized := Minus(s.minimized, closed) + Back(hiding), released := s'.released,
                focused := s'.focused, bottom := s'.bottom, top := s'.top,
                mid := s'.mid, overlay := s'.overlay, menu := s'.menu)
    && s'.released == s.released + BufsBack(s, ToRemove(s, due))
  }

  /** The pending buffer of w is one that nothing has held; a resize in progress goes on with its own. */
  ghost predicate Offered(s: State, s': State, w: Wid) {
    if Get(s, w).newbufid != 0 then s' == s
    else
      var b := Get(s', w).newbufid;
      NewBuffer(s, b) && s' == s.(win := s.win[w := Get(s, w).(newbufid := b)], nextBuf := s'.nextBuf)
  }

  /** The pending buffer of w is its buffer now, and exactly the replaced one is released. */
  ghost predicate Swapped(s: State, s': State, w: Wid) {
    var x := Get(s, w);
    if x.newbufid == 0 then s' == s
    else s' == s.(win := s.win[w := x.(bufid := x.newbufid, newbufid := 0)], released := s.released + [x.bufid])
  }

  // ----- what the words mean -----

  /** The heir of the focus is the last window drawn of those that are neither an overlay nor the top. */
  lemma HeirIs(s: State)
    ensures var ws := Slot(s.bottom) + s.mid + s.menu;
            Heir(s) == if ws == [] then None else Some(ws[|ws| - 1])
  {
  }

  function Rank(z: int): nat {
    if z == BOTTOM then 0 else if z == OVERLAY then 2 else if z == MENU then 3 else if z == TOP then 4 else 1
  }

  /** The picture is drawn from the bottom over ordinary windows, overlays and menus to the top; and every window
      in it is live and not minimised. */
  lemma DrawnByRank(s: State, i: nat, j: nat)
    requires Stacked(s) && i <= j < |DrawOrder(s)|
    ensures var ws := DrawOrder(s);
            && Rank(Get(s, ws[i]).z) <= Rank(Get(s, ws[j]).z)
            && ws[i] in s.live && !Get(s, ws[i]).minimized
  {
    hide DrawOrder, Count, Rank;
    var a, b := PlaceOf(s, i), PlaceOf(s, j);
    PlacesOrdered(s, i, j, a, b);
    RankOfPlace(s, DrawOrder(s)[i], a);
    RankOfPlace(s, DrawOrder(s)[j], b);
  }

  /** The stack that position i of the picture belongs to. */
  ghost function PlaceOf(s: State, i: nat): (k: nat)
    requires i < |DrawOrder(s)|
    ensures k <= 4
  {
    var a := |Slot(s.bottom)|;
    if i < a then 0 else if i < a + |s.mid| then 1 else if i < a + |s.mid| + |s.overlay| then 2
    else if i < a + |s.mid| + |s.overlay| + |s.menu| then 3 else 4
  }

  lemma PlacesOrdered(s: State, i: nat, j: nat, a: nat, b: nat)
    requires i <= j < |DrawOrder(s)| && a == PlaceOf(s, i) && b == PlaceOf(s, j)
    ensures a <= b
    ensures InPlace(s, DrawOrder(s)[i], a) && InPlace(s, DrawOrder(s)[j], b)
  {
  }

  ghost predicate InPlace(s: State, w: Wid, k: nat) {
    match k
    case 0 => s.bottom == Some(w)
    case 1 => w in s.mid
    case 2 => w in s.overlay
    case 3 => w in s.menu
    case _ => s.top == Some(w)
  }

  lemma RankOfPlace(s: State, w: Wid, k: nat)
    requires Stacked(s) && InPlace(s, w, k) && k <= 4
    ensures Rank(Get(s, w).z) == k && w in s.live && !Get(s, w).minimized
  {
    hide Count;
    assert Good(s, w);
    MemberCount(s.mid, w);
    MemberCount(s.overlay, w);
    MemberCount(s.menu, w);
  }

  // ----- each operation has its effect -----

  lemma RaiseDoes(s: State, w: Wid)
    requires Inv(s) && w in s.live
    ensures Inv(MakeTop(s, w)) && Raised(s, MakeTop(s, w), w)
  {
    hide Stacked, BufsGood, ClientsGood, MakeTop, Undisturbed, Uppermost;
    RaiseKeeps(s, w);
    RaiseUndisturbed(s, w);
    MakeTopMoves(s, w, w);
    MinimizedTop(s, w);
    if !Get(s, w).minimized { RaiseEffect(s, w); }
  }

  lemma MinimizedTop(s: State, w: Wid)
    requires Stacked(s) && w in s.live
    ensures Get(s, w).minimized ==> Get(s, w).z == TOP
  {
    assert Good(s, w);
  }

  lemma FocusDoes(s: State, o: Option<Wid>)
    requires Inv(s) && (o.Some? ==> o.value in s.live)
    ensures var s' := SetFocused(s, o);
            && Inv(s') && (o.Some? ==> Focused(s, s', o.value))
            && (o.None? ==> s' == s.(focused := if s.focused.Some? then s.bottom else None))
  {
    hide Stacked, BufsGood, ClientsGood, Undisturbed, Uppermost, Minus;
    FocusStepKeeps(s, o);
    if o.Some? {
      if s.focused != o {
        hide Unminimize, MakeTop;
        FocusEffect(s, o.value);
        FocusFields(s, o.value);
      }
    } else if s.bottom.Some? {
      BottomStays(s);
    }
  }

  lemma FocusFields(s: State, w: Wid)
    requires Stacked(s) && w in s.live && s.focused != Some(w)
    ensures var (s', x) := (SetFocused(s, Some(w)), Get(s, w));
            s' == s.(focused := Some(w), mid := s'.mid, overlay := s'.overlay, menu := s'.menu,
                     win := if x.minimized then s.win[w := x.(z := 1, minimized := false, anim := Unminimizing)] else s.win,
                     minimized := if x.minimized then Minus(s.minimized, {w}) else s.minimized)
  {
    hide Stacked, MakeTop, Minus, Remove, Count;
    MakeTopMoves(Unminimize(s, w).(focused := Some(w)), w, w);
    Listed(s, w);
    RemoveIs(s.minimized, w);
  }

  /** The bottom window is in no list, so raising it moves nothing. */
  lemma BottomStays(s: State)
    requires Stacked(s) && s.bottom.Some?
    ensures MakeTop(s.(focused := s.bottom), s.bottom.value) == s.(focused := s.bottom)
  {
    assert Good(s, s.bottom.value);
  }

  lemma CloseDoes(s: State, w: Wid)
    requires Stacked(s) && w in s.live
    ensures Stacked(ActuallyClose(s, w)) && Closed(s, ActuallyClose(s, w), w)
    ensures DrawOrder(ActuallyClose(s, w)) == Without(DrawOrder(s), w)
  {
    hide Stacked, ActuallyClose, AllClosed, DrawOrder, Without, Frame, Undisturbed, Heir;
    CloseKeeps(s, w);
    CloseEffect(s, w);
    ClosedOne(s, w);
  }

  lemma MinimizeDoes(s: State, w: Wid)
    requires Stacked(s) && w in s.live && !Get(s, w).minimized
    ensures Stacked(FinishMinimize(s, w)) && Minimized(s, FinishMinimize(s, w), w)
    ensures DrawOrder(FinishMinimize(s, w)) == Without(DrawOrder(s), w)
  {
    hide Stacked, FinishMinimize, AllMinimized, DrawOrder, Without, Frame, Undisturbed, Heir;
    MinimizeKeeps(s, w);
    MinimizeEffect(s, w);
    MinimizedNone(FinishMinimize(s, w));
    MinimizedThen(s, FinishMinimize(s, w), w, []);
    assert [] + [w] == [w];
  }

  /** A restack keeps the invariants if and only if its window is not minimised, and then has its effect. */
  lemma StackDoes(s: State, w: Wid, z: int)
    requires Inv(s) && w in s.live && z <= TOP
    ensures Inv(Reorder(s, w, z)) <==> !Get(s, w).minimized
    ensures !Get(s, w).minimized ==> Restacked(s, Reorder(s, w, z), w, z)
  {
    hide Stacked, BufsGood, ClientsGood, Reorder, DrawOrder, Without, Uppermost, Undisturbed;
    StackKeepsIff(s, w, z);
    if !Get(s, w).minimized {
      StackKeeps(s, w, z);
      FrameKeeps(s, Reorder(s, w, z));
      StackFields(s, w, z);
      if Owner(z) != Single {
        StackEffect(s, w, z);
        SameOrder(s, Reorder(s, w, z), w);
      } else if Held(s, z).Some? && Held(s, z) != Some(w) {
        SlotEffect(s, w, z, Held(s, z).value);
      } else {
        FreeSlotEffect(s, w, z);
      }
    }
  }

  lemma StackFields(s: State, w: Wid, z: int)
    requires Stacked(s) && w in s.live && !Get(s, w).minimized
    ensures var (s', x) := (Reorder(s, w, z), Get(s, w).(z := z));
            var out := Owner(z) == Single && Held(s, z).Some? && Held(s, z) != Some(w);
            s' == s.(bottom := s'.bottom, top := s'.top, mid := s'.mid, overlay := s'.overlay, menu := s'.menu,
                     win := if out then s.win[w := x][Held(s, z).value := Get(s, Held(s, z).value).(z := TOP)] else s.win[w := x])
  {
    hide Stacked, Of, Unorder, Undisturbed, Placed;
    OnOneOf(s, w);
    UnorderMoves(s, w, w);
    if Owner(z) == Single {
      LiftedOrder(s, w, z);
      ReorderIs(s, w, z);
      var s2 := Lifted(s, w, z);
      if Held(s2, z).Some? {
        var u := Held(s2, z).value;
        SlotsOf(s2, w);
        HeldOnOne(s, s2, w, z, u);
        UnorderMoves(s2, u, u);
      }
    }
  }

  lemma OnOneOf(s: State, w: Wid)
    requires Stacked(s)
    ensures OnOne(s, w)
  {
    assert Good(s, w);
  }

  lemma HeldOnOne(s: State, s2: State, w: Wid, z: int, u: Wid)
    requires ReadyFor(s, s2, w, z) && Held(s2, z) == Some(u)
    ensures u != w && OnOne(s2, u)
  {
    hide Stacked, Count;
    SlotsOf(s2, w);
    assert u != w ==> Good(s2, u);
  }

  lemma CreateDoes(s: State, c: Client, still: bool)
    requires Inv(s) && c in s.clients
    ensures var s' := Create(s, c, still);
            Inv(s') && Created(s, s', s.nextWid, c, still)
  {
    hide Stacked, BufsGood, ClientsGood, DrawOrder, Without;
    CreateKeeps(s, c, still);
    NotYet(s);
    NextBuffer(s);
    CreatePicture(s, c, still);
    NotDrawnBefore(s);
  }

  lemma NextBuffer(s: State)
    requires BufsGood(s)
    ensures NewBuffer(s, s.nextBuf)
  {
    FreshId(s);
    forall v: Wid | v in s.win ensures !Holds(s.win[v], s.nextBuf) { assert BufGood(s, v); }
  }

  lemma CreatePicture(s: State, c: Client, still: bool)
    ensures Without(DrawOrder(Create(s, c, still)), s.nextWid) == Without(DrawOrder(s), s.nextWid)
  {
    hide DrawOrder, Without;
    WithoutAppended(s.mid, s.nextWid);
    SameOrder(s, Create(s, c, still), s.nextWid);
  }

  lemma NotDrawnBefore(s: State)
    requires Stacked(s)
    ensures Without(DrawOrder(s), s.nextWid) == DrawOrder(s)
  {
    hide DrawOrder, Without, Count;
    NotYet(s);
    assert Good(s, s.nextWid);
    NotDrawn(s, s.nextWid);
  }

  /** The new window is in front already, so giving it the focus moves nothing. */
  lemma NewDoes(s: State, c: Client, still: bool)
    requires Inv(s) && c in s.clients
    ensures var s1 := Create(s, c, still);
            SetFocused(s1, Some(s.nextWid)) == s1.(focused := Some(s.nextWid))
  {
    hide Stacked, BufsGood, ClientsGood, Remove;
    CreateKeeps(s, c, still);
    NotYet(s);
    NewFocus(s);
    var s1, w := Create(s, c, still), s.nextWid;
    NewLast(s1, w);
  }

  lemma NewFocus(s: State)
    requires Stacked(s)
    ensures s.focused != Some(s.nextWid)
  {
    if s.focused.Some? { assert Good(s, s.focused.value); }
  }

  lemma NewLast(s: State, w: Wid)
    requires Stacked(s) && s.mid != [] && s.mid[|s.mid| - 1] == w
    ensures Remove(s.mid, w) + [w] == s.mid
  {
    hide Count;
    assert Good(s, w);
    MemberCount(s.mid, w);
    LastStays(s.mid, w);
  }

  lemma RevealDoes(s: State, w: Wid)
    requires Inv(s) && w in s.live
    ensures Inv(Reveal(s, w)) && Revealed(s, Reveal(s, w), w)
  {
    hide Stacked, BufsGood, ClientsGood;
    RevealKeeps(s, w);
  }

  lemma ResizeDoes(s: State, w: Wid)
    requires Inv(s) && w in s.live
    ensures Inv(Resize(s, w)) && Offered(s, Resize(s, w), w)
    ensures Inv(ResizeFinish(s, w)) && Swapped(s, ResizeFinish(s, w), w)
  {
    hide Stacked, BufsGood, ClientsGood;
    ResizeStepKeeps(s, w);
    NextBuffer(s);
  }

  // ----- closing -----

  lemma MarkDoes(s: State, w: Wid)
    requires Stacked(s) && w in s.live
    ensures Marked(s, MarkForClose(s, w), w)
  {
    hide Stacked, ActuallyClose, AllClosed;
    if AtOnce(Get(s, w)) { ClosedOne(s, w); }
  }

  lemma CloseWindowDoes(s: State, w: Wid)
    requires Inv(s) && w in s.live
    ensures var s' := Disown(MarkForClose(s, w), w);
            Inv(s') && LetGo(s, s', w)
  {
    hide Stacked, BufsGood, ClientsGood, MarkForClose, Remove, AllClosed, Minus, Marked;
    CloseWindowKeeps(s, w);
    MarkDoes(s, w);
    var s1, s' := MarkForClose(s, w), Disown(MarkForClose(s, w), w);
    MarkFacts(s, s1, w);
    var c := Get(s, w).owner;
    if c in s.clients { OnceListed(s, c, w); }
    forall d: Client | d in s'.clients ensures w !in s'.clients[d] { NobodyOwns(s', w, d); }
  }

  lemma MarkFacts(s: State, s1: State, w: Wid)
    requires Stacked(s) && w in s.live && Marked(s, s1, w)
    ensures s1.clients == s.clients && Get(s1, w).owner == Get(s, w).owner
    ensures w !in s1.live || Get(s1, w).anim == Closing
  {
    hide Stacked, StacksLeft, FocusLeft, Minus;
    LiveKnown(s, w);
  }

  /** A client lists a window once at most. */
  lemma OnceListed(s: State, c: Client, w: Wid)
    requires ClientsGood(s) && c in s.clients
    ensures Remove(s.clients[c], w) == Minus(s.clients[c], {w})
  {
    hide Count;
    assert ListGood(s, c);
    RemoveIs(s.clients[c], w);
  }

  /** A client's list holds live windows that are not closing, so not w. */
  lemma NobodyOwns(s': State, w: Wid, c: Client)
    requires Inv(s') && (w !in s'.live || Get(s', w).anim == Closing) && c in s'.clients
    ensures w !in s'.clients[c]
  {
    hide Stacked, BufsGood, Count;
    assert ListGood(s', c);
  }

  /** Of `ws`, those that are closed at once. */
  ghost function Leaving(s: State, ws: seq<Wid>): set<Wid> {
    set w | w in ws && AtOnce(Get(s, w))
  }

  lemma NoneMarked(s: State)
    ensures AllMarked(s, s, [])
  {
    hide Minus, StacksLeft, FocusLeft;
    NoneLeft(s, s);
    MinusNone(s.windows, {});
    MinusNone(s.minimized, {});
    assert s.released + [] == s.released && s.live - {} == s.live;
    assert (set w | w in [] && AtOnce(Get(s, w))) == {};
  }

  /** Marking one window and then the rest is marking them all. */
  lemma MarkedThen(s: State, s1: State, s2: State, w: Wid, rest: seq<Wid>)
    requires w in s.win && w !in rest && Marked(s, s1, w) && AllMarked(s1, s2, rest)
    ensures AllMarked(s, s2, [w] + rest)
  {
    hide Minus, StacksLeft, FocusLeft, AllMarked, BufsAtOnce;
    assert forall v: Wid :: v != w ==> Get(s1, v) == Get(s, v);
    SameLeaving(s, s1, rest);
    if AtOnce(Get(s, w)) { ClosedThen(s, s1, s2, w, rest); } else { ClosingThen(s, s1, s2, w, rest); }
  }

  lemma ClosedThen(s: State, s1: State, s2: State, w: Wid, rest: seq<Wid>)
    requires w in s.win && w !in rest && AtOnce(Get(s, w)) && Closed(s, s1, w) && AllMarked(s1, s2, rest)
    requires Leaving(s1, rest) == Leaving(s, rest) && BufsAtOnce(s1, rest) == BufsAtOnce(s, rest)
    ensures AllMarked(s, s2, [w] + rest)
  {
    hide Minus, StacksLeft, FocusLeft, AtOnce;
    var ws, b, bufs := [w] + rest, Leaving(s, rest), BufsAtOnce(s, rest);
    assert ws[0] == w && ws[1..] == rest;
    LeftTwice(s, s1, s2, {w}, b);
    MinusTwice(s.windows, {w}, b);
    MinusTwice(s.minimized, {w}, b);
    assert {w} + b == Leaving(s, ws) && s.live - {w} - b == s.live - ({w} + b);
    assert s.released + [Get(s, w).bufid] + bufs == s.released + ([Get(s, w).bufid] + bufs);
  }

  lemma ClosingThen(s: State, s1: State, s2: State, w: Wid, rest: seq<Wid>)
    requires w in s.win && w !in rest && !AtOnce(Get(s, w)) && Changed(s, s1, w, Get(s, w).(anim := Closing))
    requires AllMarked(s1, s2, rest) && Leaving(s1, rest) == Leaving(s, rest) && BufsAtOnce(s1, rest) == BufsAtOnce(s, rest)
    ensures AllMarked(s, s2, [w] + rest)
  {
    hide Minus, StacksLeft, FocusLeft, AtOnce;
    var ws, b, bufs := [w] + rest, Leaving(s, rest), BufsAtOnce(s, rest);
    assert ws[0] == w && ws[1..] == rest;
    NoneLeft(s, s1);
    LeftTwice(s, s1, s2, {}, b);
    assert {} + b == b == Leaving(s, ws) && [] + bufs == bufs;
  }

  lemma {:induction false} SameLeaving(s: State, s1: State, ws: seq<Wid>)
    requires forall i :: 0 <= i < |ws| ==> Get(s1, ws[i]) == Get(s, ws[i])
    ensures Leaving(s1, ws) == Leaving(s, ws) && BufsAtOnce(s1, ws) == BufsAtOnce(s, ws)
  {
    if ws != [] { SameLeaving(s, s1, ws[1..]); }
  }

  lemma {:induction false} MarkAllDoes(s: State, ws: seq<Wid>, c: Client)
    requires Stacked(s) && BufsGood(s) && OthersGood(s, c) && Batch(s, ws, c)
    ensures AllMarked(s, MarkAll(s, ws), ws)
    decreases |ws|
  {
    hide Stacked, BufsGood, MarkForClose, OthersGood, AllMarked, Marked;
    if ws == [] {
      NoneMarked(s);
    } else {
      var w, s1 := ws[0], MarkForClose(s, ws[0]);
      MarkDoes(s, w);
      MarkKeeps(s, w);
      OthersStay(s, w, c);
      BatchRest(s, s1, ws, c);
      MarkAllDoes(s1, ws[1..], c);
      MarkedThen(s, s1, MarkAll(s1, ws[1..]), w, ws[1..]);
      assert ws == [w] + ws[1..];
    }
  }

  lemma OthersStay(s: State, w: Wid, c: Client)
    requires Stacked(s) && BufsGood(s) && OthersGood(s, c) && w in s.live && w in s.win && s.win[w].owner == c
    ensures OthersGood(MarkForClose(s, w), c)
  {
    hide Stacked, BufsGood, MarkForClose, Count;
    MarkKeeps(s, w);
    forall d: Client | d in s.clients && d != c ensures ListGood(MarkForClose(s, w), d) { assert ListGood(s, d); }
  }

  lemma DisconnectDoes(s: State, c: Client)
    requires Inv(s) && c in s.clients
    ensures var s' := Step(s, Disconnect(c));
            Inv(s') && Disconnected(s, s', c)
  {
    hide Stacked, BufsGood, MarkAll, ListGood, AllMarked;
    DisconnectKeeps(s, c);
    assert ListGood(s, c);
    ListBatch(s, c);
    MarkAllDoes(s, s.clients[c], c);
    MarkAllKeeps(s, s.clients[c], c);
    var s1 := MarkAll(s, s.clients[c]);
    assert s1.(clients := s1.clients - {c}).(clients := s.clients) == s1;
  }

  // ----- a frame -----

  lemma {:induction false} DueOnly(s: State, ws: seq<Wid>, due: set<Wid>, a: Anim, keep: set<Wid>)
    requires forall w :: w in ws ==> (w in keep <==> w in due && Visible(s, w) && Get(s, w).anim == a)
    ensures Due(s, ws, due, a) == Only(ws, keep)
  {
    if ws != [] { DueOnly(s, ws[1..], due, a, keep); }
  }

  /** The queue of windows to minimise, in drawing order. */
  lemma HidingIs(s: State, due: set<Wid>)
    requires Inv(s)
    ensures ToMinimize(s, due) == Only(DrawOrder(s), set w | w in s.live && Expired(s, due, w, Minimizing))
  {
    hide Inv, DrawOrder, Due, Only;
    var ws, keep := DrawOrder(s), set w | w in s.live && Expired(s, due, w, Minimizing);
    forall w | w in ws ensures w in s.live {
      StackedOf(s);
      DrawnLive(s, w);
    }
    DueOnly(s, ws, due, Minimizing, keep);
  }

  lemma DrawnLive(s: State, w: Wid)
    requires Stacked(s) && w in DrawOrder(s)
    ensures w in s.live
  {
    hide Stacked, DrawOrder;
    var i :| 0 <= i < |DrawOrder(s)| && DrawOrder(s)[i] == w;
    DrawnByRank(s, i, i);
  }

  /** The windows that a frame closes. */
  lemma ClosingIs(s: State, due: set<Wid>)
    requires Inv(s)
    ensures Members(ToRemove(s, due)) == set w | w in s.live && (Expired(s, due, w, Closing) || Lost(s, w))
  {
    hide Inv, DrawOrder, Due, Stuck, Count;
    var q := ToRemove(s, due);
    forall w: Wid ensures w in q <==> w in s.live && (Expired(s, due, w, Closing) || Lost(s, w)) {
      DueCount(s, DrawOrder(s), due, Closing, w);
      StuckCount(s, s.windows, w);
      MemberCount(DrawOrder(s), w);
      MemberCount(s.windows, w);
      MemberCount(Due(s, DrawOrder(s), due, Closing), w);
      MemberCount(Stuck(s, s.windows), w);
      QueueOnce(s, due, w);
    }
  }

  lemma SettleIs(s: State, due: set<Wid>)
    requires Inv(s)
    ensures var s1 := Settle(s, due);
            && s1 == s.(win := s1.win)
            && forall v: Wid ::
                 Get(s1, v) == if Expired(s, due, v, Opening) || Expired(s, due, v, Unminimizing)
                               then Get(s, v).(anim := Idle) else Get(s, v)
  {
    hide DrawOrder, BufsGood, ClientsGood, Count;
    forall v: Wid ensures v in DrawOrder(s) ==> v in s.win {
      if v in DrawOrder(s) {
        DrawnLive(s, v);
        LiveKnown(s, v);
      }
    }
  }

  lemma {:induction false} Distinct(q: seq<Wid>)
    requires forall w: Wid :: Count(q, w) <= 1
    ensures forall i, j :: 0 <= i < j < |q| ==> q[i] != q[j]
  {
    hide Count;
    forall i, j | 0 <= i < j < |q| ensures q[i] != q[j] { CountTwo(q, i, j); }
  }

  lemma FrameDoes(s: State, due: set<Wid>)
    requires Inv(s)
    ensures Inv(DrawFrame(s, due)) && Refreshed(s, DrawFrame(s, due), due)
  {
    hide Inv, Settle, CloseAll, MinimizeAll, ToRemove, ToMinimize, Refreshed, AllClosed, AllMinimized, CanMinimize;
    var s1, q, m := Settle(s, due), ToRemove(s, due), ToMinimize(s, due);
    FrameStepKeeps(s, due);
    SettleKeeps(s, due);
    Queued(s, due);
    CloseAllKeeps(s1, q);
    CloseAllLeaves(s1, q);
    var s2 := CloseAll(s1, q);
    StackedOf(s2);
    CanHide(s, s2, due);
    MinimizeAllLeaves(s2, m);
    FrameParts(s, s2, MinimizeAll(s2, m), due);
  }

  lemma Queued(s: State, due: set<Wid>)
    requires Inv(s)
    ensures var (s1, q) := (Settle(s, due), ToRemove(s, due));
            Queue(s1, q) && forall i :: 0 <= i < |q| ==> Unowned(s1, q[i])
  {
    hide Inv, Settle, ToRemove, ToMinimize, Count, Unowned;
    var s1, q := Settle(s, due), ToRemove(s, due);
    SettleKeeps(s, due);
    forall w: Wid ensures Count(q, w) <= 1 { QueueOnce(s, due, w); }
    Distinct(q);
    forall i | 0 <= i < |q| ensures q[i] in s1.live && Unowned(s1, q[i]) {
      QueueOnce(s, due, q[i]);
      UnownedSame(s, s1, q[i]);
    }
  }

  lemma CanHide(s: State, s2: State, due: set<Wid>)
    requires Inv(s) && AllClosed(Settle(s, due), s2, Members(ToRemove(s, due)), BufsBack(Settle(s, due), ToRemove(s, due)))
    ensures CanMinimize(s2, ToMinimize(s, due))
  {
    hide Inv, Settle, ToRemove, ToMinimize, Count, StacksLeft, FocusLeft, Minus, BufsBack, Expired;
    var q, m := ToRemove(s, due), ToMinimize(s, due);
    SettleIs(s, due);
    forall w: Wid ensures Count(m, w) <= 1 { QueueOnce(s, due, w); }
    Distinct(m);
    forall i | 0 <= i < |m| ensures m[i] in s2.live && !Get(s2, m[i]).minimized {
      var w := m[i];
      QueueOnce(s, due, w);
      MemberCount(q, w);
      MemberCount(m, w);
      HidingVisible(s, due, w);
    }
  }

  lemma HidingVisible(s: State, due: set<Wid>, w: Wid)
    requires w in ToMinimize(s, due)
    ensures !Get(s, w).minimized && !Expired(s, due, w, Opening) && !Expired(s, due, w, Unminimizing)
  {
    hide DrawOrder, Due, Count;
    DueCount(s, DrawOrder(s), due, Minimizing, w);
    MemberCount(ToMinimize(s, due), w);
  }

  /** Settling, closing and minimising together. */
  lemma FrameParts(s: State, s2: State, s': State, due: set<Wid>)
    requires Inv(s)
    requires AllClosed(Settle(s, due), s2, Members(ToRemove(s, due)), BufsBack(Settle(s, due), ToRemove(s, due)))
    requires AllMinimized(s2, s', ToMinimize(s, due))
    ensures Refreshed(s, s', due)
  {
    hide Inv, Settle, ToRemove, ToMinimize, StacksLeft, FocusLeft, Minus, BufsBack, Back, Only, Expired, Lost;
    hide AsMinimized, DrawOrder;
    var s1, q, m := Settle(s, due), ToRemove(s, due), ToMinimize(s, due);
    SettleIs(s, due);
    ClosingIs(s, due);
    HidingIs(s, due);
    NoneLeft(s, s1);
    LeftTwice(s, s1, s2, {}, Members(q));
    assert {} + Members(q) == Members(q);
    LeftTwice(s, s2, s', Members(q), Members(m));
    BufsSettled(s, s1, q);
    forall v: Wid | v in m ensures Get(s1, v) == Get(s, v) { HidingVisible(s, due, v); }
  }

  lemma BufsSettled(s: State, s1: State, q: seq<Wid>)
    requires forall v: Wid :: Get(s1, v) == Get(s, v) || Get(s1, v) == Get(s, v).(anim := Idle)
    ensures BufsBack(s1, q) == BufsBack(s, q)
  {
    BufsSame(s, s1, q);
  }

  // ----- every event -----

  /** What an event has done to a state in order. */
  ghost predicate Did(s: State, e: Event, s': State) {
    match e
    case Hello(c) =>
      if c in s.clients then s' == s else s' == s.(clients := s.clients[c := []])
    case New(c, still, steal) =>
      && Created(s, s'.(focused := s.focused), s.nextWid, c, still)
      && s'.focused == if steal then Some(s.nextWid) else s.focused
    case Flip(w) => if w in s.live then Revealed(s, s', w) else s' == s
    case CloseWindow(w) => if w in s.live then LetGo(s, s', w) else s' == s
    case StackWindow(w, z) => if w in s.live then Restacked(s, s', w, z) else s' == s
    case FocusWindow(w) => if w in s.live then Focused(s, s', w) else s' == s
    case Advertise(w) => if w in s.live then Changed(s, s', w, Get(s, w).(advertised := true)) else s' == s
    case Minimize(w) =>
      if w in s.live && Get(s, w).advertised then Changed(s, s', w, Get(s, w).(anim := Minimizing)) else s' == s
    case ResizeAccept(w) => if w in s.live then Offered(s, s', w) else s' == s
    case ResizeDone(w) => if w in s.live then Swapped(s, s', w) else s' == s
    case Raise(w) => if w in s.live then Raised(s, s', w) else s' == s
    case Click(o) =>
      if o.Some? then (if o.value in s.live then Focused(s, s', o.value) else s' == s)
      else s' == s.(focused := if s.focused.Some? then s.bottom else None)
    case Disconnect(c) => if c in s.clients then Disconnected(s, s', c) else s' == s
    case Redraw(due) => Refreshed(s, s', due)
  }

  /** Every legal step keeps the invariants and does what it is for. */
  lemma StepDoes(s: State, e: Event)
    requires Inv(s) && Legal(s, e)
    ensures Inv(Step(s, e)) && Did(s, e, Step(s, e))
  {
    hide Inv, Create, Reveal, SetFocused, Reorder, Resize, ResizeFinish, MakeTop, DrawFrame, MarkForClose, Disown, MarkAll;
    hide Focused, Raised, LetGo, Restacked, Revealed, Offered, Swapped, Disconnected, Refreshed, Created;
    StepKeeps(s, e);
    match e
    case Hello(_) =>
    case New(c, still, steal) =>
      CreateDoes(s, c, still);
      NewDoes(s, c, still);
      CreateFocus(s, c, still);
    case Flip(w) => if w in s.live { RevealDoes(s, w); }
    case CloseWindow(w) => if w in s.live { CloseWindowDoes(s, w); }
    case StackWindow(w, z) => if w in s.live { StackDoes(s, w, z); }
    case FocusWindow(w) => if w in s.live { FocusDoes(s, Some(w)); }
    case Advertise(_) =>
    case Minimize(_) =>
    case ResizeAccept(w) => if w in s.live { ResizeDoes(s, w); }
    case ResizeDone(w) => if w in s.live { ResizeDoes(s, w); }
    case Raise(w) => if w in s.live { RaiseDoes(s, w); }
    case Click(o) => if o.Some? ==> o.value in s.live { FocusDoes(s, o); }
    case Disconnect(c) => if c in s.clients { DisconnectDoes(s, c); }
    case Redraw(due) => FrameDoes(s, due);
  }

  lemma CreateFocus(s: State, c: Client, still: bool)
    ensures var s1 := Create(s, c, still);
            s1.focused == s.focused && s1.(focused := Some(s.nextWid)).(focused := s.focused) == s1
  {
  }

  // ----- a run that leads to a minimised window -----

  /** A client makes a window, shows it, names it and has it minimised. */
  const TO_MINIMISED := [Hello(7), New(7, true, false), Flip(1), Advertise(1), Minimize(1)]

  /** The state in front of the frame. */
  lemma BeforeFrame()
    ensures LegalRun(START, TO_MINIMISED)
    ensures var s := Run(START, TO_MINIMISED);
            s.mid == [1] && 1 in s.live && Visible(s, 1) && Get(s, 1).anim == Minimizing
  {
    hide Inv, Stacked;
    var s1 := Step(START, Hello(7));
    var s2 := Step(s1, New(7, true, false));
    var s3 := Step(s2, Flip(1));
    var s4 := Step(s3, Advertise(1));
    var s5 := Step(s4, Minimize(1));
    assert s1.clients == map[7 := []] && s2.mid == [1] && s2.live == {1};
    RunFive(START, s1, s2, s3, s4, s5);
  }

  lemma RunFive(s0: State, s1: State, s2: State, s3: State, s4: State, s5: State)
    requires s0 == START && s1 == Step(s0, Hello(7)) && s2 == Step(s1, New(7, true, false)) && s3 == Step(s2, Flip(1))
    requires s4 == Step(s3, Advertise(1)) && s5 == Step(s4, Minimize(1)) && 7 in s1.clients
    ensures LegalRun(START, TO_MINIMISED) && Run(START, TO_MINIMISED) == s5
  {
    hide Step;
    var es := TO_MINIMISED;
    assert es[1..] == [New(7, true, false), Flip(1), Advertise(1), Minimize(1)];
    assert es[1..][1..] == [Flip(1), Advertise(1), Minimize(1)];
    assert es[1..][1..][1..] == [Advertise(1), Minimize(1)];
    assert es[1..][1..][1..][1..] == [Minimize(1)];
    assert es[1..][1..][1..][1..][1..] == [];
    assert Run(s4, [Minimize(1)]) == s5 && LegalRun(s4, [Minimize(1)]);
    assert Run(s3, [Advertise(1), Minimize(1)]) == s5 && LegalRun(s3, [Advertise(1), Minimize(1)]);
    assert Run(s2, [Flip(1), Advertise(1), Minimize(1)]) == s5 && LegalRun(s2, [Flip(1), Advertise(1), Minimize(1)]);
  }

  /** Its frame minimises the window, and a restack then breaks the invariants: the condition on
      restacking is needed for a state that a legal run reaches. */
  lemma RestackBreaks(z: int)
    requires z <= TOP
    ensures var s := Step(Run(START, TO_MINIMISED), Redraw({1}));
            Inv(s) && 1 in s.live && Get(s, 1).minimized && !Inv(Step(s, StackWindow(1, z)))
  {
    hide Inv, Run, LegalRun, Reorder, DrawFrame, Stacked, Refreshed, ToMinimize, ToRemove;
    BeforeFrame();
    StartGood();
    RunKeeps(START, TO_MINIMISED);
    var s := Run(START, TO_MINIMISED);
    DueOnce(s);
    FrameDoes(s, {1});
    FrameHides(s, DrawFrame(s, {1}), {1}, 1);
    StackDoes(DrawFrame(s, {1}), 1, z);
  }

  lemma FrameHides(s: State, s': State, due: set<Wid>, w: Wid)
    requires Inv(s) && Refreshed(s, s', due) && w in s.live && w in ToMinimize(s, due) && w !in ToRemove(s, due)
    ensures w in s'.live && Get(s', w).minimized
  {
    hide Inv, ToMinimize, ToRemove, StacksLeft, FocusLeft, Expired, Lost, Only, DrawOrder, Minus, Back, BufsBack;
    HidingIs(s, due);
    ClosingIs(s, due);
    assert w !in Members(ToRemove(s, due));
  }

  lemma DueOnce(s: State)
    requires s.mid == [1] && 1 in s.live && Visible(s, 1) && Get(s, 1).anim == Minimizing && Inv(s)
    ensures 1 in ToMinimize(s, {1}) && 1 !in ToRemove(s, {1})
  {
    hide Inv, Due, Stuck;
    DrawCount(s, 1);
    DueCount(s, DrawOrder(s), {1}, Minimizing, 1);
    MemberCount(ToMinimize(s, {1}), 1);
    MemberCount(ToRemove(s, {1}), 1);
    QueueOnce(s, {1}, 1);
  }
}
