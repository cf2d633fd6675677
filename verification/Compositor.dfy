/**
  The window state of the compositor: what each protocol step does to the stacks, the
  focus and the shared buffers, and what every run keeps.
 */
module Compositor {
  import opened Common

  type Wid = nat
  type Client = nat
  type BufId = nat

  // `z` is an unsigned short; -1 wraps to the value that also means "top".
  const TOP := 0xFFFF
  const MENU := 0xFFFE
  const OVERLAY := 0xFFED
  const BOTTOM := 0

  /** Animations, as far as they decide what happens when they end. */
  datatype Anim = Idle | Opening | Closing | Minimizing | Unminimizing

  datatype Window = Window(
    z: int, minimized: bool, hidden: bool, anim: Anim,
    bufid: BufId, newbufid: BufId,          // newbufid is 0 outside a resize
    owner: Client, advertised: bool, still: bool)

  datatype State = State(
    win: map<Wid, Window>,                  // the window objects
    live: set<Wid>,                         // wids_to_windows
    windows: seq<Wid>,
    clients: map<Client, seq<Wid>>,         // clients_to_windows
    bottom: Option<Wid>, mid: seq<Wid>, overlay: seq<Wid>, menu: seq<Wid>, top: Option<Wid>,
    minimized: seq<Wid>,
    focused: Option<Wid>,
    nextWid: Wid, nextBuf: BufId,
    released: seq<BufId>)                   // arguments of shm_release, in order

  const START := State(map[], {}, [], map[], None, [], [], [], None, [], None, 1, 1, [])

  // ----- lists -----

  /** `list_find` and `list_delete`: the first occurrence goes, if there is one. */
  function Remove(xs: seq<Wid>, w: Wid): seq<Wid> {
    if xs == [] then [] else if xs[0] == w then xs[1..] else [xs[0]] + Remove(xs[1..], w)
  }

  ghost function Count(xs: seq<Wid>, w: Wid): nat {
    multiset(xs)[w]
  }

  lemma {:induction false} RemoveCount(xs: seq<Wid>, w: Wid, v: Wid)
    ensures Count(Remove(xs, w), v) == if v == w && Count(xs, w) > 0 then Count(xs, w) - 1 else Count(xs, v)
  {
    if xs != [] {
      assert xs == [xs[0]] + xs[1..];
      RemoveCount(xs[1..], w, v);
    }
  }

  lemma AppendCount(xs: seq<Wid>, w: Wid, v: Wid)
    ensures Count(xs + [w], v) == Count(xs, v) + if v == w then 1 else 0
  {
  }

  // ----- stacking -----

  datatype Stack = Mid | Overlay | Menu | Single

  /** `window_zorder_owner`: the list for a stacking order; the two ends have single slots. */
  function Owner(z: int): Stack {
    if z == BOTTOM || z == TOP then Single else if z == MENU then Menu else if z == OVERLAY then Overlay else Mid
  }

  function List(s: State, k: Stack): seq<Wid> {
    match k
    case Mid => s.mid
    case Overlay => s.overlay
    case Menu => s.menu
    case Single => []
  }

  function WithList(s: State, k: Stack, xs: seq<Wid>): State {
    match k
    case Mid => s.(mid := xs)
    case Overlay => s.(overlay := xs)
    case Menu => s.(menu := xs)
    case Single => s
  }

  const UNKNOWN := Window(TOP, false, true, Idle, 0, 0, 0, false, false)

  /** The fields of window w. */
  function Get(s: State, w: Wid): Window {
    if w in s.win then s.win[w] else UNKNOWN
  }

  function SetWin(s: State, w: Wid, x: Window): State {
    s.(win := s.win[w := x])
  }

  /** `unorder_window` */
  function Unorder(s: State, w: Wid): State {
    var z := Get(s, w).z;
    var s1 := SetWin(s, w, Get(s, w).(z := TOP));
    if z == BOTTOM && s1.bottom == Some(w) then s1.(bottom := None)
    else if z == TOP && s1.top == Some(w) then s1.(top := None)
    else WithList(s1, Owner(z), Remove(List(s1, Owner(z)), w))
  }

  /** `reorder_window` */
  function Reorder(s: State, w: Wid, z: int): State {
    var s1 := Unorder(s, w);
    var s2 := SetWin(s1, w, Get(s1, w).(z := z));
    if Owner(z) != Single then WithList(s2, Owner(z), List(s2, Owner(z)) + [w])
    else if z == TOP then
      var s3 := if s2.top.Some? then Unorder(s2, s2.top.value) else s2;
      s3.(top := Some(w))
    else
      var s3 := if s2.bottom.Some? then Unorder(s2, s2.bottom.value) else s2;
      s3.(bottom := Some(w))
  }

  /** `make_top`: to the end of its own stack. */
  function MakeTop(s: State, w: Wid): State {
    var k := Owner(Get(s, w).z);
    if w in List(s, k) then WithList(s, k, Remove(List(s, k), w) + [w]) else s
  }

  /** `window_unminimize` */
  function Unminimize(s: State, w: Wid): State {
    if !Get(s, w).minimized then s
    else
      var s1 := s.(minimized := Remove(s.minimized, w), mid := s.mid + [w]);
      SetWin(s1, w, Get(s1, w).(z := 1, minimized := false, anim := Unminimizing))
  }

  // ----- focus -----

  /** `set_focused_window`; None is a null pointer. */
  function SetFocused(s: State, o: Option<Wid>): State {
    if o == s.focused then s
    else
      var s1 := if o.Some? then Unminimize(s, o.value) else s;
      var t := if o.Some? then o else s1.bottom;
      var s2 := s1.(focused := t);
      if t.Some? then MakeTop(s2, t.value) else s2
  }

  /** Where the focus goes when the focused window leaves. */
  function Heir(s: State): Option<Wid> {
    if s.menu != [] then Some(s.menu[|s.menu| - 1])
    else if s.mid != [] then Some(s.mid[|s.mid| - 1])
    else s.bottom
  }

  /** The block of `window_finish_minimize` and `window_actually_close` that drops the focus. */
  function DropFocus(s: State, w: Wid): State {
    if s.focused != Some(w) then s else SetFocused(s.(focused := None), Heir(s))
  }

  // ----- what every run keeps -----

  /** How often window w stands in each place. */
  datatype Places = Places(mid: nat, overlay: nat, menu: nat, bottom: bool, top: bool, minimized: nat, windows: nat)

  ghost function Of(s: State, w: Wid): Places {
    Places(Count(s.mid, w), Count(s.overlay, w), Count(s.menu, w), s.bottom == Some(w), s.top == Some(w),
           Count(s.minimized, w), Count(s.windows, w))
  }

  function Bit(b: bool): nat {
    if b then 1 else 0
  }

  /** Where a window must be.  One that was pushed out of the top or bottom slot has z == TOP
      and stands nowhere. */
  ghost predicate Placed(p: Places, x: Window, live: bool) {
    var shown := live && !x.minimized;
    && p.mid == Bit(shown && Owner(x.z) == Mid)
    && p.overlay == Bit(shown && Owner(x.z) == Overlay)
    && p.menu == Bit(shown && Owner(x.z) == Menu)
    && (p.bottom <==> shown && x.z == BOTTOM)
    && (p.top ==> shown && x.z == TOP)
    && p.minimized == Bit(live && x.minimized)
    && p.windows == Bit(live)
    && (live && x.minimized ==> x.z == TOP)
  }

  ghost predicate Good(s: State, w: Wid) {
    && (w in s.win ==> w < s.nextWid)
    && (w in s.live ==> w in s.win)
    && Placed(Of(s, w), Get(s, w), w in s.live)
  }

  /** The stacking invariant. */
  ghost predicate Stacked(s: State) {
    && (forall w: Wid :: Good(s, w))
    && FocusGood(s)
  }

  ghost predicate FocusGood(s: State) {
    s.focused.Some? ==> s.focused.value in s.live && !Get(s, s.focused.value).minimized
  }

  /** No longer in any stack or end slot. */
  function Off(p: Places): Places {
    p.(mid := 0, overlay := 0, menu := 0, bottom := false, top := false)
  }

  // ----- how the operations move windows -----

  /** w stands at most once on the stack or in the slot that its z names, and on no other. */
  ghost predicate OnOne(s: State, w: Wid) {
    var (p, z) := (Of(s, w), Get(s, w).z);
    && p.mid <= Bit(Owner(z) == Mid) && p.overlay <= Bit(Owner(z) == Overlay) && p.menu <= Bit(Owner(z) == Menu)
    && (p.bottom ==> z == BOTTOM) && (p.top ==> z == TOP)
  }

  /** `unorder_window` takes w, and only w, off its stack. */
  lemma UnorderMoves(s: State, w: Wid, v: Wid)
    requires OnOne(s, w)
    ensures Of(Unorder(s, w), v) == if v == w then Off(Of(s, w)) else Of(s, v)
    ensures var s' := Unorder(s, w);
            s' == s.(win := s.win[w := Get(s, w).(z := TOP)],
                     bottom := s'.bottom, top := s'.top, mid := s'.mid, overlay := s'.overlay, menu := s'.menu)
  {
    hide Remove, Count;
    var k := Owner(Get(s, w).z);
    RemoveCount(List(s, k), w, v);
    RemoveCount(List(s, k), w, w);
  }

  /** `make_top` moves no window out of its place. */
  lemma MakeTopMoves(s: State, w: Wid, v: Wid)
    ensures Of(MakeTop(s, w), v) == Of(s, v)
    ensures var s' := MakeTop(s, w); s' == s.(mid := s'.mid, overlay := s'.overlay, menu := s'.menu)
  {
    hide Remove, Count;
    var k := Owner(Get(s, w).z);
    MemberCount(List(s, k), w);
    RemoveCount(List(s, k), w, v);
    AppendCount(Remove(List(s, k), w), w, v);
  }

  lemma MemberCount(xs: seq<Wid>, w: Wid)
    ensures w in xs <==> Count(xs, w) > 0
  {
  }

  /** Focusing a window that is not minimised moves nothing and changes only the focus. */
  lemma FocusMoves(s: State, o: Option<Wid>, v: Wid)
    requires o.Some? ==> !Get(s, o.value).minimized
    ensures var s' := SetFocused(s, o);
            && Of(s', v) == Of(s, v)
            && s' == s.(focused := s'.focused, mid := s'.mid, overlay := s'.overlay, menu := s'.menu)
            && s'.focused == if o == s.focused then s.focused else if o.Some? then o else s.bottom
  {
    hide MakeTop, Of;
    var t := if o.Some? then o else s.bottom;
    if o != s.focused {
      OfFocus(s, t, v);
      if t.Some? { MakeTopMoves(s.(focused := t), t.value, v); }
    }
  }

  lemma OfFocus(s: State, t: Option<Wid>, v: Wid)
    ensures Of(s.(focused := t), v) == Of(s, v)
  {
  }

  /** The clients, the counters, the released buffers, the owners and the buffers of all windows
      are the same, and no window has begun to close. */
  ghost predicate Frame(s: State, s': State) {
    && s'.clients == s.clients && s'.nextWid == s.nextWid && s'.nextBuf == s.nextBuf && s'.released == s.released
    && s'.win.Keys == s.win.Keys
    && forall w: Wid :: w in s.win ==>
         && s'.win[w].bufid == s.win[w].bufid && s'.win[w].newbufid == s.win[w].newbufid
         && s'.win[w].owner == s.win[w].owner && (s'.win[w].anim == Closing ==> s.win[w].anim == Closing)
  }

  // ----- leaving: minimise and close -----

  /** `window_finish_minimize` */
  function FinishMinimize(s: State, w: Wid): State {
    if Get(s, w).minimized then s
    else
      var s1 := SetWin(s, w, Get(s, w).(minimized := true, anim := Idle));
      var s2 := DropFocus(Unorder(s1, w), w);
      s2.(minimized := s2.minimized + [w])
  }

  /** `window_actually_close` */
  function ActuallyClose(s: State, w: Wid): State {
    var s1 := s.(live := s.live - {w}, windows := Remove(s.windows, w),
                 minimized := if Get(s, w).minimized then Remove(s.minimized, w) else s.minimized);
    var s2 := DropFocus(Unorder(s1, w), w);
    s2.(released := s2.released + [Get(s2, w).bufid])
  }

  /** Everything but w is in order, and w is off every stack. */
  ghost predicate AllBut(s: State, w: Wid) {
    && (forall v: Wid :: v != w ==> Good(s, v))
    && Of(s, w) == Off(Of(s, w))
  }

  lemma HeirIsGood(s: State, w: Wid)
    requires AllBut(s, w)
    ensures Heir(s).Some? ==> var h := Heir(s).value; h != w && h in s.live && !Get(s, h).minimized
    ensures s.bottom.Some? ==> s.bottom.value != w && s.bottom.value in s.live && !Get(s, s.bottom.value).minimized
  {
    if Heir(s).Some? {
      HeirStands(s);
      assert Heir(s).value != w ==> Good(s, Heir(s).value);
    }
    if s.bottom.Some? { assert Good(s, s.bottom.value); }
  }

  lemma HeirStands(s: State)
    requires Heir(s).Some?
    ensures var p := Of(s, Heir(s).value); p.menu > 0 || p.mid > 0 || p.bottom
  {
    if s.menu != [] { MemberCount(s.menu, s.menu[|s.menu| - 1]); }
    if s.mid != [] { MemberCount(s.mid, s.mid[|s.mid| - 1]); }
  }

  /** When the focus is dropped, nothing moves and a window other than w gets it. */
  lemma DropFocusMoves(s: State, w: Wid, v: Wid)
    requires AllBut(s, w) && (s.focused != Some(w) ==> FocusGood(s))
    ensures var s' := DropFocus(s, w);
            && Of(s', v) == Of(s, v)
            && s' == s.(focused := s'.focused, mid := s'.mid, overlay := s'.overlay, menu := s'.menu)
            && FocusGood(s') && s'.focused != Some(w)
  {
    hide Of, SetFocused, Heir, AllBut;
    HeirIsGood(s, w);
    if s.focused == Some(w) {
      var s1 := s.(focused := None);
      OfFocus(s, None, v);
      HeirOfFocus(s);
      FocusMoves(s1, Heir(s), v);
    }
  }

  lemma HeirOfFocus(s: State)
    ensures Heir(s.(focused := None)) == Heir(s)
  {
  }

  /** Closing a live window keeps the stacking invariant. */
  lemma CloseKeeps(s: State, w: Wid)
    requires Stacked(s) && w in s.live
    ensures var s' := ActuallyClose(s, w);
            && Stacked(s') && s'.live == s.live - {w}
            && Frame(s, s'.(released := s.released)) && s'.released == s.released + [Get(s, w).bufid]
  {
    hide Unorder, DropFocus, Of, Remove;
    assert Good(s, w);
    var s1 := s.(live := s.live - {w}, windows := Remove(s.windows, w),
                 minimized := if Get(s, w).minimized then Remove(s.minimized, w) else s.minimized);
    forall v: Wid ensures Of(s1, v) == if v == w then Of(s, v).(windows := 0, minimized := 0) else Of(s, v) {
      assert Good(s, v);
      Unlisted(s, w, v);
    }
    forall v: Wid ensures Good(s1, v) || v == w { assert Good(s, v); }
    var s2 := Unorder(s1, w);
    forall v: Wid ensures Of(s2, v) == if v == w then Off(Of(s1, w)) else Of(s1, v) {
      UnorderMoves(s1, w, v);
    }
    UnorderMoves(s1, w, w);
    forall v: Wid ensures Good(s2, v) || v == w { assert Good(s, v); }
    var s3 := DropFocus(s2, w);
    forall v: Wid ensures Good(s3.(released := s3.released + [Get(s3, w).bufid]), v) {
      DropFocusMoves(s2, w, v);
      OfReleased(s3, s3.released + [Get(s3, w).bufid], v);
      assert Good(s, v);
    }
    DropFocusMoves(s2, w, w);
  }

  lemma OfReleased(s: State, r: seq<BufId>, v: Wid)
    ensures Of(s.(released := r), v) == Of(s, v)
  {
  }

  lemma Unlisted(s: State, w: Wid, v: Wid)
    requires Good(s, w) && w in s.live
    ensures var s1 := s.(live := s.live - {w}, windows := Remove(s.windows, w),
                         minimized := if Get(s, w).minimized then Remove(s.minimized, w) else s.minimized);
            Of(s1, v) == if v == w then Of(s, v).(windows := 0, minimized := 0) else Of(s, v)
  {
    hide Remove, Count;
    RemoveCount(s.windows, w, v);
    RemoveCount(s.minimized, w, v);
  }

  /** Finishing to minimise a live window keeps it, too. */
  lemma MinimizeKeeps(s: State, w: Wid)
    requires Stacked(s) && w in s.live
    ensures var s' := FinishMinimize(s, w);
            Stacked(s') && s'.live == s.live && Frame(s, s')
  {
    hide Unorder, DropFocus, Of;
    assert Good(s, w);
    if !Get(s, w).minimized {
      var s1 := SetWin(s, w, Get(s, w).(minimized := true, anim := Idle));
      forall v: Wid ensures Of(s1, v) == Of(s, v) { OfWin(s, s1.win, v); }
      var s2 := Unorder(s1, w);
      forall v: Wid ensures Of(s2, v) == if v == w then Off(Of(s1, w)) else Of(s1, v) {
        UnorderMoves(s1, w, v);
      }
      UnorderMoves(s1, w, w);
      forall v: Wid ensures Good(s2, v) || v == w { assert Good(s, v); }
      var s3 := DropFocus(s2, w);
      var s4 := s3.(minimized := s3.minimized + [w]);
      forall v: Wid ensures Good(s4, v) {
        DropFocusMoves(s2, w, v);
        OfMinimized(s3, w, v);
        assert Good(s, v);
      }
      DropFocusMoves(s2, w, w);
    }
  }

  lemma OfWin(s: State, win: map<Wid, Window>, v: Wid)
    ensures Of(s.(win := win), v) == Of(s, v)
  {
  }

  lemma OfMinimized(s: State, w: Wid, v: Wid)
    ensures var s' := s.(minimized := s.minimized + [w]);
            Of(s', v) == Of(s, v).(minimized := Of(s, v).minimized + Bit(v == w))
  {
    AppendCount(s.minimized, w, v);
  }

  /** Putting back a minimised window. */
  lemma UnminimizeMoves(s: State, w: Wid, v: Wid)
    requires Good(s, w) && w in s.live && Get(s, w).minimized
    ensures Of(Unminimize(s, w), v) == if v == w then Of(s, w).(mid := 1, minimized := 0) else Of(s, v)
  {
    hide Remove, Count;
    RemoveCount(s.minimized, w, v);
    AppendCount(s.mid, w, v);
  }

  /** Focusing any live window, or none, keeps the invariant; a minimised one comes back. */
  lemma FocusKeeps(s: State, o: Option<Wid>)
    requires Stacked(s) && (o.Some? ==> o.value in s.live)
    ensures var s' := SetFocused(s, o);
            Stacked(s') && s'.live == s.live && Frame(s, s')
  {
    hide Of, MakeTop, Unminimize;
    if o != s.focused {
      var s1 := if o.Some? then Unminimize(s, o.value) else s;
      forall v: Wid ensures Good(s1, v) {
        assert Good(s, v);
        if o.Some? {
          assert Good(s, o.value);
          UnminimizeIs(s, o.value);
          if Get(s, o.value).minimized { UnminimizeMoves(s, o.value, v); }
        }
      }
      if o.Some? { UnminimizeIs(s, o.value); }
      assert FocusGood(s1);
      FocusOn(s1, s, o);
    }
  }

  lemma UnminimizeIs(s: State, w: Wid)
    ensures var s' := Unminimize(s, w);
            if Get(s, w).minimized
            then s' == SetWin(s, w, Get(s, w).(z := 1, minimized := false, anim := Unminimizing)).(minimized := s'.minimized, mid := s'.mid)
            else s' == s
  {
  }

  lemma SlotsOf(s: State, w: Wid)
    ensures Of(s, w).bottom <==> s.bottom == Some(w)
    ensures Of(s, w).top <==> s.top == Some(w)
  {
  }

  /** The rest of `set_focused_window`, once the window is not minimised. */
  lemma FocusOn(s1: State, s: State, o: Option<Wid>)
    requires (forall v: Wid :: Good(s1, v)) && (o.Some? ==> o.value in s1.live && !Get(s1, o.value).minimized)
    requires s1 == if o.Some? then Unminimize(s, o.value) else s
    requires o != s.focused
    ensures var s' := SetFocused(s, o);
            Stacked(s') && s'.live == s1.live && Frame(s1, s')
  {
    hide Of, MakeTop, Unminimize;
    var t := if o.Some? then o else s1.bottom;
    var s2 := s1.(focused := t);
    if t.Some? {
      assert Good(s1, t.value);
      SlotsOf(s1, t.value);
    }
    forall v: Wid ensures Good(SetFocused(s, o), v) {
      assert Good(s1, v);
      OfFocus(s1, t, v);
      if t.Some? { MakeTopMoves(s2, t.value, v); }
    }
    if t.Some? { MakeTopMoves(s2, t.value, t.value); }
  }

  // ----- restacking -----

  lemma InsertMoves(s: State, w: Wid, k: Stack, v: Wid)
    requires k != Single
    ensures var s' := WithList(s, k, List(s, k) + [w]);
            && Of(s', v) == (if v != w then Of(s, v) else
                             var p := Of(s, w);
                             match k
                             case Mid => p.(mid := p.mid + 1)
                             case Overlay => p.(overlay := p.overlay + 1)
                             case Menu => p.(menu := p.menu + 1)
                             case Single => p)
            && s' == s.(mid := s'.mid, overlay := s'.overlay, menu := s'.menu)
  {
    AppendCount(List(s, k), w, v);
  }

  /** The state of `reorder_window` when the window is off its old stack and has its new z. */
  function Lifted(s: State, w: Wid, z: int): State {
    var s1 := Unorder(s, w);
    SetWin(s1, w, Get(s1, w).(z := z))
  }

  lemma LiftedMoves(s: State, w: Wid, z: int, v: Wid)
    requires OnOne(s, w)
    ensures var s' := Lifted(s, w, z);
            && Of(s', v) == (if v == w then Off(Of(s, w)) else Of(s, v))
            && s' == s.(win := s.win[w := Get(s, w).(z := z)],
                        bottom := s'.bottom, top := s'.top, mid := s'.mid, overlay := s'.overlay, menu := s'.menu)
  {
    hide Of, Unorder;
    UnorderMoves(s, w, v);
    OfWin(Unorder(s, w), Lifted(s, w, z).win, v);
  }

  /** What `reorder_window` does to a window that is pushed out of an end slot. */
  lemma EvictMoves(s: State, u: Wid, v: Wid)
    requires Good(s, u) && (s.top == Some(u) || s.bottom == Some(u))
    ensures var s' := Unorder(s, u);
            && Of(s', v) == (if v == u then Off(Of(s, u)) else Of(s, v))
            && s' == s.(win := s.win[u := Get(s, u).(z := TOP)],
                        bottom := s'.bottom, top := s'.top, mid := s'.mid, overlay := s'.overlay, menu := s'.menu)
  {
    UnorderMoves(s, u, v);
  }

  /** Restacking a window that is not minimised keeps the invariant. */
  lemma StackKeeps(s: State, w: Wid, z: int)
    requires Stacked(s) && w in s.live && z <= TOP && !Get(s, w).minimized
    ensures var s' := Reorder(s, w, z);
            Stacked(s') && s'.live == s.live && Frame(s, s')
  {
    hide Of, Unorder, Lifted;
    assert Good(s, w);
    ReorderIs(s, w, z);
    var s2 := Lifted(s, w, z);
    forall v: Wid ensures Of(s2, v) == if v == w then Off(Of(s, w)) else Of(s, v) { LiftedMoves(s, w, z, v); }
    LiftedMoves(s, w, z, w);
    forall v: Wid ensures Good(s2, v) || v == w { assert Good(s, v); }
    if Owner(z) != Single {
      forall v: Wid ensures Good(Reorder(s, w, z), v) {
        InsertMoves(s2, w, Owner(z), v);
        assert Good(s, v);
      }
      InsertMoves(s2, w, Owner(z), w);
    } else {
      EndSlotKeeps(s, s2, w, z);
    }
  }

  lemma ReorderIs(s: State, w: Wid, z: int)
    ensures var s2 := Lifted(s, w, z);
            Reorder(s, w, z) ==
            if Owner(z) != Single then WithList(s2, Owner(z), List(s2, Owner(z)) + [w]) else TakeSlot(s2, w, z)
  {
    hide Unorder;
  }

  /** The holder of an end slot, and the state after it is evicted and w has taken the slot. */
  function Held(s: State, z: int): Option<Wid> {
    if z == TOP then s.top else s.bottom
  }

  function TakeSlot(s: State, w: Wid, z: int): State {
    var s3 := if Held(s, z).Some? then Unorder(s, Held(s, z).value) else s;
    if z == TOP then s3.(top := Some(w)) else s3.(bottom := Some(w))
  }

  /** `s2` is `s` with w off its stack and its z changed to that of an end slot. */
  ghost predicate ReadyFor(s: State, s2: State, w: Wid, z: int) {
    && Stacked(s) && w in s.live && !Get(s, w).minimized && Owner(z) == Single
    && s2 == s.(win := s.win[w := Get(s, w).(z := z)],
                bottom := s2.bottom, top := s2.top, mid := s2.mid, overlay := s2.overlay, menu := s2.menu)
    && (forall v: Wid :: Of(s2, v) == if v == w then Off(Of(s, w)) else Of(s, v))
    && (forall v: Wid :: v != w ==> Good(s2, v))
  }

  lemma HeldIsOther(s: State, s2: State, w: Wid, z: int)
    requires ReadyFor(s, s2, w, z)
    ensures Held(s2, z).Some? ==> Held(s2, z).value != w && Good(s2, Held(s2, z).value)
  {
    hide Of;
    SlotsOf(s2, w);
  }

  lemma EndSlotGood(s: State, s2: State, w: Wid, z: int, v: Wid)
    requires ReadyFor(s, s2, w, z)
    ensures Good(TakeSlot(s2, w, z), v)
  {
    hide Of, Unorder;
    HeldIsOther(s, s2, w, z);
    assert Good(s, v) && Good(s, w);
    if Held(s2, z).Some? {
      SlotsOf(s2, Held(s2, z).value);
      EvictMoves(s2, Held(s2, z).value, v);
    }
    SlotTaken(s2, w, z, v);
  }

  /** The window takes an end slot and evicts its old holder. */
  lemma EndSlotKeeps(s: State, s2: State, w: Wid, z: int)
    requires ReadyFor(s, s2, w, z)
    ensures var s' := TakeSlot(s2, w, z);
            Stacked(s') && s'.live == s.live && Frame(s, s')
  {
    hide Of, Unorder, Good, Placed;
    LiveKnown(s, w);
    HeldIsOther(s, s2, w, z);
    if Held(s2, z).Some? {
      EvictMoves(s2, Held(s2, z).value, w);
      HeldKnown(s2, Held(s2, z).value);
    }
    forall v: Wid ensures Good(TakeSlot(s2, w, z), v) { EndSlotGood(s, s2, w, z, v); }
  }

  lemma LiveKnown(s: State, w: Wid)
    requires Stacked(s) && w in s.live
    ensures w in s.win && 0 <= w < s.nextWid
  {
    assert Good(s, w);
  }

  lemma HeldKnown(s: State, u: Wid)
    requires Good(s, u) && (s.top == Some(u) || s.bottom == Some(u))
    ensures u in s.win
  {
  }

  /** After the eviction the slot is free, so taking it moves nobody else. */
  lemma SlotTaken(s: State, w: Wid, z: int, v: Wid)
    requires Owner(z) == Single && (Held(s, z).Some? ==> Good(s, Held(s, z).value))
    ensures var s3 := if Held(s, z).Some? then Unorder(s, Held(s, z).value) else s;
            Of(TakeSlot(s, w, z), v) ==
            if v != w then Of(s3, v) else if z == TOP then Of(s3, w).(top := true) else Of(s3, w).(bottom := true)
  {
    hide Count;
    if Held(s, z).Some? {
      EvictMoves(s, Held(s, z).value, Held(s, z).value);
      EvictMoves(s, Held(s, z).value, v);
    }
  }

  /** Restacking a minimised one breaks it: the window then stands in two places. */
  lemma StackBreaks(s: State, w: Wid, z: int)
    requires Stacked(s) && w in s.live && z <= TOP && Get(s, w).minimized
    ensures !Stacked(Reorder(s, w, z))
  {
    hide Of, Unorder, Lifted;
    assert Good(s, w);
    ReorderIs(s, w, z);
    LiftedMoves(s, w, z, w);
    var s2, s' := Lifted(s, w, z), Reorder(s, w, z);
    if Owner(z) != Single {
      InsertMoves(s2, w, Owner(z), w);
    } else {
      var held := if z == TOP then s2.top else s2.bottom;
      if held.Some? {
        var u := held.value;
        SlotsOf(s2, u);
        LiftedMoves(s, w, z, u);
        assert Good(s, u);
        EvictMoves(s2, u, w);
      }
      SlotsOf(s', w);
    }
    assert !Good(s', w);
  }

  /** So a WINDOW_STACK message keeps the invariant exactly when its window is not minimised. */
  lemma StackKeepsIff(s: State, w: Wid, z: int)
    requires Stacked(s) && w in s.live && z <= TOP
    ensures Stacked(Reorder(s, w, z)) <==> !Get(s, w).minimized
  {
    hide Stacked, Reorder;
    if Get(s, w).minimized { StackBreaks(s, w, z); } else { StackKeeps(s, w, z); }
  }

  /** What the invariant means: no window stands in two places, every occupant is live and stands where
      its z says, the minimised list holds exactly the live windows marked minimised, and the focused
      window is live and not minimised. */
  lemma StackedMeans(s: State, w: Wid)
    requires Stacked(s)
    ensures var p := Of(s, w);
            && p.mid + p.overlay + p.menu + Bit(p.bottom) + Bit(p.top) + p.minimized <= 1
            && (p.mid + p.overlay + p.menu + Bit(p.bottom) + Bit(p.top) + p.minimized == 1 ==> w in s.live)
            && (p.minimized == 1 <==> w in s.live && Get(s, w).minimized)
            && (w in s.live && Get(s, w).z != TOP ==>
                  p.mid + p.overlay + p.menu + Bit(p.bottom) + Bit(p.top) + p.minimized == 1)
    ensures var (p, z) := (Of(s, w), Get(s, w).z);
            && (p.mid == 1 ==> Owner(z) == Mid) && (p.overlay == 1 ==> z == OVERLAY) && (p.menu == 1 ==> z == MENU)
            && (p.bottom ==> z == BOTTOM) && (p.top ==> z == TOP)
    ensures s.focused == Some(w) ==> w in s.live && !Get(s, w).minimized
  {
    hide Of;
    assert Good(s, w);
  }
}
