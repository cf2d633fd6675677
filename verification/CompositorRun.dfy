/**
  The protocol of the compositor as a state machine, and the invariants of its runs.
 */
module CompositorRun {
  import opened Common
  import opened Compositor

  // ----- the steps -----

  /** One message of a client, one mouse action, or one frame. */
  datatype Event =
    | Hello(c: Client)
    | New(c: Client, still: bool, steal: bool)
    | Flip(w: Wid)
    | CloseWindow(w: Wid)
    | StackWindow(w: Wid, z: int)
    | FocusWindow(w: Wid)
    | Advertise(w: Wid)
    | Minimize(w: Wid)
    | ResizeAccept(w: Wid)
    | ResizeDone(w: Wid)
    | Raise(w: Wid)                       // a drag or resize by mouse
    | Click(o: Option<Wid>)               // the window found under the cursor
    | Disconnect(c: Client)
    | Redraw(due: set<Wid>)               // the windows whose animation has run its time

  /** `server_window_create` */
  function Create(s: State, c: Client, still: bool): State {
    var w := s.nextWid;
    SetWin(s, w, Window(1, false, true, Idle, s.nextBuf, 0, c, false, still)).(
      live := s.live + {w}, windows := s.windows + [w], mid := s.mid + [w],
      clients := s.clients[c := (if c in s.clients then s.clients[c] else []) + [w]],
      nextWid := w + 1, nextBuf := s.nextBuf + 1)
  }

  /** `window_reveal` */
  function Reveal(s: State, w: Wid): State {
    var x := Get(s, w);
    if !x.hidden then s else SetWin(s, w, x.(hidden := false, anim := if x.still then Idle else Opening))
  }

  /** `window_mark_for_close` */
  function MarkForClose(s: State, w: Wid): State {
    var x := Get(s, w);
    if x.hidden || x.minimized then ActuallyClose(s, w) else SetWin(s, w, x.(anim := Closing))
  }

  /** `window_remove_from_client` */
  function Disown(s: State, w: Wid): State {
    var c := Get(s, w).owner;
    if c in s.clients then s.(clients := s.clients[c := Remove(s.clients[c], w)]) else s
  }

  function MarkAll(s: State, ws: seq<Wid>): State
    decreases |ws|
  {
    if ws == [] then s else MarkAll(MarkForClose(s, ws[0]), ws[1..])
  }

  /** `server_window_resize` */
  function Resize(s: State, w: Wid): State {
    var x := Get(s, w);
    if x.newbufid != 0 then s
    else SetWin(s, w, x.(newbufid := s.nextBuf)).(nextBuf := s.nextBuf + 1)
  }

  /** `server_window_resize_finish` */
  function ResizeFinish(s: State, w: Wid): State {
    var x := Get(s, w);
    if x.newbufid == 0 then s
    else SetWin(s, w, x.(bufid := x.newbufid, newbufid := 0)).(released := s.released + [x.bufid])
  }

  function Slot(o: Option<Wid>): seq<Wid> {
    if o.Some? then [o.value] else []
  }

  /** The order in which `yutani_blit_windows` draws. */
  function DrawOrder(s: State): seq<Wid> {
    Slot(s.bottom) + s.mid + s.overlay + s.menu + Slot(s.top)
  }

  predicate Visible(s: State, w: Wid) {
    !Get(s, w).hidden && !Get(s, w).minimized
  }

  /** `yutani_blit_window` ends the other animations that have run their time. */
  function Settled(x: Window): Window {
    if !x.hidden && !x.minimized && x.anim in {Opening, Unminimizing} then x.(anim := Idle) else x
  }

  function SettleAll(s: State, due: set<Wid>, drawn: seq<Wid>): State {
    s.(win := map w | w in s.win :: if w in due && w in drawn then Settled(s.win[w]) else s.win[w])
  }

  function Settle(s: State, due: set<Wid>): State {
    SettleAll(s, due, DrawOrder(s))
  }

  /** Of `ws`, the visible windows whose animation `a` has run its time. */
  function Due(s: State, ws: seq<Wid>, due: set<Wid>, a: Anim): seq<Wid> {
    if ws == [] then []
    else
      var w := ws[0];
      (if w in due && Visible(s, w) && Get(s, w).anim == a then [w] else []) + Due(s, ws[1..], due, a)
  }

  /** Of `ws`, the closing windows that are on no stack and would never be drawn. */
  function Stuck(s: State, ws: seq<Wid>): seq<Wid> {
    if ws == [] then []
    else
      var w := ws[0];
      (if Get(s, w).z == TOP && s.top != Some(w) && Get(s, w).anim == Closing then [w] else []) + Stuck(s, ws[1..])
  }

  /** The queues `windows_to_remove` and `windows_to_minimize` of a frame. */
  function ToRemove(s: State, due: set<Wid>): seq<Wid> {
    Due(s, DrawOrder(s), due, Closing) + Stuck(s, s.windows)
  }

  function ToMinimize(s: State, due: set<Wid>): seq<Wid> {
    Due(s, DrawOrder(s), due, Minimizing)
  }

  /** The queues are emptied from their tails. */
  function CloseAll(s: State, q: seq<Wid>): State
    decreases |q|
  {
    if q == [] then s else CloseAll(ActuallyClose(s, q[|q| - 1]), q[..|q| - 1])
  }

  function MinimizeAll(s: State, q: seq<Wid>): State
    decreases |q|
  {
    if q == [] then s else MinimizeAll(FinishMinimize(s, q[|q| - 1]), q[..|q| - 1])
  }

  /** One frame of `redraw_windows`. */
  function DrawFrame(s: State, due: set<Wid>): State {
    MinimizeAll(CloseAll(Settle(s, due), ToRemove(s, due)), ToMinimize(s, due))
  }

  function Step(s: State, e: Event): State {
    match e
    case Hello(c) => if c in s.clients then s else s.(clients := s.clients[c := []])
    case New(c, still, steal) =>
      var s1 := Create(s, c, still);
      if steal then SetFocused(s1, Some(s.nextWid)) else s1
    case Flip(w) => if w in s.live then Reveal(s, w) else s
    case CloseWindow(w) => if w in s.live then Disown(MarkForClose(s, w), w) else s
    case StackWindow(w, z) => if w in s.live then Reorder(s, w, z) else s
    case FocusWindow(w) => if w in s.live then SetFocused(s, Some(w)) else s
    case Advertise(w) => if w in s.live then SetWin(s, w, Get(s, w).(advertised := true)) else s
    case Minimize(w) =>
      if w in s.live && Get(s, w).advertised then SetWin(s, w, Get(s, w).(anim := Minimizing)) else s
    case ResizeAccept(w) => if w in s.live then Resize(s, w) else s
    case ResizeDone(w) => if w in s.live then ResizeFinish(s, w) else s
    case Raise(w) => if w in s.live then MakeTop(s, w) else s
    case Click(o) => if o.Some? ==> o.value in s.live then SetFocused(s, o) else s
    case Disconnect(c) =>
      if c in s.clients then var s1 := MarkAll(s, s.clients[c]); s1.(clients := s1.clients - {c}) else s
    case Redraw(due) => DrawFrame(s, due)
  }

  function Run(s: State, es: seq<Event>): State
    decreases |es|
  {
    if es == [] then s else Run(Step(s, es[0]), es[1..])
  }

  // ----- the invariants -----

  /** Buffer ids: handed out once each; current and pending ids of all windows are distinct;
      exactly the ids that were replaced or whose window was closed are released, once each. */
  ghost predicate BufsGood(s: State) {
    && 0 < s.nextBuf
    && (forall w: Wid :: w in s.win ==> BufGood(s, w))
    && (forall v: Wid, w: Wid :: v in s.win && w in s.win && v != w ==> Apart(s.win[v], s.win[w]))
    && (forall b: BufId :: IdGood(s, b))
  }

  ghost predicate BufGood(s: State, w: Wid)
    requires w in s.win
  {
    var x := s.win[w];
    && 0 < x.bufid < s.nextBuf && x.newbufid < s.nextBuf && x.bufid != x.newbufid
    && (x.bufid in s.released <==> w !in s.live)
    && x.newbufid !in s.released
  }

  ghost predicate Apart(x: Window, y: Window) {
    x.bufid != y.bufid && x.bufid != y.newbufid && x.newbufid != y.bufid && (x.newbufid == y.newbufid ==> x.newbufid == 0)
  }

  /** An id is released at most once, and every id handed out is accounted for. */
  ghost predicate IdGood(s: State, b: BufId) {
    && multiset(s.released)[b] <= 1
    && (b in s.released ==> 0 < b < s.nextBuf)
    && (0 < b < s.nextBuf ==> b in s.released || exists w: Wid :: w in s.win && Holds(s.win[w], b))
  }

  predicate Holds(x: Window, b: BufId) {
    x.bufid == b || x.newbufid == b
  }

  /** A client's list holds live windows of its own, none of them closing. */
  ghost predicate ClientsGood(s: State) {
    forall c: Client :: c in s.clients ==> ListGood(s, c)
  }

  ghost predicate ListGood(s: State, c: Client)
    requires c in s.clients
  {
    forall w: Wid :: Count(s.clients[c], w) <= 1 &&
      (w in s.clients[c] ==> w in s.live && w in s.win && s.win[w].owner == c && s.win[w].anim != Closing)
  }

  ghost predicate Inv(s: State) {
    Stacked(s) && BufsGood(s) && ClientsGood(s)
  }

  /** What the protocol asks: a client says hello first and does not restack a minimised window. */
  predicate Legal(s: State, e: Event) {
    match e
    case New(c, _, _) => c in s.clients
    case StackWindow(w, z) => z <= TOP && !(w in s.live && Get(s, w).minimized)
    case _ => true
  }

  predicate LegalRun(s: State, es: seq<Event>)
    decreases |es|
  {
    es == [] || (Legal(s, es[0]) && LegalRun(Step(s, es[0]), es[1..]))
  }

  // ----- each step keeps them -----

  ghost predicate Unowned(s: State, w: Wid) {
    forall c: Client :: c in s.clients ==> w !in s.clients[c]
  }

  /** Steps that leave buffers, owners and clients alone. */
  lemma FrameKeeps(s: State, s': State)
    requires Frame(s, s') && s'.live == s.live && BufsGood(s)
    ensures BufsGood(s') && (ClientsGood(s) ==> ClientsGood(s'))
  {
    FrameBufs(s, s');
    hide BufsGood, Count;
    if ClientsGood(s) {
      forall c: Client | c in s'.clients ensures ListGood(s', c) { assert ListGood(s, c); }
    }
  }

  lemma FrameBufs(s: State, s': State)
    requires Frame(s, s') && s'.live == s.live && BufsGood(s)
    ensures BufsGood(s')
  {
    forall b: BufId ensures IdGood(s', b) {
      assert IdGood(s, b);
      if 0 < b < s.nextBuf && b !in s.released {
        var w: Wid :| w in s.win && Holds(s.win[w], b);
        assert Holds(s'.win[w], b);
      }
    }
    forall w: Wid | w in s'.win ensures BufGood(s', w) { assert BufGood(s, w); }
    forall v: Wid, w: Wid | v in s'.win && w in s'.win && v != w ensures Apart(s'.win[v], s'.win[w]) {
      assert Apart(s.win[v], s.win[w]);
    }
  }

  /** Closing releases the window's current buffer, which was not released before. */
  lemma CloseBufs(s: State, s': State, w: Wid)
    requires BufsGood(s) && w in s.live && w in s.win
    requires Frame(s, s'.(released := s.released)) && s'.live == s.live - {w} && s'.released == s.released + [s.win[w].bufid]
    ensures BufsGood(s')
  {
    assert BufGood(s, w);
    forall b: BufId ensures IdGood(s', b) {
      assert IdGood(s, b);
      if 0 < b < s.nextBuf && b !in s.released {
        var u: Wid :| u in s.win && Holds(s.win[u], b);
        assert Holds(s'.win[u], b);
      }
    }
    forall v: Wid | v in s'.win ensures BufGood(s', v) {
      assert BufGood(s, v);
      if v != w { assert Apart(s.win[v], s.win[w]); }
    }
    forall v: Wid, u: Wid | v in s'.win && u in s'.win && v != u ensures Apart(s'.win[v], s'.win[u]) {
      assert Apart(s.win[v], s.win[u]);
    }
  }

  /** Closing a window that is on no client's list. */
  lemma ActuallyCloseKeeps(s: State, w: Wid)
    requires Stacked(s) && BufsGood(s) && w in s.live
    ensures var s' := ActuallyClose(s, w);
            && Stacked(s') && BufsGood(s') && s'.live == s.live - {w} && s'.clients == s.clients
            && s'.win.Keys == s.win.Keys && Get(s', w).owner == Get(s, w).owner
            && (forall c: Client :: c in s.clients && ListGood(s, c) && w !in s.clients[c] ==> ListGood(s', c))
  {
    hide Stacked, BufsGood, ActuallyClose, Count;
    CloseKeeps(s, w);
    LiveKnown(s, w);
    CloseBufs(s, ActuallyClose(s, w), w);
  }

  /** A change of a live window that leaves its z, its minimised mark, its owner and its
      buffers alone. */
  lemma TouchKeeps(s: State, w: Wid, x: Window)
    requires Stacked(s) && BufsGood(s) && w in s.live
    requires var y := Get(s, w);
             x == y.(hidden := x.hidden, anim := x.anim, advertised := x.advertised) && (x.anim == Closing ==> y.anim == Closing)
    ensures Stacked(SetWin(s, w, x)) && BufsGood(SetWin(s, w, x)) && (ClientsGood(s) ==> ClientsGood(SetWin(s, w, x)))
  {
    hide BufsGood, ClientsGood, Of;
    LiveKnown(s, w);
    TouchStacked(s, w, x);
    FrameKeeps(s, SetWin(s, w, x));
  }

  lemma TouchStacked(s: State, w: Wid, x: Window)
    requires Stacked(s) && w in s.live && x.z == Get(s, w).z && x.minimized == Get(s, w).minimized
    ensures Stacked(SetWin(s, w, x))
  {
    hide Of;
    assert Good(s, w);
    forall v: Wid ensures Good(SetWin(s, w, x), v) {
      assert Good(s, v);
      OfWin(s, SetWin(s, w, x).win, v);
    }
  }

  /** `window_mark_for_close` on one window of client c, as the lists of the others see it. */
  lemma MarkKeeps(s: State, w: Wid)
    requires Stacked(s) && BufsGood(s) && w in s.live
    ensures var s' := MarkForClose(s, w);
            && Stacked(s') && BufsGood(s') && s'.clients == s.clients && s.live - {w} <= s'.live <= s.live
            && s'.win.Keys == s.win.Keys && Get(s', w).owner == Get(s, w).owner
            && (forall c: Client :: c in s.clients && ListGood(s, c) && w !in s.clients[c] ==> ListGood(s', c))
  {
    hide Stacked, BufsGood, ActuallyClose, Count;
    var x := Get(s, w);
    LiveKnown(s, w);
    if x.hidden || x.minimized {
      ActuallyCloseKeeps(s, w);
    } else {
      TouchStacked(s, w, x.(anim := Closing));
      ClosingBufs(s, w);
    }
  }

  lemma ClosingBufs(s: State, w: Wid)
    requires BufsGood(s) && w in s.win
    ensures BufsGood(SetWin(s, w, s.win[w].(anim := Closing)))
  {
    var s1 := SetWin(s, w, s.win[w].(anim := Closing));
    forall b: BufId ensures IdGood(s1, b) {
      assert IdGood(s, b);
      if 0 < b < s.nextBuf && b !in s.released {
        var u: Wid :| u in s.win && Holds(s.win[u], b);
        assert Holds(s1.win[u], b);
      }
    }
    forall v: Wid | v in s1.win ensures BufGood(s1, v) { assert BufGood(s, v); }
    forall v: Wid, u: Wid | v in s1.win && u in s1.win && v != u ensures Apart(s1.win[v], s1.win[u]) {
      assert Apart(s.win[v], s.win[u]);
    }
  }

  /** The lists of all clients but c are good. */
  ghost predicate OthersGood(s: State, c: Client) {
    forall d: Client :: d in s.clients && d != c ==> ListGood(s, d)
  }

  /** Windows to be closed for client c: live, different, and its own. */
  ghost predicate Batch(s: State, ws: seq<Wid>, c: Client) {
    && (forall i, j :: 0 <= i < j < |ws| ==> ws[i] != ws[j])
    && (forall i :: 0 <= i < |ws| ==> ws[i] in s.live && ws[i] in s.win && s.win[ws[i]].owner == c)
  }

  lemma {:induction false} MarkAllKeeps(s: State, ws: seq<Wid>, c: Client)
    requires Stacked(s) && BufsGood(s) && OthersGood(s, c) && Batch(s, ws, c)
    ensures var s' := MarkAll(s, ws);
            Stacked(s') && BufsGood(s') && OthersGood(s', c) && s'.clients == s.clients
    decreases |ws|
  {
    hide Stacked, BufsGood, MarkForClose, Count;
    if ws != [] {
      MarkKeeps(s, ws[0]);
      var s1 := MarkForClose(s, ws[0]);
      assert OthersGood(s1, c) by {
        forall d: Client | d in s1.clients && d != c ensures ListGood(s1, d) { assert ListGood(s, d); }
      }
      BatchRest(s, s1, ws, c);
      MarkAllKeeps(s1, ws[1..], c);
    }
  }

  lemma BatchRest(s: State, s1: State, ws: seq<Wid>, c: Client)
    requires ws != [] && Batch(s, ws, c) && s1 == MarkForClose(s, ws[0]) && Stacked(s)
    ensures Batch(s1, ws[1..], c)
  {
    hide Stacked, ActuallyClose;
    LiveKnown(s, ws[0]);
    if Get(s, ws[0]).hidden || Get(s, ws[0]).minimized { CloseKeeps(s, ws[0]); }
  }

  lemma DisconnectKeeps(s: State, c: Client)
    requires Inv(s)
    ensures Inv(Step(s, Disconnect(c)))
  {
    hide Stacked, BufsGood, MarkAll, Count;
    if c in s.clients {
      assert ListGood(s, c);
      ListBatch(s, c);
      MarkAllKeeps(s, s.clients[c], c);
      var s1 := MarkAll(s, s.clients[c]);
      var s' := s1.(clients := s1.clients - {c});
      ClientsStacked(s1, s'.clients);
      forall d: Client | d in s'.clients ensures ListGood(s', d) { assert ListGood(s1, d); }
    }
  }

  lemma ListBatch(s: State, c: Client)
    requires c in s.clients && ListGood(s, c)
    ensures Batch(s, s.clients[c], c)
  {
    var ws := s.clients[c];
    forall i, j | 0 <= i < j < |ws| ensures ws[i] != ws[j] {
      CountTwo(ws, i, j);
    }
  }

  lemma CountTwo(ws: seq<Wid>, i: nat, j: nat)
    requires i < j < |ws|
    ensures ws[i] == ws[j] ==> Count(ws, ws[i]) >= 2
  {
    assert ws == ws[..j] + [ws[j]] + ws[j + 1..];
    assert ws[i] in ws[..j];
  }

  /** The client lists play no part in the other two invariants. */
  lemma ClientsStacked(s: State, cs: map<Client, seq<Wid>>)
    ensures Stacked(s) ==> Stacked(s.(clients := cs))
    ensures BufsGood(s) ==> BufsGood(s.(clients := cs))
  {
    var s' := s.(clients := cs);
    if Stacked(s) {
      forall v: Wid ensures Good(s', v) { assert Good(s, v) && Of(s', v) == Of(s, v); }
    }
    if BufsGood(s) {
      forall b: BufId ensures IdGood(s', b) { assert IdGood(s, b); }
      forall w: Wid | w in s'.win ensures BufGood(s', w) { assert BufGood(s, w); }
    }
  }

  lemma CloseWindowKeeps(s: State, w: Wid)
    requires Inv(s)
    ensures Inv(Step(s, CloseWindow(w)))
  {
    hide Stacked, BufsGood, MarkForClose, Count, Remove;
    if w in s.live {
      LiveKnown(s, w);
      MarkKeeps(s, w);
      var s1, c := MarkForClose(s, w), Get(s, w).owner;
      var s' := Disown(s1, w);
      ClientsStacked(s1, s'.clients);
      forall d: Client | d in s'.clients ensures ListGood(s', d) {
        assert ListGood(s, d);
        if d == c { DisownList(s, s1, s', w); } else { assert w !in s.clients[d]; }
      }
    }
  }

  /** Without w, the owner's list is good again. */
  lemma DisownList(s: State, s1: State, s': State, w: Wid)
    requires Stacked(s) && w in s.live && w in s.win && s1 == MarkForClose(s, w)
    requires s1.clients == s.clients && s' == Disown(s1, w) && Get(s1, w).owner == Get(s, w).owner
    requires var c := Get(s, w).owner; c in s.clients && ListGood(s, c)
    ensures ListGood(s', Get(s, w).owner)
  {
    hide Stacked, ActuallyClose, Remove, Count;
    var c := Get(s, w).owner;
    var ws := s.clients[c];
    if Get(s, w).hidden || Get(s, w).minimized { CloseKeeps(s, w); }
    forall v: Wid
      ensures Count(s'.clients[c], v) <= 1
      ensures v in s'.clients[c] ==> v in s'.live && v in s'.win && s'.win[v].owner == c && s'.win[v].anim != Closing
    {
      RemoveCount(ws, w, v);
      MemberCount(ws, v);
      MemberCount(Remove(ws, w), v);
    }
  }

  lemma CreateKeeps(s: State, c: Client, still: bool)
    requires Inv(s) && c in s.clients
    ensures var s' := Create(s, c, still);
            Inv(s') && s.nextWid in s'.live && s'.released == s.released
  {
    hide Stacked, BufsGood, Count;
    var s', w := Create(s, c, still), s.nextWid;
    CreateStacked(s, c, still);
    CreateBufs(s, c, still);
    NotYet(s);
    forall d: Client | d in s'.clients ensures ListGood(s', d) {
      assert ListGood(s, d);
      forall v: Wid
        ensures Count(s'.clients[d], v) <= 1
        ensures v in s'.clients[d] ==> v in s'.live && v in s'.win && s'.win[v].owner == d && s'.win[v].anim != Closing
      {
        AppendCount(s.clients[d], w, v);
        MemberCount(s.clients[d], v);
        MemberCount(s.clients[d], w);
      }
    }
  }

  lemma NotYet(s: State)
    requires Stacked(s)
    ensures s.nextWid !in s.win && s.nextWid !in s.live
  {
    assert Good(s, s.nextWid);
  }

  lemma CreateStacked(s: State, c: Client, still: bool)
    requires Stacked(s)
    ensures Stacked(Create(s, c, still))
  {
    hide Count;
    var s', w := Create(s, c, still), s.nextWid;
    assert Good(s, w);
    if s.focused.Some? { assert Good(s, s.focused.value); }
    forall v: Wid ensures Good(s', v) {
      assert Good(s, v);
      AppendCount(s.mid, w, v);
      AppendCount(s.windows, w, v);
    }
  }

  lemma CreateBufs(s: State, c: Client, still: bool)
    requires BufsGood(s) && Stacked(s)
    ensures BufsGood(Create(s, c, still))
  {
    hide Stacked;
    NotYet(s);
    var s', w := Create(s, c, still), s.nextWid;
    forall b: BufId ensures IdGood(s', b) {
      assert IdGood(s, b);
      if b == s.nextBuf {
        assert Holds(s'.win[w], b);
      } else if 0 < b < s.nextBuf && b !in s.released {
        var u: Wid :| u in s.win && Holds(s.win[u], b);
        assert Holds(s'.win[u], b);
      }
    }
    assert IdGood(s, 0) && IdGood(s, s.nextBuf);
    forall v: Wid | v in s'.win ensures BufGood(s', v) {
      if v != w { assert BufGood(s, v); }
    }
    forall v: Wid, u: Wid | v in s'.win && u in s'.win && v != u ensures Apart(s'.win[v], s'.win[u]) {
      if v != w { assert BufGood(s, v); }
      if u != w { assert BufGood(s, u); }
      if v != w && u != w { assert Apart(s.win[v], s.win[u]); }
    }
  }

  /** A change that keeps every holder of an id, or makes a new one, keeps the account. */
  lemma IdsKept(s: State, s': State, b: BufId)
    requires IdGood(s, b) && s'.win.Keys >= s.win.Keys
    requires forall w: Wid :: w in s.win && Holds(s.win[w], b) ==> Holds(s'.win[w], b) || b in s'.released
    requires s.released <= s'.released && multiset(s'.released)[b] <= 1 && (b in s'.released ==> 0 < b < s'.nextBuf)
    requires s.nextBuf <= b < s'.nextBuf ==> exists w: Wid :: w in s'.win && Holds(s'.win[w], b)
    ensures IdGood(s', b)
  {
    if 0 < b < s.nextBuf && b !in s'.released {
      assert b !in s.released;
      var u: Wid :| u in s.win && Holds(s.win[u], b);
      assert Holds(s'.win[u], b);
    }
  }

  /** A resize takes a fresh buffer, or none when one is pending. */
  lemma ResizeKeeps(s: State, w: Wid)
    requires BufsGood(s) && w in s.win
    ensures var s' := Resize(s, w);
            && BufsGood(s') && s'.released == s.released
            && (s.win[w].newbufid == 0 ==> forall v: Wid :: v in s.win ==> !Holds(s.win[v], s'.win[w].newbufid))
  {
    hide IdGood;
    var s' := Resize(s, w);
    assert BufGood(s, w);
    if s.win[w].newbufid == 0 {
      forall b: BufId ensures IdGood(s', b) { ResizeIds(s, w, b); }
      FreshId(s);
      forall v: Wid | v in s'.win ensures BufGood(s', v) && !Holds(s.win[v], s.nextBuf) { assert BufGood(s, v); }
      forall v: Wid, u: Wid | v in s'.win && u in s'.win && v != u ensures Apart(s'.win[v], s'.win[u]) {
        assert BufGood(s, v) && BufGood(s, u);
        assert Apart(s.win[v], s.win[u]);
      }
    }
  }

  lemma FreshId(s: State)
    requires BufsGood(s)
    ensures s.nextBuf !in s.released && 0 !in s.released
  {
    assert IdGood(s, s.nextBuf) && IdGood(s, 0);
  }

  lemma ResizeIds(s: State, w: Wid, b: BufId)
    requires BufsGood(s) && w in s.win && s.win[w].newbufid == 0
    ensures IdGood(Resize(s, w), b)
  {
    var s' := Resize(s, w);
    assert IdGood(s, b);
    if b == s.nextBuf { assert Holds(s'.win[w], b); }
    if b == 0 { assert !(0 < b); } else { IdsKept(s, s', b); }
  }

  /** Finishing a resize releases exactly the id it replaces. */
  lemma ResizeFinishKeeps(s: State, w: Wid)
    requires BufsGood(s) && w in s.live && w in s.win
    ensures var s' := ResizeFinish(s, w);
            && BufsGood(s')
            && (s.win[w].newbufid == 0 ==> s'.released == s.released)
            && (s.win[w].newbufid != 0 ==>
                  s'.released == s.released + [s.win[w].bufid] && s'.win[w].bufid == s.win[w].newbufid)
  {
    hide IdGood;
    var s' := ResizeFinish(s, w);
    assert BufGood(s, w);
    if s.win[w].newbufid != 0 {
      forall b: BufId ensures IdGood(s', b) { FinishIds(s, w, b); }
      FreshId(s);
      forall v: Wid | v in s'.win ensures BufGood(s', v) {
        assert BufGood(s, v);
        if v != w { assert Apart(s.win[v], s.win[w]); }
      }
      forall v: Wid, u: Wid | v in s'.win && u in s'.win && v != u ensures Apart(s'.win[v], s'.win[u]) {
        assert BufGood(s, v) && BufGood(s, u);
        assert Apart(s.win[v], s.win[u]);
      }
    }
  }

  lemma FinishIds(s: State, w: Wid, b: BufId)
    requires BufsGood(s) && w in s.live && w in s.win && s.win[w].newbufid != 0
    ensures IdGood(ResizeFinish(s, w), b)
  {
    var s' := ResizeFinish(s, w);
    assert BufGood(s, w) && IdGood(s, b);
    if b == 0 { assert !(0 < b); } else { IdsKept(s, s', b); }
  }

  // ----- a frame -----

  /** A queue of different live windows. */
  ghost predicate Queue(s: State, q: seq<Wid>) {
    (forall i, j :: 0 <= i < j < |q| ==> q[i] != q[j]) && (forall i :: 0 <= i < |q| ==> q[i] in s.live)
  }

  lemma {:induction false} CloseAllKeeps(s: State, q: seq<Wid>)
    requires Inv(s) && Queue(s, q) && forall i :: 0 <= i < |q| ==> Unowned(s, q[i])
    ensures Inv(CloseAll(s, q))
    ensures forall x: Wid :: x in s.live && x !in q ==> x in CloseAll(s, q).live
    decreases |q|
  {
    hide Inv, ActuallyClose, Unowned;
    if q != [] {
      var w, rest := q[|q| - 1], q[..|q| - 1];
      CloseOneKeeps(s, w);
      var s1 := ActuallyClose(s, w);
      forall i | 0 <= i < |rest| ensures Unowned(s1, rest[i]) {
        assert Unowned(s, q[i]);
        UnownedSame(s, s1, rest[i]);
      }
      CloseAllKeeps(s1, rest);
    }
  }

  lemma UnownedSame(s: State, s1: State, w: Wid)
    requires s1.clients == s.clients && Unowned(s, w)
    ensures Unowned(s1, w)
  {
  }

  lemma CloseOneKeeps(s: State, w: Wid)
    requires Inv(s) && w in s.live && Unowned(s, w)
    ensures var s' := ActuallyClose(s, w);
            Inv(s') && s'.live == s.live - {w} && s'.clients == s.clients
  {
    hide Stacked, BufsGood, ActuallyClose, Count;
    ActuallyCloseKeeps(s, w);
    var s1 := ActuallyClose(s, w);
    forall c: Client | c in s1.clients ensures ListGood(s1, c) { assert ListGood(s, c); }
  }

  lemma {:induction false} MinimizeAllKeeps(s: State, q: seq<Wid>)
    requires Inv(s) && forall i :: 0 <= i < |q| ==> q[i] in s.live
    ensures Inv(MinimizeAll(s, q))
    decreases |q|
  {
    hide Stacked, BufsGood, ClientsGood, FinishMinimize;
    if q != [] {
      var w, rest := q[|q| - 1], q[..|q| - 1];
      MinimizeKeeps(s, w);
      FrameKeeps(s, FinishMinimize(s, w));
      MinimizeAllKeeps(FinishMinimize(s, w), rest);
    }
  }

  lemma SettleKeeps(s: State, due: set<Wid>)
    requires Inv(s)
    ensures Inv(Settle(s, due)) && Settle(s, due).live == s.live && Settle(s, due).clients == s.clients
  {
    hide BufsGood, ClientsGood, DrawOrder, Of;
    var s' := Settle(s, due);
    forall v: Wid ensures Good(s', v) {
      assert Good(s, v);
      OfWin(s, s'.win, v);
    }
    if s.focused.Some? { assert Good(s, s.focused.value); }
    FrameKeeps(s, s');
  }

  /** What `Due` and `Stuck` select. */
  lemma {:induction false} DueCount(s: State, ws: seq<Wid>, due: set<Wid>, a: Anim, v: Wid)
    ensures Count(Due(s, ws, due, a), v) == if v in due && Visible(s, v) && Get(s, v).anim == a then Count(ws, v) else 0
  {
    if ws != [] {
      assert ws == [ws[0]] + ws[1..];
      DueCount(s, ws[1..], due, a, v);
    }
  }

  lemma {:induction false} StuckCount(s: State, ws: seq<Wid>, v: Wid)
    ensures Count(Stuck(s, ws), v) ==
            if Get(s, v).z == TOP && s.top != Some(v) && Get(s, v).anim == Closing then Count(ws, v) else 0
  {
    if ws != [] {
      assert ws == [ws[0]] + ws[1..];
      StuckCount(s, ws[1..], v);
    }
  }

  lemma DrawCount(s: State, v: Wid)
    ensures var p := Of(s, v);
            Count(DrawOrder(s), v) == Bit(p.bottom) + p.mid + p.overlay + p.menu + Bit(p.top)
  {
  }

  /** The queues of a frame: a window is queued once at most, is live and is not both closed and
      minimised; one that is closed is on no client's list. */
  lemma QueueOnce(s: State, due: set<Wid>, v: Wid)
    requires Inv(s)
    ensures Count(ToRemove(s, due), v) + Count(ToMinimize(s, due), v) <= 1
    ensures v in ToRemove(s, due) ==> v in s.live && Unowned(s, v)
    ensures v in ToMinimize(s, due) ==> v in s.live
  {
    hide BufsGood, Of, Due, Stuck, DrawOrder;
    assert Good(s, v);
    DrawCount(s, v);
    SlotsOf(s, v);
    DueCount(s, DrawOrder(s), due, Closing, v);
    DueCount(s, DrawOrder(s), due, Minimizing, v);
    StuckCount(s, s.windows, v);
    ConcatCount(Due(s, DrawOrder(s), due, Closing), Stuck(s, s.windows), v);
    MemberCount(ToRemove(s, due), v);
    MemberCount(ToMinimize(s, due), v);
    WindowsOf(s, v);
    if v in ToRemove(s, due) {
      forall c: Client | c in s.clients ensures v !in s.clients[c] { assert ListGood(s, c); }
    }
  }

  lemma WindowsOf(s: State, v: Wid)
    ensures Of(s, v).windows == Count(s.windows, v)
  {
  }

  lemma ConcatCount(a: seq<Wid>, b: seq<Wid>, v: Wid)
    ensures Count(a + b, v) == Count(a, v) + Count(b, v)
  {
  }

  lemma FrameStepKeeps(s: State, due: set<Wid>)
    requires Inv(s)
    ensures Inv(DrawFrame(s, due))
  {
    hide Inv, Settle, CloseAll, MinimizeAll, ToRemove, ToMinimize, Count;
    SettleKeeps(s, due);
    var s1, q, m := Settle(s, due), ToRemove(s, due), ToMinimize(s, due);
    forall i, j | 0 <= i < j < |q| ensures q[i] != q[j] {
      CountTwo(q, i, j);
      QueueOnce(s, due, q[i]);
    }
    forall i | 0 <= i < |q| ensures q[i] in s1.live && Unowned(s1, q[i]) { QueueOnce(s, due, q[i]); }
    CloseAllKeeps(s1, q);
    forall i | 0 <= i < |m| ensures m[i] in CloseAll(s1, q).live {
      QueueOnce(s, due, m[i]);
      MemberCount(q, m[i]);
      MemberCount(m, m[i]);
    }
    MinimizeAllKeeps(CloseAll(s1, q), m);
  }

  // ----- the theorem -----

  lemma StepKeeps(s: State, e: Event)
    requires Inv(s) && Legal(s, e)
    ensures Inv(Step(s, e))
  {
    hide Stacked, BufsGood, ClientsGood, Create, Reveal, SetFocused, Reorder, Resize, ResizeFinish, MakeTop, DrawFrame;
    hide MarkForClose, MarkAll;
    match e
    case Hello(c) => HelloKeeps(s, c);
    case New(c, still, steal) =>
      CreateKeeps(s, c, still);
      if steal { FocusStepKeeps(Create(s, c, still), Some(s.nextWid)); }
    case Flip(w) => if w in s.live { RevealKeeps(s, w); }
    case CloseWindow(w) => CloseWindowKeeps(s, w);
    case StackWindow(w, z) =>
      if w in s.live {
        StackKeeps(s, w, z);
        FrameKeeps(s, Reorder(s, w, z));
      }
    case FocusWindow(w) => if w in s.live { FocusStepKeeps(s, Some(w)); }
    case Advertise(w) => if w in s.live { TouchKeeps(s, w, Get(s, w).(advertised := true)); }
    case Minimize(w) => if w in s.live { TouchKeeps(s, w, Get(s, w).(anim := Minimizing)); }
    case ResizeAccept(w) => if w in s.live { ResizeStepKeeps(s, w); }
    case ResizeDone(w) => if w in s.live { ResizeStepKeeps(s, w); }
    case Raise(w) => if w in s.live { RaiseKeeps(s, w); }
    case Click(o) => if o.Some? ==> o.value in s.live { FocusStepKeeps(s, o); }
    case Disconnect(c) => DisconnectKeeps(s, c);
    case Redraw(due) => FrameStepKeeps(s, due);
  }

  lemma HelloKeeps(s: State, c: Client)
    requires Inv(s)
    ensures Inv(Step(s, Hello(c)))
  {
    hide Stacked, BufsGood, Count;
    if c !in s.clients {
      var s' := s.(clients := s.clients[c := []]);
      ClientsStacked(s, s'.clients);
      forall d: Client | d in s'.clients ensures ListGood(s', d) {
        if d == c { EmptyList(s', c); } else { assert ListGood(s, d); }
      }
    }
  }

  lemma EmptyList(s: State, c: Client)
    requires c in s.clients && s.clients[c] == []
    ensures ListGood(s, c)
  {
  }

  lemma FocusStepKeeps(s: State, o: Option<Wid>)
    requires Inv(s) && (o.Some? ==> o.value in s.live)
    ensures Inv(SetFocused(s, o))
  {
    hide Stacked, BufsGood, ClientsGood, SetFocused;
    FocusKeeps(s, o);
    FrameKeeps(s, SetFocused(s, o));
  }

  lemma RevealKeeps(s: State, w: Wid)
    requires Inv(s) && w in s.live
    ensures Inv(Reveal(s, w))
  {
    hide Stacked, BufsGood, ClientsGood;
    var x := Get(s, w);
    TouchKeeps(s, w, x.(hidden := false, anim := if x.still then Idle else Opening));
  }

  lemma RaiseKeeps(s: State, w: Wid)
    requires Inv(s) && w in s.live
    ensures Inv(MakeTop(s, w))
  {
    hide BufsGood, ClientsGood, MakeTop, Of;
    MakeTopMoves(s, w, w);
    forall v: Wid ensures Good(MakeTop(s, w), v) {
      assert Good(s, v);
      MakeTopMoves(s, w, v);
    }
    FrameKeeps(s, MakeTop(s, w));
  }

  lemma ResizeStepKeeps(s: State, w: Wid)
    requires Inv(s) && w in s.live
    ensures Inv(Resize(s, w)) && Inv(ResizeFinish(s, w))
  {
    hide Stacked, BufsGood, Count;
    LiveKnown(s, w);
    ResizeKeeps(s, w);
    ResizeFinishKeeps(s, w);
    var r, f := Resize(s, w), ResizeFinish(s, w);
    ResizeStacked(s, w);
    forall c: Client | c in s.clients ensures ListGood(r, c) && ListGood(f, c) { assert ListGood(s, c); }
  }

  lemma ResizeStacked(s: State, w: Wid)
    requires Stacked(s) && w in s.live
    ensures Stacked(Resize(s, w)) && Stacked(ResizeFinish(s, w))
  {
    hide Stacked, Of;
    var x := Get(s, w);
    TouchStacked(s, w, x.(newbufid := s.nextBuf));
    TouchStacked(s, w, x.(bufid := x.newbufid, newbufid := 0));
    CountersStacked(SetWin(s, w, x.(newbufid := s.nextBuf)), s.nextBuf + 1, s.released);
    CountersStacked(SetWin(s, w, x.(bufid := x.newbufid, newbufid := 0)), s.nextBuf, s.released + [x.bufid]);
  }

  lemma CountersStacked(s: State, n: BufId, r: seq<BufId>)
    ensures Stacked(s) ==> Stacked(s.(nextBuf := n)) && Stacked(s.(released := r))
  {
    if Stacked(s) {
      forall v: Wid ensures Good(s.(nextBuf := n), v) && Good(s.(released := r), v) {
        assert Good(s, v) && Of(s.(nextBuf := n), v) == Of(s, v) && Of(s.(released := r), v) == Of(s, v);
      }
    }
  }

  /** In every legal run, from the start of the compositor, every state is in order. */
  lemma {:induction false} RunKeeps(s: State, es: seq<Event>)
    requires Inv(s) && LegalRun(s, es)
    ensures Inv(Run(s, es))
    decreases |es|
  {
    hide Inv, Step, Legal;
    if es != [] {
      StepKeeps(s, es[0]);
      RunKeeps(Step(s, es[0]), es[1..]);
    }
  }

  lemma StartGood()
    ensures Inv(START)
  {
    forall w: Wid ensures Good(START, w) {}
  }
}
