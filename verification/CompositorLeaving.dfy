/** What is left of the stacks and who has the focus when windows leave, however many at a time. */
module CompositorLeaving {
  import opened Common
  import opened Compositor
  import opened CompositorRun
  import opened CompositorOrder

  // ----- lists -----

  /** A list without some windows, the others in order. */
  function Minus(xs: seq<Wid>, gone: set<Wid>): seq<Wid> {
    if xs == [] then [] else (if xs[0] in gone then [] else [xs[0]]) + Minus(xs[1..], gone)
  }

  lemma {:induction false} MinusConcat(a: seq<Wid>, b: seq<Wid>, gone: set<Wid>)
    ensures Minus(a + b, gone) == Minus(a, gone) + Minus(b, gone)
  {
    if a == [] {
      assert a + b == b;
    } else {
      assert (a + b)[1..] == a[1..] + b;
      MinusConcat(a[1..], b, gone);
    }
  }

  lemma {:induction false} MinusOne(xs: seq<Wid>, w: Wid)
    ensures Minus(xs, {w}) == Without(xs, w)
  {
    if xs != [] { MinusOne(xs[1..], w); }
  }

  lemma {:induction false} MinusNone(xs: seq<Wid>, gone: set<Wid>)
    requires forall w :: w in xs ==> w !in gone
    ensures Minus(xs, gone) == xs
  {
    if xs != [] { MinusNone(xs[1..], gone); }
  }

  lemma {:induction false} MinusTwice(xs: seq<Wid>, a: set<Wid>, b: set<Wid>)
    ensures Minus(Minus(xs, a), b) == Minus(xs, a + b)
  {
    if xs != [] {
      MinusTwice(xs[1..], a, b);
      var rest := Minus(xs[1..], a);
      assert ([xs[0]] + rest)[1..] == rest && [] + rest == rest;
    }
  }

  lemma {:induction false} MinusLast(xs: seq<Wid>, gone: set<Wid>)
    requires xs != [] && xs[|xs| - 1] !in gone
    ensures Minus(xs, gone) != [] && Minus(xs, gone)[|Minus(xs, gone)| - 1] == xs[|xs| - 1]
  {
    if |xs| > 1 { MinusLast(xs[1..], gone); }
  }

  lemma {:induction false} RemoveIs(xs: seq<Wid>, w: Wid)
    requires Count(xs, w) <= 1
    ensures Remove(xs, w) == Minus(xs, {w})
  {
    if xs != [] {
      assert xs == [xs[0]] + xs[1..];
      if xs[0] == w {
        MinusNone(xs[1..], {w});
      } else {
        RemoveIs(xs[1..], w);
      }
    }
  }

  // ----- the stacks -----

  function SlotMinus(o: Option<Wid>, gone: set<Wid>): Option<Wid> {
    if o.Some? && o.value in gone then None else o
  }

  /** Every stack is what it was without those that are gone. */
  ghost predicate StacksLeft(s: State, s': State, gone: set<Wid>) {
    && s'.mid == Minus(s.mid, gone) && s'.overlay == Minus(s.overlay, gone) && s'.menu == Minus(s.menu, gone)
    && s'.bottom == SlotMinus(s.bottom, gone) && s'.top == SlotMinus(s.top, gone)
  }

  /** The focus stays where it is, unless its window is gone. */
  ghost predicate FocusLeft(s: State, s': State, gone: set<Wid>) {
    s'.focused == if s.focused.Some? && s.focused.value in gone then Heir(s') else s.focused
  }

  lemma HeirKept(s: State, s': State, gone: set<Wid>)
    requires StacksLeft(s, s', gone) && (Heir(s).Some? ==> Heir(s).value !in gone)
    ensures Heir(s') == Heir(s)
  {
    if s.menu != [] {
      MinusLast(s.menu, gone);
    } else if s.mid != [] {
      MinusLast(s.mid, gone);
    }
  }

  /** Two departures, one after the other. */
  lemma LeftTwice(s: State, s1: State, s2: State, a: set<Wid>, b: set<Wid>)
    requires StacksLeft(s, s1, a) && StacksLeft(s1, s2, b) && FocusLeft(s, s1, a) && FocusLeft(s1, s2, b)
    ensures StacksLeft(s, s2, a + b) && FocusLeft(s, s2, a + b)
  {
    hide Minus, Heir;
    MinusTwice(s.mid, a, b);
    MinusTwice(s.overlay, a, b);
    MinusTwice(s.menu, a, b);
    if s.focused.Some? && s.focused.value in a && (Heir(s1).Some? ==> Heir(s1).value !in b) { HeirKept(s1, s2, b); }
  }

  lemma NoneLeft(s: State, s': State)
    requires s'.mid == s.mid && s'.overlay == s.overlay && s'.menu == s.menu && s'.bottom == s.bottom && s'.top == s.top
    requires s'.focused == s.focused
    ensures StacksLeft(s, s', {}) && FocusLeft(s, s', {})
  {
    MinusNone(s.mid, {});
    MinusNone(s.overlay, {});
    MinusNone(s.menu, {});
  }

  /** So the picture is the old one without those that are gone. */
  lemma OrderLeft(s: State, s': State, gone: set<Wid>)
    requires StacksLeft(s, s', gone)
    ensures DrawOrder(s') == Minus(DrawOrder(s), gone)
  {
    hide Minus;
    var b, t := Slot(s.bottom), Slot(s.top);
    MinusConcat(b + s.mid + s.overlay + s.menu, t, gone);
    MinusConcat(b + s.mid + s.overlay, s.menu, gone);
    MinusConcat(b + s.mid, s.overlay, gone);
    MinusConcat(b, s.mid, gone);
    SlotLeft(s.bottom, gone);
    SlotLeft(s.top, gone);
  }

  lemma SlotLeft(o: Option<Wid>, gone: set<Wid>)
    ensures Slot(SlotMinus(o, gone)) == Minus(Slot(o), gone)
  {
    if o.Some? { assert [o.value][1..] == []; }
  }

  /** A window that is off every stack while all others stand as before has left. */
  lemma OneLeft(s: State, s': State, w: Wid)
    requires Undisturbed(s, s', w) && Of(s', w) == Off(Of(s', w))
    ensures StacksLeft(s, s', {w})
  {
    hide Without, Minus, Count;
    MinusOne(s.mid, w);
    MinusOne(s.overlay, w);
    MinusOne(s.menu, w);
    MemberCount(s'.mid, w);
    MemberCount(s'.overlay, w);
    MemberCount(s'.menu, w);
    WithoutAbsent(s'.mid, w);
    WithoutAbsent(s'.overlay, w);
    WithoutAbsent(s'.menu, w);
    SlotCases(s, w);
    SlotCases(s', w);
    SlotsBack(s, s', w);
  }

  lemma SlotsBack(s: State, s': State, w: Wid)
    requires Without(Slot(s'.bottom), w) == Without(Slot(s.bottom), w) && Without(Slot(s'.top), w) == Without(Slot(s.top), w)
    requires s'.bottom != Some(w) && s'.top != Some(w)
    ensures s'.bottom == SlotMinus(s.bottom, {w}) && s'.top == SlotMinus(s.top, {w})
  {
    SlotCases(s, w);
    SlotCases(s', w);
    hide Without, Slot;
  }

  // ----- one window -----

  lemma CloseLeaves(s: State, w: Wid)
    requires Stacked(s) && w in s.live
    ensures var s' := ActuallyClose(s, w);
            && StacksLeft(s, s', {w}) && FocusLeft(s, s', {w})
            && s' == s.(live := s.live - {w}, windows := Minus(s.windows, {w}), released := s.released + [Get(s, w).bufid],
                        win := s.win[w := Get(s, w).(z := TOP)], minimized := Minus(s.minimized, {w}),
                        focused := s'.focused, bottom := s'.bottom, top := s'.top,
                        mid := s'.mid, overlay := s'.overlay, menu := s'.menu)
  {
    hide ActuallyClose, Undisturbed, Of, Remove, Minus, Heir, DrawOrder;
    CloseEffect(s, w);
    OneLeft(s, ActuallyClose(s, w), w);
    Listed(s, w);
    RemoveIs(s.windows, w);
    RemoveIs(s.minimized, w);
    if !Get(s, w).minimized { MinusNone(s.minimized, {w}); }
  }

  lemma Listed(s: State, w: Wid)
    requires Stacked(s)
    ensures Count(s.windows, w) <= 1 && Count(s.minimized, w) <= 1
    ensures !Get(s, w).minimized ==> w !in s.minimized
  {
    hide Count;
    assert Good(s, w);
    MemberCount(s.minimized, w);
  }

  lemma MinimizeLeaves(s: State, w: Wid)
    requires Stacked(s) && w in s.live && !Get(s, w).minimized
    ensures var s' := FinishMinimize(s, w);
            && StacksLeft(s, s', {w}) && FocusLeft(s, s', {w})
            && s' == s.(win := s.win[w := Get(s, w).(z := TOP, minimized := true, anim := Idle)], minimized := s.minimized + [w],
                        focused := s'.focused, bottom := s'.bottom, top := s'.top,
                        mid := s'.mid, overlay := s'.overlay, menu := s'.menu)
  {
    hide FinishMinimize, Undisturbed, Of, Minus, Heir, DrawOrder;
    MinimizeEffect(s, w);
    OneLeft(s, FinishMinimize(s, w), w);
  }

  // ----- many windows -----

  function Members(xs: seq<Wid>): set<Wid> { set w | w in xs }

  /** The buffers of windows, in the order in which their queue is emptied from its tail. */
  function BufsBack(s: State, q: seq<Wid>): seq<BufId> {
    if q == [] then [] else [Get(s, q[|q| - 1]).bufid] + BufsBack(s, q[..|q| - 1])
  }

  lemma {:induction false} BufsSame(s: State, s': State, q: seq<Wid>)
    requires forall i :: 0 <= i < |q| ==> Get(s', q[i]).bufid == Get(s, q[i]).bufid
    ensures BufsBack(s', q) == BufsBack(s, q)
  {
    if q != [] { BufsSame(s, s', q[..|q| - 1]); }
  }

  /** A batch of windows is closed. */
  ghost predicate AllClosed(s: State, s': State, gone: set<Wid>, bufs: seq<BufId>) {
    && StacksLeft(s, s', gone) && FocusLeft(s, s', gone)
    && (forall v: Wid :: Get(s', v) == if v in gone then Get(s, v).(z := TOP) else Get(s, v)) && s'.win.Keys == s.win.Keys
    && s' == s.(live := s.live - gone, windows := Minus(s.windows, gone), released := s.released + bufs,
                minimized := Minus(s.minimized, gone), win := s'.win,
                focused := s'.focused, bottom := s'.bottom, top := s'.top,
                mid := s'.mid, overlay := s'.overlay, menu := s'.menu)
  }

  lemma ClosedOne(s: State, w: Wid)
    requires Stacked(s) && w in s.live
    ensures AllClosed(s, ActuallyClose(s, w), {w}, [Get(s, w).bufid])
  {
    hide ActuallyClose, StacksLeft, FocusLeft, Minus;
    assert Good(s, w);
    CloseLeaves(s, w);
  }

  lemma ClosedNone(s: State)
    ensures AllClosed(s, s, {}, [])
  {
    hide Minus;
    NoneLeft(s, s);
    MinusNone(s.windows, {});
    MinusNone(s.minimized, {});
    assert s.released + [] == s.released && s.live - {} == s.live;
  }

  lemma ClosedTwice(s: State, s1: State, s2: State, a: set<Wid>, b: set<Wid>, x: seq<BufId>, y: seq<BufId>)
    requires AllClosed(s, s1, a, x) && AllClosed(s1, s2, b, y)
    ensures AllClosed(s, s2, a + b, x + y)
  {
    hide Minus, StacksLeft, FocusLeft;
    LeftTwice(s, s1, s2, a, b);
    MinusTwice(s.windows, a, b);
    MinusTwice(s.minimized, a, b);
    assert s.live - a - b == s.live - (a + b) && s.released + x + y == s.released + (x + y);
  }

  lemma {:induction false} CloseAllLeaves(s: State, q: seq<Wid>)
    requires Inv(s) && Queue(s, q) && forall i :: 0 <= i < |q| ==> Unowned(s, q[i])
    ensures AllClosed(s, CloseAll(s, q), Members(q), BufsBack(s, q))
    decreases |q|
  {
    hide Inv, ActuallyClose, Unowned, AllClosed;
    if q == [] {
      ClosedNone(s);
      assert Members(q) == {};
    } else {
      var w, rest := q[|q| - 1], q[..|q| - 1];
      CloseOneKeeps(s, w);
      var s1 := ActuallyClose(s, w);
      StackedOf(s);
      ClosedOne(s, w);
      forall i | 0 <= i < |rest| ensures Unowned(s1, rest[i]) {
        assert Unowned(s, q[i]);
        UnownedSame(s, s1, rest[i]);
      }
      CloseAllLeaves(s1, rest);
      OthersSame(s, s1, {w}, [Get(s, w).bufid]);
      BufsSame(s, s1, rest);
      ClosedTwice(s, s1, CloseAll(s1, rest), {w}, Members(rest), [Get(s, w).bufid], BufsBack(s, rest));
      assert q == rest + [w] && {w} + Members(rest) == Members(q);
    }
  }

  lemma StackedOf(s: State)
    requires Inv(s)
    ensures Stacked(s)
  {
  }

  lemma OthersSame(s: State, s': State, gone: set<Wid>, bufs: seq<BufId>)
    requires AllClosed(s, s', gone, bufs)
    ensures forall v: Wid :: v !in gone ==> Get(s', v) == Get(s, v)
  {
    hide StacksLeft, FocusLeft;
  }

  function Back(xs: seq<Wid>): seq<Wid> {
    if xs == [] then [] else [xs[|xs| - 1]] + Back(xs[..|xs| - 1])
  }

  /** A window as it is on the minimised list. */
  function AsMinimized(x: Window): Window { x.(z := TOP, minimized := true, anim := Idle) }

  /** A batch of windows is minimised, in the order in which its queue is emptied. */
  ghost predicate AllMinimized(s: State, s': State, q: seq<Wid>) {
    && StacksLeft(s, s', Members(q)) && FocusLeft(s, s', Members(q)) && s'.win.Keys == s.win.Keys
    && (forall v: Wid :: Get(s', v) == if v in q then AsMinimized(Get(s, v)) else Get(s, v))
    && s' == s.(minimized := s.minimized + Back(q), win := s'.win,
                focused := s'.focused, bottom := s'.bottom, top := s'.top,
                mid := s'.mid, overlay := s'.overlay, menu := s'.menu)
  }

  ghost predicate CanMinimize(s: State, q: seq<Wid>) {
    && (forall i, j :: 0 <= i < j < |q| ==> q[i] != q[j])
    && (forall i :: 0 <= i < |q| ==> q[i] in s.live && !Get(s, q[i]).minimized)
  }

  lemma {:induction false} MinimizeAllLeaves(s: State, q: seq<Wid>)
    requires Stacked(s) && CanMinimize(s, q)
    ensures AllMinimized(s, MinimizeAll(s, q), q)
    decreases |q|
  {
    hide Stacked, FinishMinimize, AllMinimized;
    if q == [] {
      MinimizedNone(s);
    } else {
      var w, rest := q[|q| - 1], q[..|q| - 1];
      MinimizeKeeps(s, w);
      var s1 := FinishMinimize(s, w);
      StillMinimize(s, q);
      MinimizeAllLeaves(s1, rest);
      MinimizedThen(s, MinimizeAll(s1, rest), w, rest);
      assert q == rest + [w];
    }
  }

  lemma MinimizedNone(s: State)
    ensures AllMinimized(s, s, [])
  {
    hide StacksLeft, FocusLeft;
    NoneLeft(s, s);
    assert Members([]) == {} && s.minimized + [] == s.minimized;
  }

  lemma StillMinimize(s: State, q: seq<Wid>)
    requires Stacked(s) && CanMinimize(s, q) && q != []
    ensures CanMinimize(FinishMinimize(s, q[|q| - 1]), q[..|q| - 1])
  {
    hide Stacked, FinishMinimize, StacksLeft, FocusLeft;
    MinimizeLeaves(s, q[|q| - 1]);
  }

  lemma MinimizedThen(s: State, s2: State, w: Wid, rest: seq<Wid>)
    requires Stacked(s) && w in s.live && !Get(s, w).minimized && w !in rest
    requires AllMinimized(FinishMinimize(s, w), s2, rest)
    ensures AllMinimized(s, s2, rest + [w])
  {
    hide Stacked, FinishMinimize, StacksLeft, FocusLeft;
    LiveKnown(s, w);
    MinimizeLeaves(s, w);
    LeftTwice(s, FinishMinimize(s, w), s2, {w}, Members(rest));
    var q := rest + [w];
    assert {w} + Members(rest) == Members(q) && q[..|q| - 1] == rest;
    assert s.minimized + [w] + Back(rest) == s.minimized + ([w] + Back(rest));
  }
}
