/**
  What the operations on the stacks do to the picture: which window ends up where, and that all
  others are drawn in the order they were drawn in before.
 */
module CompositorOrder {
  import opened Common
  import opened Compositor
  import opened CompositorRun

  function Without(xs: seq<Wid>, w: Wid): seq<Wid> {
    if xs == [] then [] else (if xs[0] == w then [] else [xs[0]]) + Without(xs[1..], w)
  }

  lemma {:induction false} WithoutConcat(a: seq<Wid>, b: seq<Wid>, w: Wid)
    ensures Without(a + b, w) == Without(a, w) + Without(b, w)
  {
    if a == [] {
      assert a + b == b;
    } else {
      assert (a + b)[1..] == a[1..] + b;
      WithoutConcat(a[1..], b, w);
    }
  }

  lemma {:induction false} WithoutRemoved(xs: seq<Wid>, w: Wid)
    ensures Without(Remove(xs, w), w) == Without(xs, w)
  {
    if xs != [] && xs[0] != w {
      var r := Remove(xs[1..], w);
      assert ([xs[0]] + r)[1..] == r;
      WithoutRemoved(xs[1..], w);
    }
  }

  lemma {:induction false} WithoutAbsent(xs: seq<Wid>, w: Wid)
    requires w !in xs
    ensures Without(xs, w) == xs
  {
    if xs != [] { WithoutAbsent(xs[1..], w); }
  }

  lemma WithoutAppended(xs: seq<Wid>, w: Wid)
    ensures Without(xs + [w], w) == Without(xs, w)
  {
    WithoutConcat(xs, [w], w);
    assert [w][1..] == [];
  }

  /** Windows other than w stand in the same places, in the same order. */
  ghost predicate Undisturbed(s: State, s': State, w: Wid) {
    && Without(s'.mid, w) == Without(s.mid, w)
    && Without(s'.overlay, w) == Without(s.overlay, w)
    && Without(s'.menu, w) == Without(s.menu, w)
    && Without(Slot(s'.bottom), w) == Without(Slot(s.bottom), w)
    && Without(Slot(s'.top), w) == Without(Slot(s.top), w)
  }

  lemma OrderParts(s: State, w: Wid)
    ensures Without(DrawOrder(s), w) ==
            Without(Slot(s.bottom), w) + Without(s.mid, w) + Without(s.overlay, w) + Without(s.menu, w) + Without(Slot(s.top), w)
  {
    hide Without, Slot;
    var b, t := Slot(s.bottom), Slot(s.top);
    WithoutConcat(b + s.mid + s.overlay + s.menu, t, w);
    WithoutConcat(b + s.mid + s.overlay, s.menu, w);
    WithoutConcat(b + s.mid, s.overlay, w);
    WithoutConcat(b, s.mid, w);
  }

  /** So they are drawn in the same order. */
  lemma SameOrder(s: State, s': State, w: Wid)
    requires Undisturbed(s, s', w)
    ensures Without(DrawOrder(s'), w) == Without(DrawOrder(s), w)
  {
    hide Without, Slot, DrawOrder;
    OrderParts(s, w);
    OrderParts(s', w);
  }

  /** w is the last of its stack, or holds its slot. */
  ghost predicate Uppermost(s: State, w: Wid) {
    var z := Get(s, w).z;
    if z == BOTTOM then s.bottom == Some(w)
    else if z == TOP then s.top == Some(w)
    else var xs := List(s, Owner(z)); xs != [] && xs[|xs| - 1] == w
  }

  // ----- the basic moves -----

  lemma UnorderKeepsOrder(s: State, w: Wid)
    ensures Undisturbed(s, Unorder(s, w), w)
  {
    hide Remove;
    WithoutRemoved(List(s, Owner(Get(s, w).z)), w);
    assert Without([], w) == Without([w], w) by { assert [w][1..] == []; }
  }

  lemma RaiseUndisturbed(s: State, w: Wid)
    ensures Undisturbed(s, MakeTop(s, w), w)
  {
    hide Remove, Without;
    var k := Owner(Get(s, w).z);
    WithoutRemoved(List(s, k), w);
    WithoutAppended(Remove(List(s, k), w), w);
  }

  /** A live window that is not minimised stands where its z says, unless it was evicted. */
  lemma Stands(s: State, w: Wid)
    requires Good(s, w) && w in s.live && !Get(s, w).minimized && Get(s, w).z != TOP
    ensures if Get(s, w).z == BOTTOM then s.bottom == Some(w) else w in List(s, Owner(Get(s, w).z))
  {
    hide Count;
    MemberCount(List(s, Owner(Get(s, w).z)), w);
  }

  lemma RaiseUppermost(s: State, w: Wid)
    requires var z := Get(s, w).z;
             z != TOP && if z == BOTTOM then s.bottom == Some(w) else w in List(s, Owner(z))
    ensures Uppermost(MakeTop(s, w), w)
  {
    hide Remove;
  }

  /** `make_top`: w becomes the last of its stack, the others keep their order. */
  lemma RaiseEffect(s: State, w: Wid)
    requires Stacked(s) && w in s.live && !Get(s, w).minimized
    ensures var s' := MakeTop(s, w);
            Undisturbed(s, s', w) && (Get(s, w).z != TOP ==> Uppermost(s', w))
  {
    hide Undisturbed, Uppermost, MakeTop, Placed, Of;
    RaiseUndisturbed(s, w);
    assert Good(s, w);
    if Get(s, w).z != TOP {
      Stands(s, w);
      RaiseUppermost(s, w);
    }
  }

  lemma UnminimizeEffect(s: State, w: Wid)
    ensures Undisturbed(s, Unminimize(s, w), w)
  {
    hide Remove, Without;
    WithoutAppended(s.mid, w);
  }

  /** `set_focused_window`: w has the focus and is in front, out of the minimised list if it was there. */
  lemma FocusEffect(s: State, w: Wid)
    requires Stacked(s) && w in s.live && s.focused != Some(w)
    ensures var s' := SetFocused(s, Some(w));
            && s'.focused == Some(w) && !Get(s', w).minimized && Undisturbed(s, s', w)
            && (Get(s', w).z != TOP ==> Uppermost(s', w))
  {
    hide MakeTop, Unminimize, Without, Of, Placed, Undisturbed;
    FocusKeeps(s, Some(w));
    UnminimizeEffect(s, w);
    UnminimizeIs(s, w);
    var s1 := Unminimize(s, w);
    var s2 := s1.(focused := Some(w));
    RaiseUndisturbed(s2, w);
    MakeTopMoves(s2, w, w);
    Through(s, s1, s2, MakeTop(s2, w), w);
    if Get(s2, w).z != TOP {
      FocusedGood(s, w);
      Stands(s2, w);
      RaiseUppermost(s2, w);
    }
  }

  lemma Through(s: State, s1: State, s2: State, s3: State, w: Wid)
    requires Undisturbed(s, s1, w) && s2 == s1.(focused := s2.focused) && Undisturbed(s2, s3, w)
    ensures Undisturbed(s, s3, w)
  {
    hide Without, Slot;
  }

  lemma FocusedGood(s: State, w: Wid)
    requires Stacked(s) && w in s.live
    ensures var s2 := Unminimize(s, w).(focused := Some(w));
            Good(s2, w) && w in s2.live && !Get(s2, w).minimized
  {
    hide Of, Unminimize;
    assert Good(s, w);
    UnminimizeIs(s, w);
    OfFocus(Unminimize(s, w), Some(w), w);
    if Get(s, w).minimized { UnminimizeMoves(s, w, w); }
  }

  // ----- leaving -----

  lemma {:induction false} LastStays(xs: seq<Wid>, w: Wid)
    requires xs != [] && xs[|xs| - 1] == w && Count(xs, w) == 1
    ensures Remove(xs, w) + [w] == xs
  {
    assert xs == [xs[0]] + xs[1..];
    if |xs| > 1 {
      assert xs[1..][|xs| - 2] == w;
      LastStays(xs[1..], w);
      assert [xs[0]] + Remove(xs[1..], w) + [w] == [xs[0]] + (Remove(xs[1..], w) + [w]);
    }
  }

  /** The heir of the focus is in front already. */
  lemma HeirStays(s: State, w: Wid)
    requires AllBut(s, w) && Heir(s).Some?
    ensures MakeTop(s, Heir(s).value) == s
  {
    hide Remove, Without;
    var h := Heir(s).value;
    HeirIsGood(s, w);
    HeirStands(s);
    assert Good(s, h);
    if s.menu != [] {
      LastStays(s.menu, h);
    } else if s.mid != [] {
      LastStays(s.mid, h);
    }
  }

  /** Dropping the focus hands it to the heir and does nothing else. */
  lemma DropFocusIs(s: State, w: Wid)
    requires AllBut(s, w)
    ensures DropFocus(s, w) == s.(focused := if s.focused == Some(w) then Heir(s) else s.focused)
  {
    hide AllBut, MakeTop;
    if s.focused == Some(w) && Heir(s).Some? {
      HeirIsGood(s, w);
      HeirStays(s, w);
      RaiseIgnoresFocus(s, Heir(s), Heir(s).value);
    }
  }

  lemma RaiseIgnoresFocus(s: State, t: Option<Wid>, w: Wid)
    ensures MakeTop(s.(focused := t), w) == MakeTop(s, w).(focused := t)
  {
  }

  lemma NotDrawn(s: State, w: Wid)
    requires Of(s, w) == Off(Of(s, w))
    ensures Without(DrawOrder(s), w) == DrawOrder(s)
  {
    hide Without, DrawOrder;
    DrawCount(s, w);
    MemberCount(DrawOrder(s), w);
    WithoutAbsent(DrawOrder(s), w);
  }

  /** The windows off all stacks: those that were off, and w. */
  lemma UnorderAllBut(s: State, w: Wid)
    requires OnOne(s, w) && forall v: Wid :: v != w ==> Good(s, v)
    ensures AllBut(Unorder(s, w), w) && Unorder(s, w).focused == s.focused
    ensures forall v: Wid :: v != w ==> Get(Unorder(s, w), v) == Get(s, v)
  {
    hide Of, Unorder, Placed;
    forall v: Wid ensures v != w ==> Good(Unorder(s, w), v) {
      UnorderMoves(s, w, v);
      assert v != w ==> Good(s, v);
    }
    UnorderMoves(s, w, w);
  }

  /** `window_actually_close`: w is no longer drawn, all others are as before; if w had the focus the
      last menu window gets it, else the last ordinary one, else the bottom. */
  lemma CloseEffect(s: State, w: Wid)
    requires Stacked(s) && w in s.live
    ensures var s' := ActuallyClose(s, w);
            && DrawOrder(s') == Without(DrawOrder(s), w)
            && (forall v: Wid :: v != w ==> Get(s', v) == Get(s, v))
            && s'.focused == (if s.focused == Some(w) then Heir(s') else s.focused)
            && Undisturbed(s, s', w) && Of(s', w) == Off(Of(s', w))
            && s' == s.(live := s.live - {w}, windows := Remove(s.windows, w), released := s.released + [Get(s, w).bufid],
                        win := s.win[w := Get(s, w).(z := TOP)],
                        minimized := if Get(s, w).minimized then Remove(s.minimized, w) else s.minimized,
                        focused := s'.focused, bottom := s'.bottom, top := s'.top,
                        mid := s'.mid, overlay := s'.overlay, menu := s'.menu)
  {
    hide Unorder, DropFocus, Of, Remove, DrawOrder, Without, Undisturbed, Placed, Heir, AllBut;
    var s1 := s.(live := s.live - {w}, windows := Remove(s.windows, w),
                 minimized := if Get(s, w).minimized then Remove(s.minimized, w) else s.minimized);
    ClosingGood(s, s1, w);
    UnorderAllBut(s1, w);
    var s2 := Unorder(s1, w);
    UnorderMoves(s1, w, w);
    DropFocusIs(s2, w);
    UnorderKeepsOrder(s1, w);
    var s' := ActuallyClose(s, w);
    forall v: Wid | v != w ensures Get(s', v) == Get(s, v) { assert Get(s2, v) == Get(s1, v); }
    SamePlaces(s, s1, s2, s', w);
    SameOrder(s, s', w);
    OffStays(s2, s', w);
    NotDrawn(s', w);
  }

  lemma ClosingGood(s: State, s1: State, w: Wid)
    requires Stacked(s) && w in s.live
    requires s1 == s.(live := s.live - {w}, windows := Remove(s.windows, w),
                      minimized := if Get(s, w).minimized then Remove(s.minimized, w) else s.minimized)
    ensures OnOne(s1, w) && forall v: Wid :: v != w ==> Good(s1, v)
  {
    hide Of, Remove;
    assert Good(s, w);
    forall v: Wid ensures v != w ==> Good(s1, v) {
      Unlisted(s, w, v);
      assert Good(s, v);
    }
    Unlisted(s, w, w);
  }

  lemma SamePlaces(s: State, s1: State, s2: State, s3: State, w: Wid)
    requires s1.bottom == s.bottom && s1.top == s.top && s1.mid == s.mid && s1.overlay == s.overlay && s1.menu == s.menu
    requires s3.bottom == s2.bottom && s3.top == s2.top && s3.mid == s2.mid && s3.overlay == s2.overlay && s3.menu == s2.menu
    requires Undisturbed(s1, s2, w)
    ensures Undisturbed(s, s3, w) && Heir(s3) == Heir(s2)
  {
    hide Without, Slot;
  }

  lemma OffStays(s2: State, s3: State, w: Wid)
    requires s3.bottom == s2.bottom && s3.top == s2.top && s3.mid == s2.mid && s3.overlay == s2.overlay && s3.menu == s2.menu
    requires AllBut(s2, w)
    ensures Of(s3, w) == Off(Of(s3, w))
  {
    hide Count, Good;
  }

  /** `window_finish_minimize`: the same picture, but w is on the minimised list. */
  lemma MinimizeEffect(s: State, w: Wid)
    requires Stacked(s) && w in s.live && !Get(s, w).minimized
    ensures var s' := FinishMinimize(s, w);
            && DrawOrder(s') == Without(DrawOrder(s), w)
            && s'.minimized == s.minimized + [w] && Get(s', w).minimized
            && (forall v: Wid :: v != w ==> Get(s', v) == Get(s, v))
            && s'.focused == (if s.focused == Some(w) then Heir(s') else s.focused)
            && Undisturbed(s, s', w) && Of(s', w) == Off(Of(s', w))
            && s' == s.(win := s.win[w := Get(s, w).(z := TOP, minimized := true, anim := Idle)], minimized := s.minimized + [w],
                        focused := s'.focused, bottom := s'.bottom, top := s'.top,
                        mid := s'.mid, overlay := s'.overlay, menu := s'.menu)
  {
    hide Unorder, DropFocus, Of, Remove, DrawOrder, Without, Undisturbed, Placed, Heir, AllBut;
    var s1 := SetWin(s, w, Get(s, w).(minimized := true, anim := Idle));
    MinimizingGood(s, s1, w);
    UnorderAllBut(s1, w);
    var s2 := Unorder(s1, w);
    UnorderMoves(s1, w, w);
    DropFocusIs(s2, w);
    UnorderKeepsOrder(s1, w);
    var s' := FinishMinimize(s, w);
    forall v: Wid | v != w ensures Get(s', v) == Get(s, v) { assert Get(s2, v) == Get(s1, v); }
    SamePlaces(s, s1, s2, s', w);
    SameOrder(s, s', w);
    OffStays(s2, s', w);
    NotDrawn(s', w);
  }

  lemma MinimizingGood(s: State, s1: State, w: Wid)
    requires Stacked(s) && w in s.live && s1 == SetWin(s, w, Get(s, w).(minimized := true, anim := Idle))
    ensures OnOne(s1, w) && forall v: Wid :: v != w ==> Good(s1, v)
  {
    hide Of;
    assert Good(s, w);
    forall v: Wid ensures v != w ==> Good(s1, v) {
      OfWin(s, s1.win, v);
      assert Good(s, v);
    }
    OfWin(s, s1.win, w);
  }

  // ----- restacking -----

  /** `reorder_window` to a list: w is the last of the new stack, the others keep their order. */
  lemma StackEffect(s: State, w: Wid, z: int)
    requires Owner(z) != Single
    ensures var s' := Reorder(s, w, z);
            Get(s', w).z == z && Uppermost(s', w) && Undisturbed(s, s', w)
  {
    hide Unorder, Without;
    UnorderKeepsOrder(s, w);
    WithoutAppended(List(Unorder(s, w), Owner(z)), w);
  }

  lemma {:induction false} WithoutBoth(xs: seq<Wid>, u: Wid, w: Wid)
    ensures Without(Without(xs, u), w) == Without(Without(xs, w), u)
  {
    if xs != [] {
      var a, b := Without(xs[1..], u), Without(xs[1..], w);
      WithoutBoth(xs[1..], u, w);
      assert ([xs[0]] + a)[1..] == a && ([xs[0]] + b)[1..] == b && [] + a == a && [] + b == b;
    }
  }

  lemma SlotCases(s: State, w: Wid)
    ensures s.bottom.None? ==> Without(Slot(s.bottom), w) == []
    ensures s.top.None? ==> Without(Slot(s.top), w) == []
    ensures s.bottom == Some(w) ==> Without(Slot(s.bottom), w) == []
    ensures s.top == Some(w) ==> Without(Slot(s.top), w) == []
    ensures forall u: Wid :: u != w && s.bottom == Some(u) ==> Without(Slot(s.bottom), w) == [u]
    ensures forall u: Wid :: u != w && s.top == Some(u) ==> Without(Slot(s.top), w) == [u]
  {
    forall u: Wid ensures Without([u], w) == if u == w then [] else [u] { assert [u][1..] == []; }
  }

  /** Unless it is w, the holder of a slot is still there when w is lifted off its stack. */
  lemma HeldAfter(s: State, s2: State, w: Wid, z: int)
    requires Undisturbed(s, s2, w) && Owner(z) == Single && s2.bottom != Some(w) && s2.top != Some(w)
    ensures Held(s2, z) == if Held(s, z) == Some(w) then None else Held(s, z)
  {
    hide Without, Slot;
    SlotCases(s, w);
    SlotCases(s2, w);
  }

  /** w takes a slot that is free. */
  lemma TakeFree(s: State, w: Wid, z: int)
    requires Owner(z) == Single && Held(s, z).None?
    ensures var s' := if z == TOP then s.(top := Some(w)) else s.(bottom := Some(w));
            Undisturbed(s, s', w)
  {
    hide Without, Slot;
    var s' := if z == TOP then s.(top := Some(w)) else s.(bottom := Some(w));
    SlotCases(s, w);
    SlotCases(s', w);
  }

  /** The lifted state, as far as the slots and the picture go. */
  lemma LiftedOrder(s: State, w: Wid, z: int)
    requires Stacked(s) && w in s.live && !Get(s, w).minimized && Owner(z) == Single
    ensures var s2 := Lifted(s, w, z);
            && Undisturbed(s, s2, w) && ReadyFor(s, s2, w, z)
            && Held(s2, z) == if Held(s, z) == Some(w) then None else Held(s, z)
  {
    hide Of, Lifted, Undisturbed;
    assert Good(s, w);
    LiftedUndisturbed(s, w, z);
    forall v: Wid ensures Of(Lifted(s, w, z), v) == if v == w then Off(Of(s, w)) else Of(s, v) { LiftedMoves(s, w, z, v); }
    LiftedMoves(s, w, z, w);
    forall v: Wid ensures v != w ==> Good(Lifted(s, w, z), v) { assert Good(s, v); }
    SlotsOf(Lifted(s, w, z), w);
    HeldAfter(s, Lifted(s, w, z), w, z);
  }

  lemma LiftedUndisturbed(s: State, w: Wid, z: int)
    ensures Undisturbed(s, Lifted(s, w, z), w)
  {
    hide Unorder, Without;
    UnorderKeepsOrder(s, w);
  }

  /** `reorder_window` to an end slot that is free, or that w held itself. */
  lemma FreeSlotEffect(s: State, w: Wid, z: int)
    requires Stacked(s) && w in s.live && !Get(s, w).minimized && Owner(z) == Single
    requires Held(s, z).None? || Held(s, z) == Some(w)
    ensures var s' := Reorder(s, w, z);
            Get(s', w).z == z && Uppermost(s', w) && Without(DrawOrder(s'), w) == Without(DrawOrder(s), w)
  {
    hide Of, Lifted, Undisturbed, Unorder, Stacked, DrawOrder, Without, Good;
    var s2 := Lifted(s, w, z);
    ReorderIs(s, w, z);
    LiftedOrder(s, w, z);
    TakeFree(s2, w, z);
    SameOrder(s, s2, w);
    SameOrder(s2, Reorder(s, w, z), w);
  }

  /** `reorder_window` to an end slot that u held: w takes it and u is drawn no more. */
  lemma SlotEffect(s: State, w: Wid, z: int, u: Wid)
    requires Stacked(s) && w in s.live && !Get(s, w).minimized && Owner(z) == Single
    requires Held(s, z) == Some(u) && u != w
    ensures var s' := Reorder(s, w, z);
            && Get(s', w).z == z && Uppermost(s', w)
            && Get(s', u).z == TOP && Without(DrawOrder(s'), u) == DrawOrder(s')
            && Without(Without(DrawOrder(s'), w), u) == Without(Without(DrawOrder(s), w), u)
  {
    hide Of, Lifted, Undisturbed, Unorder, Stacked, DrawOrder, Without, Good;
    var s2 := Lifted(s, w, z);
    ReorderIs(s, w, z);
    LiftedOrder(s, w, z);
    var s3, s' := Unorder(s2, u), Reorder(s, w, z);
    Evicted(s, s2, w, z, u);
    SameOrder(s, s2, w);
    SameOrder(s2, s3, u);
    TakeFree(s3, w, z);
    SameOrder(s3, s', w);
    WithoutBoth(DrawOrder(s3), u, w);
    WithoutBoth(DrawOrder(s2), u, w);
    NotDrawn(s', u);
  }

  lemma Evicted(s: State, s2: State, w: Wid, z: int, u: Wid)
    requires ReadyFor(s, s2, w, z) && Held(s2, z) == Some(u) && u != w
    ensures var s3 := Unorder(s2, u);
            && Undisturbed(s2, s3, u) && Held(s3, z).None?
            && Get(s3, u).z == TOP && Get(s3, w).z == z
            && Of(TakeSlot(s2, w, z), u) == Off(Of(TakeSlot(s2, w, z), u))
  {
    hide Unorder, Undisturbed, Placed, Of;
    UnorderKeepsOrder(s2, u);
    SlotsOf(s2, u);
    EvictMoves(s2, u, u);
    SlotTaken(s2, w, z, u);
    var s3 := Unorder(s2, u);
    SlotsOf(s3, u);
    SlotEmptied(s2, s3, z, u);
  }

  lemma SlotEmptied(s2: State, s3: State, z: int, u: Wid)
    requires Undisturbed(s2, s3, u) && Owner(z) == Single && Held(s2, z) == Some(u) && s3.bottom != Some(u) && s3.top != Some(u)
    ensures Held(s3, z).None?
  {
    hide Undisturbed;
    HeldAfter(s2, s3, u, z);
  }
}
