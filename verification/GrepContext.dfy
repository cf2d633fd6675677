/**
  grep's context printing (-A, -B, -C) for one non-binary file.  The printer sees one
  line at a time and keeps a ring of recent lines; `Output` is the same thing defined
  on the whole file.
 */
module GrepContext {

  /** One entry of the output: a separator, or line `i` of the file, `hit` when it is
      selected and not just context. */
  datatype Entry = Sep | Row(i: nat, hit: bool)

  // ----- the output, defined on the whole file -----

  /** Some selected line of `sel` is at most `after` lines above or `before` lines below. */
  ghost predicate Shown(sel: seq<bool>, before: nat, after: nat, i: int) {
    exists m :: 0 <= m < |sel| && sel[m] && m - before <= i <= m + after
  }

  /** Something above line `i` is shown, but not the line directly above it. */
  ghost predicate Gap(sel: seq<bool>, before: nat, after: nat, i: nat) {
    i > 0 && !Shown(sel, before, after, i - 1) && exists x: nat :: x < i && Shown(sel, before, after, x)
  }

  /** The first `n` lines of the file as they are put out: the shown lines once each and in
      order, with a separator in front of every one that follows a gap. */
  ghost function Output(sel: seq<bool>, before: nat, after: nat, n: nat): seq<Entry>
    requires n <= |sel|
  {
    if n == 0 then []
    else
      Output(sel, before, after, n - 1) +
      if !Shown(sel, before, after, n - 1) then []
      else (if before + after > 0 && Gap(sel, before, after, n - 1) then [Sep] else []) + [Row(n - 1, sel[n - 1])]
  }

  lemma OutputNone(sel: seq<bool>, before: nat, after: nat)
    ensures Output(sel, before, after, 0) == []
  {
  }

  lemma OutputGrows(sel: seq<bool>, before: nat, after: nat, n: nat, e: Entry)
    requires 0 < n <= |sel| && e != Sep
    ensures multiset(Output(sel, before, after, n))[e] ==
            multiset(Output(sel, before, after, n - 1))[e] +
            if Shown(sel, before, after, n - 1) && e == Row(n - 1, sel[n - 1]) then 1 else 0
  {
    hide Shown, Gap;
    var o, r := Output(sel, before, after, n - 1), Row(n - 1, sel[n - 1]);
    assert o + [] == o && o + ([] + [r]) == o + [r];
  }

  /** Every line of the file is put out once if it is shown, and else not at all. */
  lemma {:induction false} OutputExact(sel: seq<bool>, before: nat, after: nat, n: nat, i: nat, hit: bool)
    requires n <= |sel|
    ensures multiset(Output(sel, before, after, n))[Row(i, hit)] ==
            if i < n && hit == sel[i] && Shown(sel, before, after, i) then 1 else 0
    decreases n
  {
    hide Shown, Gap, Output;
    if n == 0 {
      OutputNone(sel, before, after);
    } else {
      OutputExact(sel, before, after, n - 1, i, hit);
      OutputGrows(sel, before, after, n, Row(i, hit));
    }
  }

  ghost function Rows(sel: seq<bool>, lo: nat, hi: nat): seq<Entry>
    requires hi <= |sel|
  {
    if hi <= lo then [] else Rows(sel, lo, hi - 1) + [Row(hi - 1, sel[hi - 1])]
  }

  // ----- how one more line changes the output -----

  /** The last selected line, or -1. */
  ghost function Last(sel: seq<bool>): (m: int)
    ensures -1 <= m < |sel| && (m >= 0 ==> sel[m])
    ensures forall x :: m < x < |sel| ==> !sel[x]
  {
    if sel == [] then -1 else if sel[|sel| - 1] then |sel| - 1 else Last(sel[..|sel| - 1])
  }

  /** One past the last shown line. */
  ghost function Next(sel: seq<bool>, after: nat): (n: nat)
    ensures n <= |sel|
  {
    var m := Last(sel);
    if m < 0 then 0 else if m + after + 1 < |sel| then m + after + 1 else |sel|
  }

  /** Lines still owed below the last selected one. */
  ghost function Owed(sel: seq<bool>, after: nat): nat {
    var m := Last(sel);
    if m >= 0 && m + after + 1 > |sel| then m + after + 1 - |sel| else 0
  }

  lemma NothingShownFrom(sel: seq<bool>, before: nat, after: nat, i: nat)
    requires Next(sel, after) <= i < |sel|
    ensures !Shown(sel, before, after, i)
  {
  }

  lemma NextIsShown(sel: seq<bool>, before: nat, after: nat)
    ensures Last(sel) < 0 ==> Next(sel, after) == 0 && forall i: nat :: !Shown(sel, before, after, i)
    ensures Last(sel) >= 0 ==> Next(sel, after) > 0 && Shown(sel, before, after, Next(sel, after) - 1)
  {
    var m := Last(sel);
    if m >= 0 {
      var i := Next(sel, after) - 1;
      assert sel[m] && m - before <= i <= m + after;
    }
  }

  /** The output stops at the last shown line. */
  lemma {:induction false} OutputStops(sel: seq<bool>, before: nat, after: nat, n: nat)
    requires Next(sel, after) <= n <= |sel|
    ensures Output(sel, before, after, n) == Output(sel, before, after, Next(sel, after))
    decreases n
  {
    if n > Next(sel, after) {
      NothingShownFrom(sel, before, after, n - 1);
      OutputStops(sel, before, after, n - 1);
    }
  }

  /** A longer file has the same first `n` lines of output where the same lines are shown. */
  lemma {:induction false} OutputSame(sel: seq<bool>, sel': seq<bool>, before: nat, after: nat, n: nat)
    requires n <= |sel| && sel <= sel'
    requires forall i: nat :: i < n ==> Shown(sel, before, after, i) == Shown(sel', before, after, i)
    ensures Output(sel, before, after, n) == Output(sel', before, after, n)
    decreases n
  {
    hide Shown, Gap;
    if n > 0 {
      OutputSame(sel, sel', before, after, n - 1);
      GapSame(sel, sel', before, after, n - 1);
      assert sel'[n - 1] == sel[n - 1];
    }
  }

  lemma GapSame(sel: seq<bool>, sel': seq<bool>, before: nat, after: nat, i: nat)
    requires forall x: nat :: x <= i ==> Shown(sel, before, after, x) == Shown(sel', before, after, x)
    ensures Gap(sel, before, after, i) == Gap(sel', before, after, i)
  {
    hide Shown;
  }

  /** Consecutive shown lines are put out without separators. */
  lemma {:induction false} OutputRows(sel: seq<bool>, before: nat, after: nat, lo: nat, hi: nat)
    requires lo <= hi <= |sel|
    requires forall i: nat :: lo <= i < hi ==> Shown(sel, before, after, i) && !Gap(sel, before, after, i)
    ensures Output(sel, before, after, hi) == Output(sel, before, after, lo) + Rows(sel, lo, hi)
    decreases hi
  {
    hide Shown, Gap;
    if lo < hi { OutputRows(sel, before, after, lo, hi - 1); }
  }

  lemma LastStep(sel: seq<bool>, s: bool)
    ensures Last(sel + [s]) == if s then |sel| else Last(sel)
  {
    assert (sel + [s])[..|sel|] == sel;
  }

  /** A line that is not selected is put out exactly when it is still owed. */
  lemma StepUnselected(sel: seq<bool>, before: nat, after: nat)
    ensures var n := |sel|;
            Output(sel + [false], before, after, n + 1) ==
            Output(sel, before, after, n) + if Owed(sel, after) > 0 then [Row(n, false)] else []
  {
    var sel', n := sel + [false], |sel|;
    forall i: nat ensures Shown(sel, before, after, i) == Shown(sel', before, after, i) {
      ShownStep(sel, false, before, after, i);
    }
    OutputSame(sel, sel', before, after, n);
    ShownIffOwed(sel, before, after);
    if Owed(sel, after) > 0 { NextIsShown(sel, before, after); }
  }

  lemma ShownStep(sel: seq<bool>, s: bool, before: nat, after: nat, i: int)
    ensures Shown(sel + [s], before, after, i) <==>
            Shown(sel, before, after, i) || (s && |sel| - before <= i <= |sel| + after)
  {
    var sel' := sel + [s];
    if Shown(sel, before, after, i) {
      var m :| 0 <= m < |sel| && sel[m] && m - before <= i <= m + after;
      assert sel'[m];
    }
    if s && |sel| - before <= i <= |sel| + after {
      assert sel'[|sel|];
    }
  }

  lemma ShownIffOwed(sel: seq<bool>, before: nat, after: nat)
    ensures Shown(sel, before, after, |sel|) <==> Owed(sel, after) > 0
    ensures Owed(sel, after) > 0 ==> Next(sel, after) == |sel|
  {
    var m := Last(sel);
    if m >= 0 && m + after >= |sel| {
      assert sel[m] && m - before <= |sel| <= m + after;
    }
  }

  /** The first line put out together with a selected line `n`. */
  ghost function From(sel: seq<bool>, before: nat, after: nat): (lo: nat)
    ensures Next(sel, after) <= lo <= |sel|
  {
    if |sel| - before > Next(sel, after) then |sel| - before else Next(sel, after)
  }

  /** A selected line is put out together with the lines in front of it that are within reach
      and not yet out, and behind a separator when some were dropped. */
  lemma StepSelected(sel: seq<bool>, before: nat, after: nat)
    ensures var (sel', n, lo) := (sel + [true], |sel|, From(sel, before, after));
            var gap := before + after > 0 && lo > Next(sel, after) && Last(sel) >= 0;
            Output(sel', before, after, n + 1) ==
            Output(sel, before, after, n) + (if gap then [Sep] else []) + Rows(sel', lo, n + 1)
  {
    hide Shown, Output;
    var sel', n, lo := sel + [true], |sel|, From(sel, before, after);
    forall i: nat | i < lo ensures Shown(sel, before, after, i) == Shown(sel', before, after, i) {
      ShownBelow(sel, before, after, i);
    }
    OutputSame(sel, sel', before, after, lo);
    OutputStops(sel, before, after, lo);
    OutputStops(sel, before, after, n);
    forall i: nat | lo <= i <= n ensures Shown(sel', before, after, i) {
      ShownStep(sel, true, before, after, i);
    }
    GapAt(sel, before, after, lo);
    OutputFrom(sel', before, after, lo, n + 1);
  }

  lemma ShownBelow(sel: seq<bool>, before: nat, after: nat, i: nat)
    requires i < From(sel, before, after)
    ensures Shown(sel, before, after, i) == Shown(sel + [true], before, after, i)
  {
    ShownStep(sel, true, before, after, i);
    if i < Next(sel, after) && |sel| - before <= i {
      var m := Last(sel);
      assert sel[m] && m - before <= i <= m + after;
    }
  }

  /** Whether a separator is due in front of the block. */
  lemma GapAt(sel: seq<bool>, before: nat, after: nat, lo: nat)
    requires lo == From(sel, before, after)
    ensures Gap(sel + [true], before, after, lo) <==> lo > Next(sel, after) && Last(sel) >= 0
  {
    hide Shown;
    NextIsShown(sel, before, after);
    if lo > Next(sel, after) { NothingShownFrom(sel, before, after, lo - 1); }
    forall i: nat | i < lo ensures Shown(sel, before, after, i) == Shown(sel + [true], before, after, i) {
      ShownBelow(sel, before, after, i);
    }
  }

  /** A block of shown lines: one separator at most, in front. */
  lemma OutputFrom(sel: seq<bool>, before: nat, after: nat, lo: nat, hi: nat)
    requires lo < hi <= |sel|
    requires forall i: nat :: lo <= i < hi ==> Shown(sel, before, after, i)
    ensures var gap := before + after > 0 && Gap(sel, before, after, lo);
            Output(sel, before, after, hi) ==
            Output(sel, before, after, lo) + (if gap then [Sep] else []) + Rows(sel, lo, hi)
  {
    hide Shown;
    forall i: nat | lo < i < hi ensures !Gap(sel, before, after, i) {
      assert Shown(sel, before, after, i - 1);
    }
    OutputRows(sel, before, after, lo + 1, hi);
    RowsFrom(sel, lo, hi);
  }

  lemma {:induction false} RowsFrom(sel: seq<bool>, lo: nat, hi: nat)
    requires lo < hi <= |sel|
    ensures Rows(sel, lo, hi) == [Row(lo, sel[lo])] + Rows(sel, lo + 1, hi)
    decreases hi
  {
    if lo + 1 < hi { RowsFrom(sel, lo, hi - 1); }
  }

  // ----- the printer -----

  /** Lines lo, lo + 1, ..., hi - 1. */
  ghost function Span(lo: nat, hi: nat): seq<nat>
    requires lo <= hi
  {
    seq(hi - lo, x requires 0 <= x => lo + x)
  }

  /** Context lines of the ring as `dump_context` prints them. */
  ghost function Contexts(ring: seq<nat>): seq<Entry> {
    if ring == [] then [] else [Row(ring[0], false)] + Contexts(ring[1..])
  }

  /** The lines between the last shown line and a selected one are plain context. */
  lemma {:induction false} RowsAreContext(sel: seq<bool>, lo: nat, n: nat)
    requires lo <= n <= |sel| && forall i :: lo <= i < n ==> !sel[i]
    ensures Rows(sel, lo, n) == Contexts(Span(lo, n))
    decreases n - lo
  {
    if lo < n {
      RowsFrom(sel, lo, n);
      RowsAreContext(sel, lo + 1, n);
      assert Span(lo, n)[1..] == Span(lo + 1, n);
    }
  }

  /** The oldest line in the ring: nothing at or above the last shown line, and at most
      `before` lines besides the newest. */
  ghost function Oldest(sel: seq<bool>, before: nat, after: nat): (lo: nat)
    ensures lo <= |sel|
  {
    if |sel| - (before + 1) > Next(sel, after) then |sel| - (before + 1) else Next(sel, after)
  }

  ghost function Ring(sel: seq<bool>, before: nat, after: nat): seq<nat> {
    if before == 0 then [] else Span(Oldest(sel, before, after), |sel|)
  }

  /** A line was dropped since the last shown one. */
  ghost predicate Dropped(sel: seq<bool>, before: nat, after: nat) {
    if before > 0 then |sel| - (before + 1) > Next(sel, after) else after > 0 && |sel| > Next(sel, after)
  }

  ghost function Pushed(ring: seq<nat>, before: nat, n: nat): seq<nat> {
    if |ring| == before + 1 then ring[1..] + [n] else ring + [n]
  }

  /** With the current line in it, the ring holds what a selected line would put out. */
  lemma RingPushed(sel: seq<bool>, before: nat, after: nat)
    requires before > 0
    ensures var (r, n) := (Ring(sel, before, after), |sel|);
            && Pushed(r, before, n) == Span(From(sel, before, after), n + 1)
            && (Dropped(sel, before, after) || |r| == before + 1 <==> From(sel, before, after) > Next(sel, after))
  {
  }

  /** How the bookkeeping changes with one more line: everything starts afresh behind a
      line that is put out... */
  lemma Afresh(sel: seq<bool>, s: bool, before: nat, after: nat)
    requires s || Owed(sel, after) > 0
    ensures var (sel', n) := (sel + [s], |sel|);
            && Last(sel') == (if s then n else Last(sel))
            && Owed(sel', after) == (if s then after else Owed(sel, after) - 1)
            && Ring(sel', before, after) == [] && !Dropped(sel', before, after)
  {
    hide Span, Last;
    LastStep(sel, s);
    SpanEmpty(|sel| + 1);
  }

  /** ...and otherwise the line joins the ring. */
  lemma Joins(sel: seq<bool>, before: nat, after: nat)
    requires Owed(sel, after) == 0
    ensures var (sel', n, lo) := (sel + [false], |sel|, From(sel, before, after));
            && Last(sel') == Last(sel) && Owed(sel', after) == 0
            && Ring(sel', before, after) == (if before > 0 then Span(lo, n + 1) else [])
            && Dropped(sel', before, after) == (if before > 0 then lo > Next(sel, after) else after > 0)
  {
    hide Span, Last, Next, Owed;
    NextStays(sel, after);
    assert |sel + [false]| == |sel| + 1;
  }

  lemma NextStays(sel: seq<bool>, after: nat)
    requires Owed(sel, after) == 0
    ensures Last(sel + [false]) == Last(sel) && Owed(sel + [false], after) == 0
    ensures Next(sel + [false], after) == Next(sel, after)
  {
    hide Last;
    LastStep(sel, false);
  }

  lemma NoContext(sel: seq<bool>, before: nat, after: nat)
    ensures after == 0 ==> Owed(sel, after) == 0
    ensures before == 0 ==> Ring(sel, before, after) == []
    ensures before == 0 ==> Dropped(sel, before, after) == (after > 0 && From(sel, before, after) > Next(sel, after))
  {
    hide Last;
  }

  lemma SpanEmpty(n: nat)
    ensures Span(n, n) == []
  {
  }

  /** What a selected line puts out, in terms of the ring. */
  lemma SelectedOutput(sel: seq<bool>, before: nat, after: nat)
    ensures var (n, lo) := (|sel|, From(sel, before, after));
            var gap := before + after > 0 && lo > Next(sel, after) && Last(sel) >= 0;
            && |Span(lo, n + 1)| == n + 1 - lo && Span(lo, n + 1)[..n - lo] == Span(lo, n)
            && (before == 0 ==> Contexts(Span(lo, n)) == [])
            && Output(sel + [true], before, after, n + 1) ==
               Output(sel, before, after, n) + (if gap then [Sep] else []) + Contexts(Span(lo, n)) + [Row(n, true)]
  {
    hide Output;
    var sel', n, lo := sel + [true], |sel|, From(sel, before, after);
    StepSelected(sel, before, after);
    RowsAreContext(sel', lo, n);
    assert Rows(sel', lo, n + 1) == Contexts(Span(lo, n)) + [Row(n, true)];
  }

  class Printer {
    const before: nat               // print_before
    const after: nat                // print_after
    var ring: seq<nat>              // context lines, oldest first (context_tail to context_head)
    var contextLen: nat
    var overflowed: bool            // context_overflowed
    var owed: nat                   // after
    var count: nat
    var ln: nat
    var out: seq<Entry>
    ghost var sel: seq<bool>        // which of the lines seen were selected

    /** Between two lines: all that the source's variables mean. */
    ghost predicate Valid()
      reads this
    {
      && ln == |sel|
      && out == Output(sel, before, after, ln)
      && (count > 0 <==> Last(sel) >= 0)
      && owed == Owed(sel, after)
      && ring == Ring(sel, before, after)
      && contextLen == |ring|
      && overflowed == Dropped(sel, before, after)
    }

    constructor (before: nat, after: nat)
      ensures Valid() && sel == [] && this.before == before && this.after == after
    {
      this.before, this.after := before, after;
      ring, contextLen, overflowed, owed, count, ln, out, sel := [], 0, false, 0, 0, 0, [], [];
    }

    /** `dump_context`: print all of the ring but its newest line, and clear it. */
    method DumpContext(printing: bool)
      modifies this`ring, this`contextLen, this`overflowed, this`out
      ensures ring == [] && contextLen == 0 && !overflowed
      ensures out == old(out) + if printing && old(ring) != [] then Contexts(old(ring)[..|old(ring)| - 1]) else []
    {
      ghost var was := out;
      var x := 0;
      while x < |ring|
        invariant x <= |ring| && ring == old(ring)
        invariant printing && x < |ring| ==> out + Contexts(ring[x..|ring| - 1]) == was + Contexts(ring[..|ring| - 1])
        invariant printing && x == |ring| && x > 0 ==> out == was + Contexts(ring[..|ring| - 1])
        invariant !printing || ring == [] ==> out == was
      {
        if printing && x < |ring| - 1 {
          assert ring[x..|ring| - 1][1..] == ring[x + 1..|ring| - 1];
          out := out + [Row(ring[x], false)];
        }
        x := x + 1;
      }
      ring, contextLen, overflowed := [], 0, false;
    }

    /** The line joins the ring; the oldest one leaves when the ring is full. */
    method PushContext()
      requires contextLen == |ring| && before > 0
      modifies this`ring, this`contextLen, this`overflowed
      ensures contextLen == |ring|
      ensures ring == Pushed(old(ring), before, ln)
      ensures overflowed == (old(overflowed) || |old(ring)| == before + 1)
    {
      ring := ring + [ln];
      if contextLen == 0 {
        contextLen := 1;
      } else if contextLen == before + 1 {
        ring := ring[1..];
        overflowed := true;
      } else {
        contextLen := contextLen + 1;
      }
    }

    /** With the current line in the ring, and before it is known to be selected or not. */
    ghost predicate Pending()
      reads this
    {
      var lo := From(sel, before, after);
      && ln == |sel|
      && out == Output(sel, before, after, ln)
      && (count > 0 <==> Last(sel) >= 0)
      && owed == Owed(sel, after)
      && ring == (if before == 0 then [] else Span(lo, ln + 1))
      && contextLen == |ring|
      && overflowed == (before + after > 0 && lo > Next(sel, after))
    }

    method PushLine()
      requires Valid()
      modifies this`ring, this`contextLen, this`overflowed
      ensures Pending()
    {
      hide Output, Last, Next, Owed, Ring, Dropped, From, Span, Pushed;
      NoContext(sel, before, after);
      if before > 0 {
        RingPushed(sel, before, after);
        PushContext();
      }
    }

    /** In front of a selected line: the separator, if a gap precedes, and the lines above it. */
    method Announce()
      requires Pending()
      modifies this`ring, this`contextLen, this`overflowed, this`out
      ensures ring == [] && contextLen == 0 && overflowed == (before == 0 && old(overflowed))
      ensures out == old(out) + (if old(overflowed) && count > 0 then [Sep] else []) +
                     Contexts(Span(From(sel, before, after), ln))
    {
      hide Output, Last, Next, Owed, From, Span, Contexts;
      NoContext(sel, before, after);
      SelectedOutput(sel, before, after);
      ghost var lo := From(sel, before, after);
      if overflowed && count > 0 { out := out + [Sep]; }
      if before > 0 {
        assert ring[..|ring| - 1] == Span(lo, ln);
        DumpContext(true);
      } else {
        assert Contexts(Span(lo, ln)) == [];
      }
    }

    /** A selected line.  The two branches of the source do the same in a different order. */
    method PutSelected(inverted: bool)
      requires Pending()
      modifies this
      ensures Valid() && sel == old(sel) + [true]
    {
      hide Output, Last, Next, Owed, Ring, Dropped, From, Span, Contexts;
      NoContext(sel, before, after);
      Afresh(sel, true, before, after);
      SelectedOutput(sel, before, after);
      Announce();
      if inverted {
        if after > 0 { owed := after; }
        if before == 0 { overflowed := false; }
        count := count + 1;
        out := out + [Row(ln, true)];
      } else {
        count := count + 1;
        out := out + [Row(ln, true)];
        if after > 0 {
          owed := after;
          if before == 0 { overflowed := false; }
        }
      }
      ln := ln + 1;
      sel := sel + [true];
    }

    /** A line that is not selected: still owed, or kept for later. */
    method PutOther()
      requires Pending()
      modifies this
      ensures Valid() && sel == old(sel) + [false]
    {
      hide Output, Last, Next, Owed, Ring, Dropped, From, Span, Contexts;
      NoContext(sel, before, after);
      if owed > 0 { Afresh(sel, false, before, after); } else { Joins(sel, before, after); }
      StepUnselected(sel, before, after);
      if after > 0 {
        if owed > 0 {
          DumpContext(false);
          out := out + [Row(ln, false)];
          owed := owed - 1;
        } else if before == 0 {
          overflowed := true;
        }
      }
      ln := ln + 1;
      sel := sel + [false];
    }

    /** The whole file: what was streamed is the output defined on the file. */
    method Run(file: seq<bool>, inverted: bool)
      requires Valid() && sel == []
      modifies this
      ensures Valid() && sel == file && out == Output(file, before, after, |file|)
    {
      hide Output, Last, Next, Owed, Ring, Dropped, From, Span;
      while ln < |file|
        invariant Valid() && ln <= |file| && sel == file[..ln]
        decreases |file| - ln
      {
        var selected := file[ln];
        PushLine();
        if selected { PutSelected(inverted); } else { PutOther(); }
      }
      assert file[..ln] == file;
    }
  }
}
