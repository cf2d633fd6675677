/**
  Groups in grep's patterns.  A group is entered once and only its preferred match is kept, so
  a match can be missed.  The conditions here are on the text of a pattern: where they hold,
  nothing is missed.
 */
module GrepGroups {
  import opened Common
  import opened GrepChars
  import opened GrepLang
  import opened GrepMatch

  // ----- walking through a group -----

  /** The position behind the `)` that closes the group one is in.  Behind an optional atom a
      `^` is read as a character: as an anchor it could not match there. */
  function Out(p: Pattern, i: nat, anchor: bool): (o: Option<nat>)
    requires i <= |p|
    ensures o.Some? ==> i < o.value <= |p|
    decreases |p| - i
  {
    match ItemAt(p, i, anchor, true)
    case Finish => None
    case Broken => None
    case Lone => None
    case Leave => Some(i + 1)
    case Start => Out(p, i + 1, false)
    case Stop => Out(p, i + 1, false)
    case Enter =>
      var inner := Out(p, i + 1, true);
      if inner.None? then None else Out(p, inner.value, false)
    case Item(_, q, n) => Out(p, n, Restarts(q))
  }

  /** Some quantifier stands in front of that `)`. */
  predicate Quantified(p: Pattern, i: nat, anchor: bool)
    requires i <= |p|
    decreases |p| - i
  {
    match ItemAt(p, i, anchor, true)
    case Finish => false
    case Broken => false
    case Lone => false
    case Leave => false
    case Start => Quantified(p, i + 1, false)
    case Stop => Quantified(p, i + 1, false)
    case Enter => Quantified(p, i + 1, true) || (Out(p, i + 1, true).Some? && Quantified(p, Out(p, i + 1, true).value, false))
    case Item(_, q, n) => q != Once || Quantified(p, n, false)
  }

  /** From `o` on there are only parentheses that close the `d` open groups. */
  predicate OnlyCloses(p: Pattern, o: nat, d: nat) {
    o <= |p| <= o + d && forall x :: o <= x < |p| ==> p[x] == ')'
  }

  /** Behind every group that holds a quantifier, only closing parentheses follow. */
  predicate Safe(p: Pattern, i: nat, anchor: bool, d: nat)
    requires i <= |p|
    decreases |p| - i
  {
    match ItemAt(p, i, anchor, d > 0)
    case Finish => true
    case Broken => true
    case Lone => true
    case Leave => true
    case Start => Safe(p, i + 1, false, d)
    case Stop => Safe(p, i + 1, false, d)
    case Enter =>
      var o := Out(p, i + 1, true);
      o.Some? ==>
        && Safe(p, i + 1, true, d + 1) && Safe(p, o.value, false, d)
        && (Quantified(p, i + 1, true) ==> OnlyCloses(p, o.value, d))
    case Item(_, q, n) => Safe(p, n, Restarts(q), d)
  }

  // ----- a quantified atom -----

  /** The stretches that the atom `x` of the pattern may take: behind an optional atom a `^` is
      an anchor when the atom is there, and then cannot match, so the atom is never there. */
  ghost predicate ItemTakes(t: Text, p: Pattern, x: Item, k: nat, m: nat)
    requires x.Item?
  {
    if x.q == Optional && At(p, x.next) == '^' then m == k else Takes(t, x.a, x.q, k, m)
  }

  lemma ParseIs(p: Pattern, i: nat, anchor: bool, d: nat)
    requires i <= |p| && ItemAt(p, i, anchor, d > 0).Item?
    ensures var x := ItemAt(p, i, anchor, d > 0);
            var r := Parse(p, x.next, Restarts(x.q), d);
            if x.q == Optional && At(p, x.next) == '^'
            then Parse(p, i, anchor, d) == Opt(x.a, Bol(Parse(p, x.next + 1, false, d)), r)
            else Parse(p, i, anchor, d) == Node(x.a, x.q, r)
  {
    hide AtomAt, QuantAt;
    ParsePlain(p, ItemAt(p, i, anchor, d > 0).next, d);
  }

  /** An anchor behind an optional atom. */
  lemma OptionalCaret(t: Text, a: Atom, s: Re, r: Re, k: nat, g: Hit)
    ensures t.Lang(Opt(a, Bol(s), r), k, g) <==> t.Lang(r, k, g)
    ensures t.All(Opt(a, Bol(s), r), k) == t.All(r, k)
  {
    hide Accepts, Text.Lang, Text.All;
    OptLang(t, a, Bol(s), r, k, g);
    t.LangPlain(Bol(s), k + 1, g);
    t.AllPlain(Bol(s), k + 1);
    t.AllPlain(Opt(a, Bol(s), r), k);
    if k <= |t.line| { t.AllOpt(a, Bol(s), r, k); } else { t.AllPlain(r, k); }
  }

  /** The atom takes some stretch, then the rest of the pattern matches. */
  lemma ItemLang(t: Text, p: Pattern, i: nat, anchor: bool, d: nat, k: nat, g: Hit)
    requires i <= |p| && ItemAt(p, i, anchor, d > 0).Item?
    ensures var x := ItemAt(p, i, anchor, d > 0);
            t.Lang(Parse(p, i, anchor, d), k, g) <==>
            exists m: nat :: ItemTakes(t, p, x, k, m) && t.Lang(Parse(p, x.next, Restarts(x.q), d), m, g)
  {
    hide ItemAt, Parse, Text.Lang, Takes, Text.All;
    var x := ItemAt(p, i, anchor, d > 0);
    var r := Parse(p, x.next, Restarts(x.q), d);
    ParseIs(p, i, anchor, d);
    if x.q == Optional && At(p, x.next) == '^' {
      OptionalCaret(t, x.a, Parse(p, x.next + 1, false, d), r, k, g);
      assert ItemTakes(t, p, x, k, k);
    } else {
      NodeLang(t, x.a, x.q, r, k, g);
    }
  }

  // ----- leaving a group -----

  /** Whatever matches inside a group ends at the `)` of the group; outside, at the end of the
      pattern. */
  lemma {:induction false} Exit(t: Text, p: Pattern, i: nat, anchor: bool, d: nat, k: nat, g: Hit)
    requires i <= |p| && t.Lang(Parse(p, i, anchor, d), k, g)
    ensures d == 0 ==> g.rest == Accept
    ensures d > 0 ==> Out(p, i, anchor).Some? && g.rest == Parse(p, Out(p, i, anchor).value, false, d - 1)
    decreases |p| - i, 1
  {
    hide Text.Lang, AtomAt, QuantAt, ItemTakes;
    t.LangPlain(Parse(p, i, anchor, d), k, g);
    match ItemAt(p, i, anchor, d > 0)
    case Finish =>
    case Leave =>
    case Broken =>
    case Lone =>
    case Start => Exit(t, p, i + 1, false, d, k, g);
    case Stop => Exit(t, p, i + 1, false, d, k, g);
    case Enter => ExitGroup(t, p, i, anchor, d, k, g);
    case Item(a, q, n) =>
      ItemLang(t, p, i, anchor, d, k, g);
      var m: nat :| ItemTakes(t, p, Item(a, q, n), k, m) && t.Lang(Parse(p, n, Restarts(q), d), m, g);
      Exit(t, p, n, Restarts(q), d, m, g);
  }

  lemma {:induction false} ExitGroup(t: Text, p: Pattern, i: nat, anchor: bool, d: nat, k: nat, g: Hit)
    requires i < |p| && t.Lang(Parse(p, i, anchor, d), k, g) && ItemAt(p, i, anchor, d > 0).Enter?
    ensures d == 0 ==> g.rest == Accept
    ensures d > 0 ==> Out(p, i, anchor).Some? && g.rest == Parse(p, Out(p, i, anchor).value, false, d - 1)
    decreases |p| - i, 0
  {
    hide Text.Lang, ItemAt;
    var b := t.GroupSplit(Parse(p, i + 1, true, d + 1), k, g);
    Exit(t, p, i + 1, true, d + 1, k, b);
    Exit(t, p, Out(p, i + 1, true).value, false, d, b.end, g);
  }

  /** Without a quantifier there is one way at most to match a group. */
  lemma {:induction false} Unique(t: Text, p: Pattern, i: nat, anchor: bool, d: nat, k: nat, g: Hit, h: Hit)
    requires i <= |p| && d > 0 && !Quantified(p, i, anchor)
    requires t.Lang(Parse(p, i, anchor, d), k, g) && t.Lang(Parse(p, i, anchor, d), k, h)
    ensures g == h
    decreases |p| - i, 1
  {
    hide Text.Lang, AtomAt, QuantAt, Out;
    t.LangPlain(Parse(p, i, anchor, d), k, g);
    t.LangPlain(Parse(p, i, anchor, d), k, h);
    match ItemAt(p, i, anchor, true)
    case Finish =>
    case Leave =>
    case Broken =>
    case Lone =>
    case Start => Unique(t, p, i + 1, false, d, k, g, h);
    case Stop => Unique(t, p, i + 1, false, d, k, g, h);
    case Enter => UniqueGroup(t, p, i, anchor, d, k, g, h);
    case Item(_, _, n) => Unique(t, p, n, false, d, k + 1, g, h);
  }

  lemma {:induction false} UniqueGroup(t: Text, p: Pattern, i: nat, anchor: bool, d: nat, k: nat, g: Hit, h: Hit)
    requires i < |p| && d > 0 && !Quantified(p, i, anchor) && ItemAt(p, i, anchor, true).Enter?
    requires t.Lang(Parse(p, i, anchor, d), k, g) && t.Lang(Parse(p, i, anchor, d), k, h)
    ensures g == h
    decreases |p| - i, 0
  {
    hide Text.Lang, AtomAt, QuantAt, Out;
    var b := t.GroupSplit(Parse(p, i + 1, true, d + 1), k, g);
    var c := t.GroupSplit(Parse(p, i + 1, true, d + 1), k, h);
    Unique(t, p, i + 1, true, d + 1, k, b, c);
    Exit(t, p, i + 1, true, d + 1, k, b);
    Unique(t, p, Out(p, i + 1, true).value, false, d, b.end, g, h);
  }

  /** Where only closing parentheses follow, the place on the line does not matter. */
  lemma ClosesAnywhere(t: Text, p: Pattern, o: nat, d: nat, k: nat, g: Hit, k': nat)
    requires OnlyCloses(p, o, d) && t.Lang(Parse(p, o, false, d), k, g) && k' <= |t.line|
    ensures t.All(Parse(p, o, false, d), k') != []
  {
    hide AtomAt, QuantAt, Accepts, Size;
    ParsePlain(p, o, d);
    t.AllPlain(Parse(p, o, false, d), k');
  }

  // ----- what is found -----

  lemma ItemFound(t: Text, p: Pattern, i: nat, anchor: bool, d: nat, k: nat, m: nat)
    requires i <= |p| && ItemAt(p, i, anchor, d > 0).Item?
    requires var x := ItemAt(p, i, anchor, d > 0);
             ItemTakes(t, p, x, k, m) && t.All(Parse(p, x.next, Restarts(x.q), d), m) != []
    ensures t.All(Parse(p, i, anchor, d), k) != []
  {
    hide ItemAt, Parse, Text.All, Text.Lang, Takes;
    var x := ItemAt(p, i, anchor, d > 0);
    var r := Parse(p, x.next, Restarts(x.q), d);
    var h := t.All(r, m)[0];
    assert h in t.All(r, m);
    ParseIs(p, i, anchor, d);
    if x.q == Optional && At(p, x.next) == '^' {
      OptionalCaret(t, x.a, Parse(p, x.next + 1, false, d), r, k, h);
    } else {
      NodeTries(t, x.a, x.q, r, k, m, h);
    }
  }

  /** A safe pattern: where the language has a match, the search finds one. */
  lemma {:induction false} Found(t: Text, p: Pattern, i: nat, anchor: bool, d: nat, k: nat, h: Hit)
    requires i <= |p| && Safe(p, i, anchor, d) && t.Lang(Parse(p, i, anchor, d), k, h)
    ensures t.All(Parse(p, i, anchor, d), k) != []
    decreases |p| - i, 1
  {
    hide Accepts, AtomAt, QuantAt, Size, Out, Quantified;
    match ItemAt(p, i, anchor, d > 0)
    case Finish =>
    case Leave =>
    case Broken =>
    case Lone =>
    case Start => Found(t, p, i + 1, false, d, k, h);
    case Stop => Found(t, p, i + 1, false, d, k, h);
    case Enter => FoundGroup(t, p, i, anchor, d, k, h);
    case Item(a, q, n) =>
      ItemLang(t, p, i, anchor, d, k, h);
      var m: nat :| ItemTakes(t, p, Item(a, q, n), k, m) && t.Lang(Parse(p, n, Restarts(q), d), m, h);
      Found(t, p, n, Restarts(q), d, m, h);
      ItemFound(t, p, i, anchor, d, k, m);
  }

  lemma {:induction false} FoundGroup(t: Text, p: Pattern, i: nat, anchor: bool, d: nat, k: nat, h: Hit)
    requires i < |p| && ItemAt(p, i, anchor, d > 0).Enter?
    requires Safe(p, i, anchor, d) && t.Lang(Parse(p, i, anchor, d), k, h)
    ensures t.All(Parse(p, i, anchor, d), k) != []
    decreases |p| - i, 0
  {
    hide Text.All, Text.Lang, ItemAt, Size, Out, Quantified, OnlyCloses;
    var body := Parse(p, i + 1, true, d + 1);
    var g := t.GroupSplit(body, k, h);
    Exit(t, p, i + 1, true, d + 1, k, g);
    Found(t, p, i + 1, true, d + 1, k, g);
    var first := t.All(body, k)[0];
    assert first in t.All(body, k);
    t.Sound(body, k, first);
    Exit(t, p, i + 1, true, d + 1, k, first);
    var o := Out(p, i + 1, true).value;
    if Quantified(p, i + 1, true) {
      ClosesAnywhere(t, p, o, d, g.end, h, first.end);
    } else {
      Unique(t, p, i + 1, true, d + 1, k, g, first);
      Found(t, p, o, false, d, g.end, h);
    }
    t.AllPlain(Group(body), k);
  }

  // ----- nothing is missed -----

  /** No group holds a quantifier. */
  predicate Plain(p: Pattern, i: nat, anchor: bool)
    requires i <= |p|
    decreases |p| - i
  {
    match ItemAt(p, i, anchor, false)
    case Finish => true
    case Broken => true
    case Lone => true
    case Leave => true
    case Start => Plain(p, i + 1, false)
    case Stop => Plain(p, i + 1, false)
    case Enter =>
      var o := Out(p, i + 1, true);
      o.Some? ==> !Quantified(p, i + 1, true) && Plain(p, o.value, false)
    case Item(_, q, n) => Plain(p, n, Restarts(q))
  }

  lemma {:induction false} UnquantifiedSafe(p: Pattern, i: nat, anchor: bool, d: nat)
    requires i <= |p| && d > 0 && !Quantified(p, i, anchor)
    ensures Safe(p, i, anchor, d)
    decreases |p| - i
  {
    hide AtomAt, QuantAt, Out;
    match ItemAt(p, i, anchor, true)
    case Finish =>
    case Leave =>
    case Broken =>
    case Lone =>
    case Start => UnquantifiedSafe(p, i + 1, false, d);
    case Stop => UnquantifiedSafe(p, i + 1, false, d);
    case Enter =>
      if Out(p, i + 1, true).Some? {
        UnquantifiedSafe(p, i + 1, true, d + 1);
        UnquantifiedSafe(p, Out(p, i + 1, true).value, false, d);
      }
    case Item(_, _, n) => UnquantifiedSafe(p, n, false, d);
  }

  lemma {:induction false} PlainSafe(p: Pattern, i: nat, anchor: bool)
    requires i <= |p| && Plain(p, i, anchor)
    ensures Safe(p, i, anchor, 0)
    decreases |p| - i
  {
    hide AtomAt, QuantAt, Out, Quantified;
    match ItemAt(p, i, anchor, false)
    case Finish =>
    case Leave =>
    case Broken =>
    case Lone =>
    case Start => PlainSafe(p, i + 1, false);
    case Stop => PlainSafe(p, i + 1, false);
    case Enter =>
      if Out(p, i + 1, true).Some? {
        UnquantifiedSafe(p, i + 1, true, 1);
        PlainSafe(p, Out(p, i + 1, true).value, false);
      }
    case Item(_, q, n) => PlainSafe(p, n, Restarts(q));
  }

  /** A pattern without an opening parenthesis is plain; so is one whose only ones are escaped
      or listed in brackets. */
  lemma {:induction false} NoParenthesis(p: Pattern, i: nat, anchor: bool)
    requires i <= |p| && '(' !in p[i..]
    ensures Plain(p, i, anchor)
    decreases |p| - i
  {
    hide AtomAt, QuantAt;
    match ItemAt(p, i, anchor, false)
    case Finish =>
    case Leave =>
    case Broken =>
    case Lone =>
    case Start => NoParenthesis(p, i + 1, false);
    case Stop => NoParenthesis(p, i + 1, false);
    case Enter =>
    case Item(_, q, n) =>
      assert forall x :: x in p[n..] ==> x in p[i..];
      NoParenthesis(p, n, Restarts(q));
  }

  /** A group that holds no quantifier goes on behind its one match. */
  lemma PlainGroup(t: Text, p: Pattern, i: nat, anchor: bool, k: nat, g: Hit)
    requires i < |p| && ItemAt(p, i, anchor, false).Enter? && !Quantified(p, i + 1, true)
    requires t.Lang(Parse(p, i + 1, true, 1), k, g)
    ensures Out(p, i + 1, true).Some?
    ensures t.All(Parse(p, i, anchor, 0), k) == t.All(Parse(p, Out(p, i + 1, true).value, false, 0), g.end)
  {
    hide Text.All, Text.Lang, ItemAt, Out, Quantified, Safe;
    var body := Parse(p, i + 1, true, 1);
    UnquantifiedSafe(p, i + 1, true, 1);
    Found(t, p, i + 1, true, 1, k, g);
    var first := t.All(body, k)[0];
    assert first in t.All(body, k);
    t.Sound(body, k, first);
    Unique(t, p, i + 1, true, 1, k, g, first);
    Exit(t, p, i + 1, true, 1, k, g);
    t.LangBounds(body, k, g);
    t.AllPlain(Group(body), k);
  }

  lemma ItemTries(t: Text, p: Pattern, i: nat, anchor: bool, k: nat, m: nat, h: Hit)
    requires i <= |p| && ItemAt(p, i, anchor, false).Item?
    requires var x := ItemAt(p, i, anchor, false);
             ItemTakes(t, p, x, k, m) && h in t.All(Parse(p, x.next, Restarts(x.q), 0), m)
    ensures h in t.All(Parse(p, i, anchor, 0), k)
  {
    hide ItemAt, Parse, Text.All, Text.Lang, Takes;
    var x := ItemAt(p, i, anchor, false);
    var r := Parse(p, x.next, Restarts(x.q), 0);
    ParseIs(p, i, anchor, 0);
    if x.q == Optional && At(p, x.next) == '^' {
      OptionalCaret(t, x.a, Parse(p, x.next + 1, false, 0), r, k, h);
    } else {
      NodeTries(t, x.a, x.q, r, k, m, h);
    }
  }

  /** A plain pattern: every match in the language is one the search can return. */
  lemma {:induction false} Complete(t: Text, p: Pattern, i: nat, anchor: bool, k: nat, h: Hit)
    requires i <= |p| && Plain(p, i, anchor) && t.Lang(Parse(p, i, anchor, 0), k, h)
    ensures h in t.All(Parse(p, i, anchor, 0), k)
    decreases |p| - i, 1
  {
    hide Text.Lang, Text.All, AtomAt, QuantAt, Out, Quantified, ItemTakes;
    t.LangPlain(Parse(p, i, anchor, 0), k, h);
    t.AllPlain(Parse(p, i, anchor, 0), k);
    match ItemAt(p, i, anchor, false)
    case Finish =>
    case Leave =>
    case Broken =>
    case Lone =>
    case Start => Complete(t, p, i + 1, false, k, h);
    case Stop => Complete(t, p, i + 1, false, k, h);
    case Enter => CompleteGroup(t, p, i, anchor, k, h);
    case Item(a, q, n) =>
      ItemLang(t, p, i, anchor, 0, k, h);
      var m: nat :| ItemTakes(t, p, Item(a, q, n), k, m) && t.Lang(Parse(p, n, Restarts(q), 0), m, h);
      Complete(t, p, n, Restarts(q), m, h);
      ItemTries(t, p, i, anchor, k, m, h);
  }

  lemma {:induction false} CompleteGroup(t: Text, p: Pattern, i: nat, anchor: bool, k: nat, h: Hit)
    requires i < |p| && ItemAt(p, i, anchor, false).Enter?
    requires Plain(p, i, anchor) && t.Lang(Parse(p, i, anchor, 0), k, h)
    ensures h in t.All(Parse(p, i, anchor, 0), k)
    decreases |p| - i, 0
  {
    hide Text.All, Text.Lang, ItemAt, Out, Quantified;
    var g := t.GroupSplit(Parse(p, i + 1, true, 1), k, h);
    Exit(t, p, i + 1, true, 1, k, g);
    PlainGroup(t, p, i, anchor, k, g);
    Complete(t, p, Out(p, i + 1, true).value, false, g.end, h);
  }

  /** What the search says about a pattern, given its text. */
  lemma Decision(t: Text, p: Pattern, j: nat)
    ensures var re := Parse(p, 0, true, 0);
            var all := t.All(re, j);
            && (all != [] ==> all[0].rest == Accept && t.Lang(re, j, all[0]))
            && (Safe(p, 0, true, 0) ==> (all != [] <==> exists h: Hit :: t.Lang(re, j, h)))
            && (Plain(p, 0, true) ==> forall h: Hit :: h in all <==> t.Lang(re, j, h))
  {
    hide Text.All, Text.Lang, Parse, Safe, Plain;
    var re := Parse(p, 0, true, 0);
    var all := t.All(re, j);
    if all != [] {
      assert all[0] in all;
      t.Sound(re, j, all[0]);
      Exit(t, p, 0, true, 0, j, all[0]);
    }
    if h: Hit :| Safe(p, 0, true, 0) && t.Lang(re, j, h) { Found(t, p, 0, true, 0, j, h); }
    if Plain(p, 0, true) {
      forall h: Hit ensures h in all <==> t.Lang(re, j, h) {
        if h in all { t.Sound(re, j, h); }
        if t.Lang(re, j, h) { Complete(t, p, 0, true, j, h); }
      }
    }
  }

  // ----- a match that is missed -----

  /** The pattern `(a*)a`, and the line `aa` with the byte behind it. */
  const MISSED: Pattern := "(a*)a"
  const LINE := "aa\n"

  lemma MissedTree()
    ensures Parse(MISSED, 0, true, 0) == Group(Star(Lit('a'), Close(One(Lit('a'), Accept))))
    ensures Legal(MISSED, 0, true, 0) && !Safe(MISSED, 0, true, 0)
  {
    var p := MISSED;
    assert ItemAt(p, 0, true, false) == Enter;
    assert ItemAt(p, 1, true, true) == Item(Lit('a'), AnyTimes, 3);
    assert ItemAt(p, 3, true, true) == Leave;
    assert ItemAt(p, 4, false, false) == Item(Lit('a'), Once, 5);
    assert ItemAt(p, 5, false, false) == Finish;
    MissedUnfold();
  }

  lemma MissedUnfold()
    requires ItemAt(MISSED, 0, true, false) == Enter
    requires ItemAt(MISSED, 1, true, true) == Item(Lit('a'), AnyTimes, 3)
    requires ItemAt(MISSED, 3, true, true) == Leave
    requires ItemAt(MISSED, 4, false, false) == Item(Lit('a'), Once, 5)
    requires ItemAt(MISSED, 5, false, false) == Finish
    ensures Parse(MISSED, 0, true, 0) == Group(Star(Lit('a'), Close(One(Lit('a'), Accept))))
    ensures Legal(MISSED, 0, true, 0) && !Safe(MISSED, 0, true, 0)
  {
    hide ItemAt;
    var p := MISSED;
    assert Parse(p, 4, false, 0) == One(Lit('a'), Accept) && Legal(p, 4, false, 0);
    assert Parse(p, 3, true, 1) == Close(One(Lit('a'), Accept)) && Legal(p, 3, true, 1);
    assert Out(p, 3, true) == Some(4) && Out(p, 1, true) == Some(4) && Quantified(p, 1, true);
    assert Parse(p, 1, true, 1) == Star(Lit('a'), Close(One(Lit('a'), Accept))) && Legal(p, 1, true, 1);
  }

  /** The star takes both characters and the group is not tried again. */
  lemma MissedSearch(mode: Mode)
    ensures var re := Group(Star(Lit('a'), Close(One(Lit('a'), Accept))));
            var t := Text("aa", mode);
            t.All(re, 0) == [] && t.Lang(re, 0, Hit(2, Accept))
  {
    hide Accepts, Size, Text.All, Text.Lang, Text.Down;
    var t, a, last := Text("aa", mode), Lit('a'), One(Lit('a'), Accept);
    FitsTwice(t, mode);
    var body := Star(a, Close(last));
    t.AllPlain(Group(body), 0);
    t.AllStar(a, Close(last), 0);
    FirstDown(t, Close(last), 0, 2, Hit(2, last));
    t.AllPlain(last, 2);
    t.LangPlain(Close(last), 1, Hit(1, last));
    t.LangPlain(Accept, 2, Hit(2, Accept));
    t.LangPlain(last, 1, Hit(2, Accept));
    assert Takes(t, a, AnyTimes, 0, 1);
    NodeTaken(t, a, AnyTimes, Close(last), 0, 1, Hit(1, last));
    t.GroupJoin(body, 0, Hit(1, last), Hit(2, Accept));
  }

  lemma FitsTwice(t: Text, mode: Mode)
    requires t == Text("aa", mode)
    ensures t.Fits(Lit('a'), 0) && t.Fits(Lit('a'), 1) && !t.Fits(Lit('a'), 2) && t.RunEnd(Lit('a'), 0) == 2
  {
    assert t.RunEnd(Lit('a'), 2) == 2 && t.RunEnd(Lit('a'), 1) == 2;
  }

  lemma FirstDown(t: Text, r: Re, lo: nat, m: nat, h: Hit)
    requires lo <= m <= |t.line| && r == Close(h.rest) && h.end == m
    ensures t.Down(r, lo, m) != [] && t.Down(r, lo, m)[0] == h
  {
    t.AllPlain(r, m);
  }

  /** grep does not find `(a*)a` on the line `aa`, although it is there. */
  method Misses(mode: Mode) returns (ok: bool, len: nat)
    ensures !ok && LineOf(LINE, mode).Lang(Parse(MISSED, 0, true, 0), 0, Hit(2, Accept))
  {
    hide Text.All, Text.Lang, Parse, Legal, Safe;
    MissedTree();
    MissedSearch(mode);
    assert LINE[..2] == "aa";
    var out;
    ok, len, out := RegexMatches(LINE, MISSED, mode, 0, 0, false, 0);
  }
}
