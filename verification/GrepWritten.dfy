/**
  Patterns as one writes them: characters, sets, anchors, quantifiers and groups.  grep accepts
  what is written and reads it as what it stands for.
 */
module GrepWritten {
  import opened Common
  import opened GrepChars
  import opened GrepLang
  import opened GrepMatch
  import opened GrepGroups
  import opened GrepTextbook
  import opened GrepPossessive

  // ----- the written form -----

  /** A character written as itself or behind a backslash. */
  datatype Symbol = Raw(c: char) | Slash(c: char)

  /** An entry of a set. */
  datatype Entry = Single(x: Symbol) | Span(lo: Symbol, hi: Symbol)

  /** A set may end in a character and a dash with nothing behind it. */
  datatype Sign = Dot | Letter(x: Symbol) | Bracketed(negated: bool, entries: seq<Entry>, hang: Option<Symbol>)

  datatype Syntax =
    | Empty
    | Caret(rest: Syntax)
    | Dollar(rest: Syntax)
    | Put(s: Sign, q: Quant, rest: Syntax)
    | Parens(body: Syntax, rest: Syntax)

  function ShowSymbol(x: Symbol): string {
    match x
    case Raw(c) => [c]
    case Slash(c) => ['\\', c]
  }

  function ShowEntry(e: Entry): string {
    match e
    case Single(x) => ShowSymbol(x)
    case Span(lo, hi) => ShowSymbol(lo) + "-" + ShowSymbol(hi)
  }

  function ShowEntries(es: seq<Entry>): string {
    if es == [] then "" else ShowEntry(es[0]) + ShowEntries(es[1..])
  }

  /** The end of a set. */
  function ShowClose(hang: Option<Symbol>): string {
    match hang
    case None => "]"
    case Some(x) => ShowSymbol(x) + "-]"
  }

  function ShowSign(s: Sign): string {
    match s
    case Dot => "."
    case Letter(x) => ShowSymbol(x)
    case Bracketed(negated, es, hang) => (if negated then "[^" else "[") + (ShowEntries(es) + ShowClose(hang))
  }

  function ShowQuant(q: Quant): string {
    match q
    case Once => ""
    case Optional => "\\?"
    case AtLeastOnce => "\\+"
    case AnyTimes => "*"
  }

  function Show(x: Syntax): string {
    match x
    case Empty => ""
    case Caret(rest) => "^" + Show(rest)
    case Dollar(rest) => "$" + Show(rest)
    case Put(s, q, rest) => ShowSign(s) + (ShowQuant(q) + Show(rest))
    case Parens(body, rest) => "(" + (Show(body) + (")" + Show(rest)))
  }

  // ----- what it stands for -----

  /** `\t` is a tab; any other character behind a backslash is itself. */
  function Stands(x: Symbol): char {
    match x
    case Raw(c) => c
    case Slash(c) => if c == 't' then '\t' else c
  }

  function RangeOf(e: Entry): Range {
    match e
    case Single(x) => Range(Stands(x), Stands(x))
    case Span(lo, hi) => Range(Stands(lo), Stands(hi))
  }

  function RangesOf(es: seq<Entry>): (rs: seq<Range>)
    ensures |rs| == |es| && forall i :: 0 <= i < |es| ==> rs[i] == RangeOf(es[i])
  {
    if es == [] then [] else [RangeOf(es[0])] + RangesOf(es[1..])
  }

  function AtomOf(s: Sign): Atom {
    match s
    case Dot => Any
    case Letter(x) => Lit(Stands(x))
    case Bracketed(negated, es, hang) => Set(negated, Listing(RangesOf(es), hang.Some?))
  }

  function Meaning(x: Syntax): Parts {
    match x
    case Empty => Done
    case Caret(rest) => Then(Begin, Meaning(rest))
    case Dollar(rest) => Then(End, Meaning(rest))
    case Put(s, q, rest) => Then(Rep(AtomOf(s), q), Meaning(rest))
    case Parens(body, rest) => Sub(Meaning(body), Meaning(rest))
  }

  // ----- what can be written -----

  /** Where a character is written: whether `^` is an anchor there or has another special sense,
      whether an atom stands in front that `*` would repeat, and whether a group is open. */
  datatype Place = Place(anchor: bool, caret: bool, repeats: bool, open: bool)

  predicate LetterOk(x: Symbol, at: Place) {
    match x
    case Raw(c) => c !in ".\\[($\0" && (c == '^' ==> !at.caret) && (c == '*' ==> !at.repeats) && (c == ')' ==> !at.open)
    case Slash(c) => c in "$^/\\.[]*()t"
  }

  predicate InSetOk(x: Symbol) {
    match x
    case Raw(c) => c !in "\\]\0"
    case Slash(c) => c in "\\]t"
  }

  function First(e: Entry): Symbol { if e.Single? then e.x else e.lo }
  function Last(e: Entry): Symbol { if e.Single? then e.x else e.hi }

  predicate EntryOk(e: Entry) {
    InSetOk(First(e)) && InSetOk(Last(e))
  }

  /** A dash stands for itself only at the start of a set or behind another dash, and a set does not
      end with a backslash. */
  predicate EntriesOk(es: seq<Entry>, hang: Option<Symbol>) {
    && (forall i :: 0 <= i < |es| ==> EntryOk(es[i]))
    && (forall i :: 0 < i < |es| ==> First(es[i]) != Raw('-'))
    && (hang.None? && es != [] ==> Last(es[|es| - 1]) != Slash('\\'))
    && (hang.Some? ==> InSetOk(hang.value) && (es != [] ==> hang.value != Raw('-')))
  }

  /** What a set begins with. */
  function Head(es: seq<Entry>, hang: Option<Symbol>): Option<Symbol> {
    if es != [] then Some(First(es[0])) else hang
  }

  predicate SignOk(s: Sign, at: Place) {
    match s
    case Dot => true
    case Letter(x) => LetterOk(x, at)
    case Bracketed(negated, es, hang) => EntriesOk(es, hang) && (!negated ==> Head(es, hang) != Some(Raw('^')))
  }

  function Behind(q: Quant, open: bool): Place {
    Place(q == AtLeastOnce || q == AnyTimes, q != Once, q == Once, open)
  }

  /** Behind an anchor or a parenthesis nothing is special. */
  function Fresh(open: bool): Place { Place(false, false, false, open) }

  function Opening(open: bool): Place { Place(true, true, false, open) }

  predicate Written(x: Syntax, at: Place) {
    match x
    case Empty => true
    case Caret(rest) => at.anchor && Written(rest, Fresh(at.open))
    case Dollar(rest) => Written(rest, Fresh(at.open))
    case Put(s, q, rest) => SignOk(s, at) && Written(rest, Behind(q, at.open))
    case Parens(body, rest) => Written(body, Opening(true)) && Written(rest, Fresh(at.open))
  }

  // ----- placing text -----

  /** `s` is written in `p` at `i`. */
  predicate Sits(p: seq<char>, i: nat, s: string) {
    i + |s| <= |p| && p[i..i + |s|] == s
  }

  lemma Assoc(a: string, b: string, c: string, d: string)
    ensures (a + b + c) + d == a + (b + (c + d)) && (a + b) + c == a + (b + c)
  {
  }

  lemma SitsSplit(p: seq<char>, i: nat, u: string, v: string)
    requires Sits(p, i, u + v)
    ensures Sits(p, i, u) && Sits(p, i + |u|, v)
  {
    var w := p[i..i + |u + v|];
    assert w[..|u|] == u && w[|u|..] == v;
  }

  lemma SitsAt(p: seq<char>, i: nat, s: string, x: nat)
    requires Sits(p, i, s) && x < |s|
    ensures i + x < |p| && p[i + x] == s[x]
  {
    assert p[i + x] == p[i..i + |s|][x];
  }

  lemma ScanPlain(p: seq<char>, i: nat)
    requires i < |p| && p[i] != ']' && (p[i] == '\\' ==> At(p, i + 1) != ']')
    ensures ScanEnd(p, i) == ScanEnd(p, i + 1)
  {
  }

  // ----- sets -----

  lemma ReadSymbol(p: seq<char>, t: nat, x: Symbol)
    requires Sits(p, t, ShowSymbol(x)) && InSetOk(x)
    ensures t < |p| && t + |ShowSymbol(x)| <= |p| && SetChar(p, t) == (Stands(x), t + |ShowSymbol(x)|)
    ensures x != Slash('\\') || At(p, t + |ShowSymbol(x)|) != ']' ==> ScanEnd(p, t) == ScanEnd(p, t + |ShowSymbol(x)|)
  {
    SitsAt(p, t, ShowSymbol(x), 0);
    if x.Slash? {
      SitsAt(p, t, ShowSymbol(x), 1);
      if x.c != ']' {
        ScanPlain(p, t);
        if x.c == 't' || At(p, t + 2) != ']' { ScanPlain(p, t + 1); }
      }
    } else {
      ScanPlain(p, t);
    }
  }

  /** Where the parts of a written span stand. */
  lemma SpanParts(p: seq<char>, t: nat, lo: Symbol, hi: Symbol)
    requires Sits(p, t, ShowEntry(Span(lo, hi)))
    ensures var t1 := t + |ShowSymbol(lo)|;
            && Sits(p, t, ShowSymbol(lo)) && t1 < |p| && p[t1] == '-' && Sits(p, t1 + 1, ShowSymbol(hi))
            && t + |ShowEntry(Span(lo, hi))| == t1 + 1 + |ShowSymbol(hi)|
  {
    hide Sits, ShowSymbol;
    var a, b := ShowSymbol(lo), ShowSymbol(hi);
    Assoc(a, "-", b, "");
    SitsSplit(p, t, a, "-" + b);
    SitsSplit(p, t + |a|, "-", b);
    SitsAt(p, t + |a|, "-", 0);
  }

  /** One written entry is read, and the scan passes over it. */
  lemma ReadEntry(p: Pattern, t: nat, e: nat, x: Entry)
    requires Sits(p, t, ShowEntry(x)) && EntryOk(x)
    requires var t2 := t + |ShowEntry(x)|;
             && t2 <= e && Bracket(p, t2, e) && t < e && Bracket(p, t, e) && At(p, t2) != '-'
             && (Last(x) == Slash('\\') ==> At(p, t2) != ']')
    ensures var t2 := t + |ShowEntry(x)|;
            ScanEnd(p, t) == ScanEnd(p, t2) && Ranges(p, t, e) == Prepend(RangeOf(x), Ranges(p, t2, e))
  {
    hide Sits, ShowSymbol, ScanEnd, SetChar, Ranges, InSetOk;
    RangesStep(p, t, e);
    if x.Single? {
      ReadSymbol(p, t, x.x);
    } else {
      SpanParts(p, t, x.lo, x.hi);
      var t1 := t + |ShowSymbol(x.lo)|;
      ReadSymbol(p, t, x.lo);
      ScanPlain(p, t1);
      ReadSymbol(p, t1 + 1, x.hi);
    }
  }

  lemma SymbolStart(x: Symbol)
    requires InSetOk(x)
    ensures |ShowSymbol(x)| > 0 && ShowSymbol(x)[0] != ']' && (x != Raw('-') ==> ShowSymbol(x)[0] != '-')
    ensures x != Raw('^') ==> ShowSymbol(x)[0] != '^'
  {
  }

  /** A set goes on with something that begins with no dash, or ends. */
  lemma EntriesStart(es: seq<Entry>, hang: Option<Symbol>)
    requires EntriesOk(es, hang)
    ensures var (w, head) := (ShowEntries(es) + ShowClose(hang), Head(es, hang));
            && w != "" && (head != Some(Raw('-')) ==> w[0] != '-') && (head.Some? ==> w[0] != ']')
            && (head != Some(Raw('^')) ==> w[0] != '^')
  {
    hide InSetOk, ShowSymbol;
    if es != [] {
      assert EntryOk(es[0]);
      SymbolStart(First(es[0]));
    } else if hang.Some? {
      SymbolStart(hang.value);
    }
  }

  lemma EntriesStep(es: seq<Entry>, hang: Option<Symbol>)
    requires EntriesOk(es, hang) && es != []
    ensures ShowEntries(es) + ShowClose(hang) == ShowEntry(es[0]) + (ShowEntries(es[1..]) + ShowClose(hang))
    ensures |ShowEntries(es)| == |ShowEntry(es[0])| + |ShowEntries(es[1..])| && |ShowEntry(es[0])| > 0
    ensures EntriesOk(es[1..], hang) && EntryOk(es[0]) && Head(es[1..], hang) != Some(Raw('-'))
    ensures RangesOf(es) == [RangeOf(es[0])] + RangesOf(es[1..])
    ensures Head(es[1..], hang).None? ==> Last(es[0]) != Slash('\\')
  {
    hide InSetOk, ShowClose;
    Assoc(ShowEntry(es[0]), ShowEntries(es[1..]), ShowClose(hang), "");
    assert EntryOk(es[0]);
    if |es| > 1 { assert es[1..][0] == es[1] && es[1..][|es| - 2] == es[|es| - 1]; }
  }

  /** The end of a set is where the scan stops. */
  lemma ReadClose(p: Pattern, t: nat, hang: Option<Symbol>)
    requires Sits(p, t, ShowClose(hang)) && EntriesOk([], hang)
    ensures var e := t + |ShowClose(hang)| - 1;
            t <= e && ScanEnd(p, t) == e < |p| && Bracket(p, t, e) && Ranges(p, t, e) == Listing([], hang.Some?)
  {
    var w := ShowClose(hang);
    SitsAt(p, t, w, |w| - 1);
    if hang.Some? {
      var x := hang.value;
      hide InSetOk, ShowSymbol, SetChar;
      SitsAt(p, t, w, |w| - 2);
      SitsSplit(p, t, ShowSymbol(x), "-]");
      SymbolStart(x);
      ReadSymbol(p, t, x);
      ScanPlain(p, t + |ShowSymbol(x)|);
      RangesStep(p, t, t + |w| - 1);
    }
  }

  /** Written entries: the scan stops at the bracket behind them, and they are read. */
  lemma {:induction false} ReadEntries(p: Pattern, t: nat, es: seq<Entry>, hang: Option<Symbol>)
    requires Sits(p, t, ShowEntries(es) + ShowClose(hang)) && EntriesOk(es, hang)
    ensures var e := t + |ShowEntries(es) + ShowClose(hang)| - 1;
            t <= e && ScanEnd(p, t) == e < |p| && Bracket(p, t, e) && Ranges(p, t, e) == Listing(RangesOf(es), hang.Some?)
    decreases |es|
  {
    hide ShowEntries, ShowEntry, ShowClose, ScanEnd, Ranges, Sits, EntriesOk, EntryOk, RangesOf;
    if es == [] {
      NoEntries(hang);
      ReadClose(p, t, hang);
    } else {
      EntriesStep(es, hang);
      var rest := ShowEntries(es[1..]) + ShowClose(hang);
      var t2, e := t + |ShowEntry(es[0])|, t + |ShowEntries(es) + ShowClose(hang)| - 1;
      SitsSplit(p, t, ShowEntry(es[0]), rest);
      ReadEntries(p, t2, es[1..], hang);
      EntriesStart(es[1..], hang);
      SitsAt(p, t2, rest, 0);
      BracketGrows(p, t, t2, e, es[0]);
      ReadEntry(p, t, e, es[0]);
    }
  }

  lemma NoEntries(hang: Option<Symbol>)
    ensures ShowEntries([]) + ShowClose(hang) == ShowClose(hang) && RangesOf([]) == []
  {
  }

  lemma BracketGrows(p: Pattern, t: nat, t2: nat, e: nat, x: Entry)
    requires Bracket(p, t2, e) && Sits(p, t, ShowEntry(x)) && EntryOk(x) && t2 == t + |ShowEntry(x)|
    requires Last(x) == Slash('\\') ==> At(p, t2) != ']'
    ensures t < e && Bracket(p, t, e)
  {
    var w := ShowEntry(x);
    if t2 == e { SitsAt(p, t, w, |w| - 1); }
  }

  lemma SetParts(p: Pattern, i: nat, s: Sign)
    requires s.Bracketed? && Sits(p, i, ShowSign(s)) && SignOk(s, Fresh(false))
    ensures var n := if s.negated then 2 else 1;
            && i + n < |p| && p[i] == '[' && (p[i + 1] == '^') == s.negated
            && Sits(p, i + n, ShowEntries(s.entries) + ShowClose(s.hang))
            && |ShowSign(s)| == n + |ShowEntries(s.entries) + ShowClose(s.hang)|
  {
    hide ShowEntries, ShowClose, EntriesOk;
    var head, inner := if s.negated then "[^" else "[", ShowEntries(s.entries) + ShowClose(s.hang);
    SitsSplit(p, i, head, inner);
    SitsAt(p, i, head, 0);
    EntriesStart(s.entries, s.hang);
    SitsAt(p, i + |head|, inner, 0);
    if s.negated { SitsAt(p, i, head, 1); }
  }

  lemma ReadBracketed(p: Pattern, i: nat, s: Sign)
    requires s.Bracketed? && Sits(p, i, ShowSign(s)) && SignOk(s, Fresh(false))
    ensures i < |p| && AtomAt(p, i) == Token(AtomOf(s), i + |ShowSign(s)|) && p[i] == '['
  {
    hide ShowEntries, ShowClose, ShowSign, Sits, Ranges, ScanEnd, EntriesOk, RangesOf;
    SetParts(p, i, s);
    ReadEntries(p, i + if s.negated then 2 else 1, s.entries, s.hang);
    if s.negated { ScanPlain(p, i + 1); }
  }

  // ----- signs and quantifiers -----

  /** A written sign is read, and is not taken for anything else. */
  lemma ReadSign(p: Pattern, i: nat, s: Sign, at: Place)
    requires Sits(p, i, ShowSign(s)) && SignOk(s, at)
    ensures i < |p| && p[i] != '$' && p[i] != '(' && (at.caret ==> p[i] != '^') && (at.open ==> p[i] != ')')
    ensures AtomAt(p, i) == Token(AtomOf(s), i + |ShowSign(s)|)
    // no quantifier begins like a sign
    ensures (at.repeats ==> p[i] != '*') && (p[i] == '\\' ==> At(p, i + 1) != '?' && At(p, i + 1) != '+')
  {
    hide EntriesOk, ShowEntries, ShowClose;
    if s.Bracketed? {
      ReadBracketed(p, i, s);
    } else {
      SitsAt(p, i, ShowSign(s), 0);
      if s.Letter? && s.x.Slash? { SitsAt(p, i, ShowSign(s), 1); }
    }
  }

  /** How a written pattern goes on: it is over at `end`, at the end of the text or at the `)` of a group. */
  predicate Over(p: Pattern, end: nat, open: bool) {
    if open then end < |p| && p[end] == ')' else end == |p|
  }

  lemma PutParts(p: seq<char>, i: nat, x: Syntax)
    requires x.Put? && Sits(p, i, Show(x))
    ensures var n := i + |ShowSign(x.s)|;
            var m := n + |ShowQuant(x.q)|;
            && Sits(p, i, ShowSign(x.s)) && Sits(p, n, ShowQuant(x.q)) && Sits(p, m, Show(x.rest))
            && i + |Show(x)| == m + |Show(x.rest)| && m <= |p|
  {
    hide Sits, ShowSign, ShowQuant;
    var u, q, rest := ShowSign(x.s), ShowQuant(x.q), Show(x.rest);
    SitsSplit(p, i, u, q + rest);
    SitsSplit(p, i + |u|, q, rest);
    SitsInside(p, i + |u| + |q|, rest);
  }

  lemma SitsInside(p: seq<char>, i: nat, s: string)
    requires Sits(p, i, s)
    ensures i + |s| <= |p|
  {
  }

  lemma ParensParts(p: seq<char>, i: nat, x: Syntax)
    requires x.Parens? && Sits(p, i, Show(x))
    ensures var n := i + 1 + |Show(x.body)|;
            && i < n < |p| && p[i] == '(' && Sits(p, i + 1, Show(x.body)) && p[n] == ')'
            && Sits(p, n + 1, Show(x.rest)) && i + |Show(x)| == n + 1 + |Show(x.rest)|
  {
    hide Sits, Show;
    ShowParens(x);
    ParensSit(p, i, Show(x.body), Show(x.rest));
  }

  lemma ShowParens(x: Syntax)
    requires x.Parens?
    ensures Show(x) == "(" + (Show(x.body) + (")" + Show(x.rest)))
  {
  }

  lemma ParensSit(p: seq<char>, i: nat, body: string, rest: string)
    requires Sits(p, i, "(" + (body + (")" + rest)))
    ensures var n := i + 1 + |body|;
            i < n < |p| && p[i] == '(' && Sits(p, i + 1, body) && p[n] == ')' && Sits(p, n + 1, rest)
  {
    hide Sits;
    SitsSplit(p, i, "(", body + (")" + rest));
    SitsAt(p, i, "(", 0);
    SitsSplit(p, i + 1, body, ")" + rest);
    SitsSplit(p, i + 1 + |body|, ")", rest);
    SitsAt(p, i + 1 + |body|, ")", 0);
  }

  lemma AnchorParts(p: seq<char>, i: nat, x: Syntax)
    requires (x.Caret? || x.Dollar?) && Sits(p, i, Show(x))
    ensures i < |p| && p[i] == (if x.Caret? then '^' else '$') && Sits(p, i + 1, Show(x.rest))
    ensures i + |Show(x)| == i + 1 + |Show(x.rest)|
  {
    hide Sits;
    var a := if x.Caret? then "^" else "$";
    SitsSplit(p, i, a, Show(x.rest));
    SitsAt(p, i, a, 0);
  }

  /** What is written behind an atom is not taken for its quantifier, nor for an anchor. */
  lemma NoQuant(p: Pattern, i: nat, x: Syntax, at: Place)
    requires Sits(p, i, Show(x)) && Over(p, i + |Show(x)|, at.open) && Written(x, at) && !at.anchor
    ensures at.repeats ==> QuantAt(p, i) == (Once, i)
    ensures at.caret ==> At(p, i) != '^'
  {
    hide ShowSign, AtomAt, SignOk, Sits, Show;
    match x
    case Empty => ShowEmpty();
    case Caret(_) =>
    case Dollar(_) => AnchorParts(p, i, x);
    case Put(s, _, _) =>
      PutParts(p, i, x);
      ReadSign(p, i, s, at);
    case Parens(_, _) => ParensParts(p, i, x);
  }

  lemma ShowEmpty()
    ensures Show(Empty) == ""
  {
  }

  lemma ReadQuant(p: Pattern, n: nat, q: Quant, x: Syntax, open: bool)
    requires Sits(p, n, ShowQuant(q)) && Sits(p, n + |ShowQuant(q)|, Show(x))
    requires Over(p, n + |ShowQuant(q)| + |Show(x)|, open) && Written(x, Behind(q, open))
    ensures n <= |p| && QuantAt(p, n) == (q, n + |ShowQuant(q)|)
    ensures q == Optional ==> At(p, n + |ShowQuant(q)|) != '^'
  {
    hide Show, Written;
    match q
    case Once => NoQuant(p, n, x, Behind(q, open));
    case Optional =>
      SitsAt(p, n, "\\?", 0);
      SitsAt(p, n, "\\?", 1);
      NoQuant(p, n + 2, x, Behind(q, open));
    case AtLeastOnce => SitsAt(p, n, "\\+", 0); SitsAt(p, n, "\\+", 1);
    case AnyTimes => SitsAt(p, n, "*", 0);
  }

  // ----- whole patterns -----

  lemma ReadPut(p: Pattern, i: nat, x: Syntax, at: Place)
    requires x.Put? && Sits(p, i, Show(x)) && Over(p, i + |Show(x)|, at.open) && Written(x, at) && (at.anchor ==> at.caret)
    ensures i <= |p|
    ensures ItemAt(p, i, at.anchor, at.open) == Item(AtomOf(x.s), x.q, i + |ShowSign(x.s)| + |ShowQuant(x.q)|)
    ensures x.q == Optional ==> At(p, i + |ShowSign(x.s)| + |ShowQuant(x.q)|) != '^'
  {
    hide Show, ShowSign, ShowQuant, Sits, AtomAt, QuantAt, SignOk;
    PutParts(p, i, x);
    ReadSign(p, i, x.s, at);
    ReadQuant(p, i + |ShowSign(x.s)|, x.q, x.rest, at.open);
  }

  /** `Layout` and `Out` where an atom, an anchor, a group or the end of one stands. */
  lemma LayoutStep(p: Pattern, i: nat, anchor: bool, open: bool)
    requires i <= |p|
    ensures match ItemAt(p, i, anchor, open)
            case Finish => !open ==> Layout(p, i, anchor, open) == Done
            case Leave => Layout(p, i, anchor, open) == Done && Out(p, i, anchor) == Some(i + 1)
            case Start =>
              && Layout(p, i, anchor, open) == Then(Begin, Layout(p, i + 1, false, open))
              && (open ==> Out(p, i, anchor) == Out(p, i + 1, false))
            case Stop =>
              && Layout(p, i, anchor, open) == Then(End, Layout(p, i + 1, false, open))
              && (open ==> Out(p, i, anchor) == Out(p, i + 1, false))
            case Enter =>
              var o := Out(p, i + 1, true);
              o.Some? ==>
                && Layout(p, i, anchor, open) == Sub(Layout(p, i + 1, true, true), Layout(p, o.value, false, open))
                && (open ==> Out(p, i, anchor) == Out(p, o.value, false))
            case Item(a, q, n) =>
              !(q == Optional && At(p, n) == '^') ==>
                && Layout(p, i, anchor, open) == Then(Rep(a, q), Layout(p, n, Restarts(q), open))
                && (open ==> Out(p, i, anchor) == Out(p, n, Restarts(q)))
            case _ => true
  {
    hide AtomAt, QuantAt;
  }

  lemma ItemIs(p: Pattern, i: nat, anchor: bool, open: bool)
    requires i <= |p|
    ensures anchor && At(p, i) == '^' ==> ItemAt(p, i, anchor, open) == Start
    ensures At(p, i) == '$' ==> ItemAt(p, i, anchor, open) == Stop
    ensures At(p, i) == '(' ==> ItemAt(p, i, anchor, open) == Enter
    ensures open && At(p, i) == ')' ==> ItemAt(p, i, anchor, open) == Leave
    ensures i == |p| ==> ItemAt(p, i, anchor, open) == Finish
  {
    hide AtomAt, QuantAt;
  }

  /** What is written is read as what it stands for. */
  lemma {:induction false} ReadSyntax(p: Pattern, i: nat, x: Syntax, at: Place)
    requires Sits(p, i, Show(x)) && Over(p, i + |Show(x)|, at.open) && Written(x, at) && (at.anchor ==> at.caret)
    ensures i <= |p| && Layout(p, i, at.anchor, at.open) == Meaning(x)
    ensures at.open ==> Out(p, i, at.anchor) == Some(i + |Show(x)| + 1)
    decreases x
  {
    hide Show, ShowSign, ShowQuant, Sits, ItemAt, SignOk, Layout, Out;
    SitsInside(p, i, Show(x));
    LayoutStep(p, i, at.anchor, at.open);
    ItemIs(p, i, at.anchor, at.open);
    match x
    case Empty => ShowEmpty();
    case Caret(rest) =>
      AnchorParts(p, i, x);
      ReadSyntax(p, i + 1, rest, Fresh(at.open));
    case Dollar(rest) =>
      AnchorParts(p, i, x);
      ReadSyntax(p, i + 1, rest, Fresh(at.open));
    case Put(s, q, rest) =>
      PutParts(p, i, x);
      ReadPut(p, i, x, at);
      ReadSyntax(p, i + |ShowSign(s)| + |ShowQuant(q)|, rest, Behind(q, at.open));
    case Parens(body, rest) =>
      ParensParts(p, i, x);
      ReadSyntax(p, i + 1, body, Opening(true));
      ReadSyntax(p, i + 1 + |Show(body)| + 1, rest, Fresh(at.open));
  }

  // ----- the text is a legal pattern -----

  lemma {:induction false} EntriesClean(es: seq<Entry>)
    requires forall i :: 0 <= i < |es| ==> EntryOk(es[i])
    ensures '\0' !in ShowEntries(es)
  {
    if es != [] {
      assert EntryOk(es[0]);
      EntriesClean(es[1..]);
    }
  }

  lemma SignClean(s: Sign, at: Place)
    requires SignOk(s, at)
    ensures '\0' !in ShowSign(s)
  {
    hide ShowEntries;
    if s.Bracketed? {
      EntriesClean(s.entries);
      assert '\0' !in ShowClose(s.hang);
    }
  }

  lemma {:induction false} ShowClean(x: Syntax, at: Place)
    requires Written(x, at)
    ensures '\0' !in Show(x)
  {
    hide ShowSign, SignOk;
    match x
    case Empty =>
    case Caret(rest) => ShowClean(rest, Fresh(at.open));
    case Dollar(rest) => ShowClean(rest, Fresh(at.open));
    case Put(s, q, rest) =>
      SignClean(s, at);
      ShowClean(rest, Behind(q, at.open));
    case Parens(body, rest) =>
      ShowClean(body, Opening(true));
      ShowClean(rest, Fresh(at.open));
  }

  lemma {:induction false} TailConcat(u: string, v: string)
    ensures Tail(u + v) == if Tail(v) == |v| then |v| + Tail(u) else Tail(v)
    decreases |v|
  {
    var w := u + v;
    if v == [] {
      assert w == u;
    } else if v[|v| - 1] == '\\' {
      assert w[..|w| - 1] == u + v[..|v| - 1];
      TailConcat(u, v[..|v| - 1]);
    }
  }

  lemma SignTail(s: Sign, at: Place)
    requires SignOk(s, at)
    ensures Tail(ShowSign(s)) % 2 == 0
  {
    hide ShowEntries, EntriesOk;
    var w := ShowSign(s);
    if s.Bracketed? { assert w[|w| - 1] == ']'; }
    if w[|w| - 1] == '\\' {
      assert w == "\\\\";
      assert w[..1] == "\\" && "\\"[..0] == "";
    }
  }

  lemma QuantTail(q: Quant)
    ensures Tail(ShowQuant(q)) == 0 && Tail("(") == 0 && Tail(")") == 0 && Tail("^") == 0 && Tail("$") == 0 && Tail("") == 0
  {
  }

  lemma {:induction false} ShowTail(x: Syntax, at: Place)
    requires Written(x, at)
    ensures Tail(Show(x)) % 2 == 0
  {
    hide Tail, ShowSign, ShowQuant, SignOk;
    QuantTail(Once);
    match x
    case Empty =>
    case Caret(rest) =>
      ShowTail(rest, Fresh(at.open));
      TailConcat("^", Show(rest));
    case Dollar(rest) =>
      ShowTail(rest, Fresh(at.open));
      TailConcat("$", Show(rest));
    case Put(s, q, rest) =>
      SignTail(s, at);
      QuantTail(q);
      ShowTail(rest, Behind(q, at.open));
      TailConcat(ShowQuant(q), Show(rest));
      TailConcat(ShowSign(s), ShowQuant(q) + Show(rest));
    case Parens(body, rest) =>
      ShowTail(body, Opening(true));
      ShowTail(rest, Fresh(at.open));
      TailConcat(")", Show(rest));
      TailConcat(Show(body), ")" + Show(rest));
      TailConcat("(", Show(body) + (")" + Show(rest)));
  }

  /** Every written pattern is one that grep accepts and reads as what it stands for. */
  lemma ReadBack(x: Syntax)
    requires Written(x, Opening(false))
    ensures '\0' !in Show(x) && Legal(Show(x), 0, true, 0)
    ensures PartsOf(Show(x)) == Meaning(x) && PiecesOf(Show(x)) == Flat(Meaning(x))
  {
    hide Legal, Pieces, Show, Written, Tail, Layout, Flat;
    ShowClean(x, Opening(false));
    ShowTail(x, Opening(false));
    EvenLegal(Show(x));
    var p := Show(x);
    assert p[0..|p|] == p;
    ReadSyntax(p, 0, x, Opening(false));
    FlatLayout(p, 0, true, false);
  }

  // ----- texts that are no such pattern -----

  /** A backslash in front of any other character is itself; a bracket that is never closed matches nothing. */
  lemma Malformed(p: Pattern, i: nat, anchor: bool, open: bool)
    requires i + 1 < |p|
    ensures p[i] == '\\' && p[i + 1] !in "$^/\\.[]*()t" ==> AtomAt(p, i) == Token(Lit('\\'), i + 1)
    ensures p[i] == '[' && ']' !in p[i..] ==> Layout(p, i, anchor, open) == Then(Nothing, Done)
  {
    if p[i] == '[' && ']' !in p[i..] {
      forall e | i <= e < |p| ensures p[e] != ']' { assert p[e] == p[i..][e - i]; }
    }
  }

  // ----- what signs accept -----

  /** An entry of a set lists a character: it is the written one, or between the two ends of a span. */
  ghost predicate Lists(e: Entry, c: char, mode: Mode) {
    match e
    case Single(x) => Alike(Stands(x), c, mode.ignoreCase)
    case Span(lo, hi) => Precedes(Stands(lo), c, mode) && Precedes(c, Stands(hi), mode)
  }

  /** A dot accepts everything, a letter itself, a set what it lists, and a negated set the rest.  A set that
      breaks off behind a dash accepts what it lists before, or nothing if it is negated. */
  lemma SignMeans(s: Sign, c: char, mode: Mode)
    ensures Accepts(AtomOf(s), c, mode) <==>
            match s
            case Dot => true
            case Letter(x) => Alike(Stands(x), c, mode.ignoreCase)
            case Bracketed(negated, es, hang) =>
              var listed := exists i :: 0 <= i < |es| && Lists(es[i], c, mode);
              if hang.None? then listed != negated else listed && !negated
  {
    hide Alike, Precedes, Code;
    match s
    case Dot =>
    case Letter(x) => SameIff(Stands(x), c, mode);
    case Bracketed(_, es, _) =>
      var rs := RangesOf(es);
      forall i | 0 <= i < |es| ensures InRange(c, rs[i], mode) <==> Lists(es[i], c, mode) {
        assert rs[i] == RangeOf(es[i]);
        SameIff(rs[i].lo, c, mode);
        PrecedesIff(rs[i].lo, c, mode);
        PrecedesIff(c, rs[i].hi, mode);
      }
  }
}
