/**
  From the text of a pattern to its tree, and the recursive matcher of grep, which
  reads the text directly and returns the match that comes first in `All`.
 */
module GrepMatch {
  import opened GrepChars
  import opened GrepLang

  // ----- reading a pattern -----

  const ESCAPABLE := "$^/\\.[]*()"

  /** What `strchr` finds in that list. */
  predicate Escapable(c: char) { c in ESCAPABLE }

  /** Behind `*` and `\+` the rest of the pattern is tried as if it began there, so a `^` is
      an anchor again. */
  predicate Restarts(q: Quant) { q == AtLeastOnce || q == AnyTimes }

  /** The quantifier written at `i`, and the position behind it. */
  function QuantAt(p: Pattern, i: nat): (q: (Quant, nat))
    requires i <= |p|
    ensures i <= q.1 <= |p|
  {
    if At(p, i) == '\\' && At(p, i + 1) == '?' then (Optional, i + 2)
    else if At(p, i) == '\\' && At(p, i + 1) == '+' then (AtLeastOnce, i + 2)
    else if At(p, i) == '*' then (AnyTimes, i + 1)
    else (Once, i)
  }

  datatype Token = Unclosed | Stray | Token(a: Atom, next: nat)

  /** The atom written at `i`.  A bracket may be unclosed; a backslash that is the very last
      character is stray. */
  function AtomAt(p: Pattern, i: nat): (t: Token)
    requires i < |p|
    ensures t.Token? ==> i < t.next <= |p|
  {
    if p[i] == '.' then Token(Any, i + 1)
    else if p[i] == '\\' && i + 1 == |p| then Stray
    else if p[i] == '\\' && Escapable(p[i + 1]) then Token(Lit(p[i + 1]), i + 2)
    else if p[i] == '\\' && p[i + 1] == 't' then Token(Lit('\t'), i + 2)
    else if p[i] == '[' then
      var e := ScanEnd(p, i + 1);
      if e == |p| then Unclosed else Token(Set(p[i + 1] == '^', Inside(p, i + 1, e)), e + 1)
    else Token(Lit(p[i]), i + 1)
  }

  /** What the matcher meets at a position of the pattern. */
  datatype Item =
    | Finish                                // the end of the pattern
    | Leave                                 // `)` of an open group
    | Start                                 // `^` where it is an anchor
    | Stop                                  // `$`
    | Enter                                 // `(`
    | Broken                                // an unclosed bracket
    | Lone                                  // a stray backslash
    | Item(a: Atom, q: Quant, next: nat)

  function ItemAt(p: Pattern, i: nat, anchor: bool, open: bool): (t: Item)
    requires i <= |p|
    ensures t.Item? ==> i < t.next <= |p|
    ensures t.Leave? || t.Start? || t.Stop? || t.Enter? ==> i < |p|
    ensures t.Leave? ==> open
  {
    if anchor && At(p, i) == '^' then Start
    else if i == |p| then Finish
    else if open && p[i] == ')' then Leave
    else if p[i] == '$' then Stop
    else if p[i] == '(' then Enter
    else
      match AtomAt(p, i)
      case Unclosed => Broken
      case Stray => Lone
      case Token(a, n) => Item(a, QuantAt(p, n).0, QuantAt(p, n).1)
  }

  /** The tree of the pattern from `i` on, with `d` groups open. */
  function Parse(p: Pattern, i: nat, anchor: bool, d: nat): Re
    requires i <= |p|
    decreases |p| - i
  {
    match ItemAt(p, i, anchor, d > 0)
    case Finish => if d == 0 then Accept else Fail
    case Leave => Close(Parse(p, i + 1, false, d - 1))
    case Start => Bol(Parse(p, i + 1, false, d))
    case Stop => Eol(Parse(p, i + 1, false, d))
    case Enter => Group(Parse(p, i + 1, true, d + 1))
    case Broken => Fail
    case Lone => Fail
    case Item(a, q, n) =>
      match q
      case Once => One(a, Parse(p, n, false, d))
      case Optional => Opt(a, Parse(p, n, true, d), Parse(p, n, false, d))
      case AtLeastOnce => Plus(a, Parse(p, n, true, d))
      case AnyTimes => Star(a, Parse(p, n, true, d))
  }

  /** What the matcher demands of its pattern: it never comes to a stray backslash. */
  predicate Legal(p: Pattern, i: nat, anchor: bool, d: nat)
    requires i <= |p|
    decreases |p| - i
  {
    match ItemAt(p, i, anchor, d > 0)
    case Finish => true
    case Leave => Legal(p, i + 1, false, d - 1)
    case Start => Legal(p, i + 1, false, d)
    case Stop => Legal(p, i + 1, false, d)
    case Enter => Legal(p, i + 1, true, d + 1)
    case Broken => true
    case Lone => false
    case Item(_, q, n) => (q != Once ==> Legal(p, n, true, d)) && (!Restarts(q) ==> Legal(p, n, false, d))
  }

  /** `Parse` and `Legal` where a quantified atom stands. */
  lemma ParseItem(p: Pattern, i: nat, d: nat)
    requires i < |p| && !(d > 0 && p[i] == ')') && p[i] != '$' && p[i] != '('
    ensures !AtomAt(p, i).Token? ==> Parse(p, i, false, d) == Fail
    ensures AtomAt(p, i).Stray? ==> !Legal(p, i, false, d)
    ensures AtomAt(p, i).Token? ==>
              var (a, n) := (AtomAt(p, i).a, AtomAt(p, i).next);
              var (q, m) := QuantAt(p, n);
              && (Legal(p, i, false, d) ==>
                    (q != Once ==> Legal(p, m, true, d)) && (!Restarts(q) ==> Legal(p, m, false, d)))
              && Parse(p, i, false, d) ==
                 match q
                 case Once => One(a, Parse(p, m, false, d))
                 case Optional => Opt(a, Parse(p, m, true, d), Parse(p, m, false, d))
                 case AtLeastOnce => Plus(a, Parse(p, m, true, d))
                 case AnyTimes => Star(a, Parse(p, m, true, d))
  {
    hide AtomAt, QuantAt;
  }

  /** ...and elsewhere. */
  lemma ParsePlain(p: Pattern, i: nat, d: nat)
    requires i <= |p|
    ensures At(p, i) == '^' ==> Parse(p, i, true, d) == Bol(Parse(p, i + 1, false, d))
    ensures At(p, i) != '^' ==> Parse(p, i, true, d) == Parse(p, i, false, d)
    ensures i == |p| ==> Parse(p, i, false, d) == if d == 0 then Accept else Fail
    ensures d > 0 && At(p, i) == ')' ==> Parse(p, i, false, d) == Close(Parse(p, i + 1, false, d - 1))
    ensures At(p, i) == '$' ==> Parse(p, i, false, d) == Eol(Parse(p, i + 1, false, d))
    ensures At(p, i) == '(' ==> Parse(p, i, false, d) == Group(Parse(p, i + 1, true, d + 1))
  {
    hide AtomAt, QuantAt;
  }

  lemma LegalPlain(p: Pattern, i: nat, d: nat)
    requires i <= |p|
    ensures Legal(p, i, true, d) ==> if At(p, i) == '^' then Legal(p, i + 1, false, d) else Legal(p, i, false, d)
    ensures d > 0 && At(p, i) == ')' && Legal(p, i, false, d) ==> Legal(p, i + 1, false, d - 1)
    ensures At(p, i) == '$' && Legal(p, i, false, d) ==> Legal(p, i + 1, false, d)
    ensures At(p, i) == '(' && Legal(p, i, false, d) ==> Legal(p, i + 1, true, d + 1)
  {
    hide AtomAt, QuantAt;
  }

  // ----- the trailing backslash -----

  /** Length of the run of backslashes that ends p. */
  function Tail(p: seq<char>): (n: nat)
    ensures n <= |p|
    ensures forall i :: |p| - n <= i < |p| ==> p[i] == '\\'
    ensures n < |p| ==> p[|p| - n - 1] != '\\'
  {
    if p == [] || p[|p| - 1] != '\\' then 0 else 1 + Tail(p[..|p| - 1])
  }

  /** Position `i` splits the final run of backslashes into pairs. */
  predicate Aligned(p: Pattern, i: nat)
    ensures Aligned(p, i) ==> i <= |p|
  {
    i <= |p| && (i <= |p| - Tail(p) || (|p| - i) % 2 == 0)
  }

  /** A backslash at such a position has a partner. */
  lemma AlignedPair(p: Pattern, i: nat)
    requires Tail(p) % 2 == 0 && Aligned(p, i) && i < |p|
    ensures p[i] == '\\' ==> i + 1 < |p| && Aligned(p, i + 2)
    ensures p[i] != '\\' || p[i + 1] != '\\' ==> Aligned(p, i + 1)
  {
    hide Tail;
    if p[i] != '\\' { AlignedBehind(p, i); } else if p[i + 1] != '\\' { assert i + 1 < |p| - Tail(p); }
  }

  lemma AlignedBehind(p: Pattern, e: nat)
    requires e < |p| && p[e] != '\\'
    ensures Aligned(p, e + 1)
  {
    assert e < |p| - Tail(p);
  }

  lemma AlignedQuant(p: Pattern, n: nat)
    requires Tail(p) % 2 == 0 && Aligned(p, n)
    ensures Aligned(p, QuantAt(p, n).1)
  {
    hide Aligned, Tail;
    if n < |p| { AlignedPair(p, n); }
  }

  lemma BackslashEscapable()
    ensures Escapable('\\')
  {
  }

  lemma AlignedNext(p: Pattern, i: nat)
    requires Tail(p) % 2 == 0 && Aligned(p, i) && i < |p|
    ensures !AtomAt(p, i).Stray?
    ensures p[i] != '\\' ==> Aligned(p, i + 1)
    ensures AtomAt(p, i).Token? ==> Aligned(p, QuantAt(p, AtomAt(p, i).next).1)
  {
    hide Aligned, Tail, QuantAt, AtomAt;
    AlignedPair(p, i);
    AlignedAtom(p, i);
    if AtomAt(p, i).Token? { AlignedQuant(p, AtomAt(p, i).next); }
  }

  lemma AlignedAtom(p: Pattern, i: nat)
    requires i < |p| && (p[i] == '\\' ==> i + 1 < |p| && Aligned(p, i + 2))
    requires p[i] != '\\' || p[i + 1] != '\\' ==> Aligned(p, i + 1)
    ensures !AtomAt(p, i).Stray?
    ensures AtomAt(p, i).Token? ==> Aligned(p, AtomAt(p, i).next)
  {
    hide Inside, ScanEnd, Aligned, Tail, Escapable;
    BackslashEscapable();
    if p[i] == '[' && ScanEnd(p, i + 1) < |p| { AlignedBehind(p, ScanEnd(p, i + 1)); }
  }

  lemma {:induction false} AlignedLegal(p: Pattern, i: nat, anchor: bool, d: nat)
    requires Tail(p) % 2 == 0 && Aligned(p, i)
    ensures Legal(p, i, anchor, d)
    decreases |p| - i
  {
    hide AtomAt, QuantAt, Aligned, Tail;
    if i < |p| {
      AlignedNext(p, i);
      match ItemAt(p, i, anchor, d > 0)
      case Finish =>
      case Leave => AlignedLegal(p, i + 1, false, d - 1);
      case Start => AlignedLegal(p, i + 1, false, d);
      case Stop => AlignedLegal(p, i + 1, false, d);
      case Enter => AlignedLegal(p, i + 1, true, d + 1);
      case Broken =>
      case Lone =>
      case Item(_, q, n) =>
        AlignedLegal(p, n, true, d);
        AlignedLegal(p, n, false, d);
    }
  }

  /** A pattern whose trailing backslashes are even in number is legal. */
  lemma EvenLegal(p: Pattern)
    requires Tail(p) % 2 == 0
    ensures Legal(p, 0, true, 0)
  {
    AlignedLegal(p, 0, true, 0);
  }

  // ----- the matcher -----

  /** `matcher.matchFunc`: the match function and its data for the atom at `i`. */
  datatype Matcher = MatchDot | MatchChar(c: char) | MatchSet(s: nat, e: nat)

  /** The atom that a matcher stands for. */
  function AtomOf(p: Pattern, m: Matcher): Atom
    requires m.MatchSet? ==> Bracket(p, m.s, m.e)
  {
    match m
    case MatchDot => Any
    case MatchChar(c) => Lit(c)
    case MatchSet(s, e) => Set(p[s] == '^', Inside(p, s, e))
  }

  method CallMatcher(p: Pattern, m: Matcher, c: char, mode: Mode) returns (r: bool)
    requires m.MatchSet? ==> Bracket(p, m.s, m.e)
    ensures r == Accepts(AtomOf(p, m), c, mode)
  {
    match m
    case MatchDot => r := true;
    case MatchChar(d) => r := SameChar(d, c, mode);
    case MatchSet(s, e) => r := MatchSquares(p, s, e, c, mode);
  }

  /** The chain of tests that builds the matcher and moves the cursor behind the atom. */
  method ReadAtom(p: Pattern, i: nat) returns (ok: bool, m: Matcher, n: nat)
    requires i < |p| && !AtomAt(p, i).Stray?
    ensures ok ==> i < n <= |p| && (m.MatchSet? ==> Bracket(p, m.s, m.e)) && AtomAt(p, i) == Token(AtomOf(p, m), n)
    ensures !ok ==> AtomAt(p, i).Unclosed?
  {
    ok, m, n := true, MatchChar(p[i]), i + 1;
    if p[i] == '.' {
      m := MatchDot;
    } else if p[i] == '\\' && Escapable(p[i + 1]) {
      m, n := MatchChar(p[i + 1]), i + 2;
    } else if p[i] == '\\' && p[i + 1] == 't' {
      m, n := MatchChar('\t'), i + 2;
    } else if p[i] == '[' {
      var e := i + 1;
      while e < |p| && p[e] != ']'
        invariant i < e <= |p| && ScanEnd(p, e) == ScanEnd(p, i + 1)
      {
        if p[e] == '\\' && At(p, e + 1) == ']' { e := e + 1; }
        e := e + 1;
      }
      if e == |p| { ok := false; } else { m, n := MatchSet(i + 1, e), e + 1; }
    }
  }

  /** How the matcher reports a search that began at line position `j` and pattern position
      `needle`: the head of `all`, if there is one.  In a group, `out` is where the pattern
      goes on. */
  ghost predicate Reports(p: Pattern, needle: nat, d: nat, all: seq<Hit>, j: nat, ok: bool, len: nat, out: nat) {
    if all == [] then !ok
    else
      ok && j + len == all[0].end &&
      (d > 0 ==> needle < out <= |p| && Legal(p, out, false, d - 1) && all[0].rest == Parse(p, out, false, d - 1))
  }

  /** The line in front of the last byte of `text`. */
  ghost function LineOf(text: seq<char>, mode: Mode): Text
    requires 0 < |text|
  {
    Text(text[..|text| - 1], mode)
  }

  /** `regex_matches`.  `text` is the line with the byte that follows it; the result is
      stated over the line alone, so that byte never matters. */
  method RegexMatches(text: seq<char>, p: Pattern, mode: Mode, j: nat, needle: nat, inGroup: bool, ghost d: nat)
    returns (ok: bool, len: nat, out: nat)
    requires 0 < |text| && j <= |text| && inGroup == (d > 0)
    requires needle <= |p| && Legal(p, needle, true, d)
    ensures Reports(p, needle, d, LineOf(text, mode).All(Parse(p, needle, true, d), j), j, ok, len, out)
    decreases |p| - needle, 2
  {
    hide Parse, Legal, Text.All;
    ghost var t := LineOf(text, mode);
    ghost var all := t.All(Parse(p, needle, true, d), j);
    ParsePlain(p, needle, d);
    LegalPlain(p, needle, d);
    t.AllPlain(Parse(p, needle, true, d), j);
    var k, i := j, needle;
    ok, len, out := false, 0, 0;
    if At(p, i) == '^' {
      if j != 0 { return; }
      i := i + 1;
    }
    while k < |text|
      invariant j <= k <= |text| && needle <= i <= |p| && Legal(p, i, false, d)
      invariant t.All(Parse(p, i, false, d), k) == all
      decreases |p| - i
    {
      var done;
      done, ok, len, out, i, k := Round(text, p, mode, j, k, i, inGroup, d);
      if done { return; }
    }
    t.AllPlain(Parse(p, i, false, d), k);
    return false, 0, 0;
  }

  /** One round of the loop of `regex_matches`: either the search is over (`done`) or it
      goes on from pattern position `i'` and line position `k'`. */
  method Round(text: seq<char>, p: Pattern, mode: Mode, j: nat, k: nat, i: nat, inGroup: bool, ghost d: nat)
    returns (done: bool, ok: bool, len: nat, out: nat, i': nat, k': nat)
    requires j <= k < |text| && inGroup == (d > 0)
    requires i <= |p| && Legal(p, i, false, d)
    ensures done ==> Reports(p, i, d, LineOf(text, mode).All(Parse(p, i, false, d), k), j, ok, len, out)
    ensures !done ==> i < i' <= |p| && Legal(p, i', false, d) && k <= k' <= |text|
    ensures !done ==> LineOf(text, mode).All(Parse(p, i', false, d), k') == LineOf(text, mode).All(Parse(p, i, false, d), k)
    decreases |p| - i, 1
  {
    hide Parse, Legal, Text.All, Size;
    ghost var t := LineOf(text, mode);
    var actual := |text| - 1;
    ParsePlain(p, i, d);
    LegalPlain(p, i, d);
    t.AllPlain(Parse(p, i, false, d), k);
    done, ok, len, out, i', k' := true, false, 0, 0, i, k;
    if i == |p| {
      ok, len := !inGroup, k - j;
      return;
    }
    if inGroup && p[i] == ')' {
      ok, len, out := true, k - j, i + 1;
    } else if p[i] == '$' {
      if k == actual { done, i' := false, i + 1; }
    } else if p[i] == '(' {
      var gok, glen, gout := RegexMatches(text, p, mode, k, i + 1, true, d + 1);
      if gok { done, i', k' := false, gout, k + glen; }
    } else {
      done, ok, len, out, i', k' := MatchItem(text, p, mode, j, k, i, inGroup, d);
    }
  }

  /** The part of a round that deals with a quantified atom. */
  method MatchItem(text: seq<char>, p: Pattern, mode: Mode, j: nat, k: nat, i: nat, inGroup: bool, ghost d: nat)
    returns (done: bool, ok: bool, len: nat, out: nat, i': nat, k': nat)
    requires j <= k < |text| && inGroup == (d > 0)
    requires i < |p| && Legal(p, i, false, d)
    requires !(inGroup && p[i] == ')') && p[i] != '$' && p[i] != '('
    ensures done ==> Reports(p, i, d, LineOf(text, mode).All(Parse(p, i, false, d), k), j, ok, len, out)
    ensures !done ==> i < i' <= |p| && Legal(p, i', false, d) && k <= k' <= |text|
    ensures !done ==> LineOf(text, mode).All(Parse(p, i', false, d), k') == LineOf(text, mode).All(Parse(p, i, false, d), k)
    decreases |p| - i, 0
  {
    hide Parse, Legal, Text.All, AtomAt, Accepts;
    ghost var t := LineOf(text, mode);
    ParseItem(p, i, d);
    t.AllPlain(Parse(p, i, false, d), k);
    done, ok, len, out, i', k' := true, false, 0, 0, i, k;
    var aok, m, n := ReadAtom(p, i);
    if !aok { return; }
    if At(p, n) == '\\' && At(p, n + 1) == '?' {
      ok, len, out := TryTaken(text, p, mode, j, k, m, n + 2, inGroup, d);
      if !ok { done, i' := false, n + 2; }
    } else if (At(p, n) == '\\' && At(p, n + 1) == '+') || At(p, n) == '*' {
      ok, len, out := MatchRepeat(text, p, mode, j, k, m, n, inGroup, d);
    } else {
      t.AllPlain(Parse(p, n, false, d), k + 1);
      var fits := CallMatcher(p, m, text[k], mode);
      if fits { done, i', k' := false, n, k + 1; }
    }
  }

  /** The first alternative of `\?`: the atom is there. */
  method TryTaken(text: seq<char>, p: Pattern, mode: Mode, j: nat, k: nat, m: Matcher, n: nat, inGroup: bool, ghost d: nat)
    returns (ok: bool, len: nat, out: nat)
    requires j <= k < |text| && inGroup == (d > 0)
    requires n <= |p| && Legal(p, n, true, d)
    requires m.MatchSet? ==> Bracket(p, m.s, m.e)
    ensures var t := LineOf(text, mode);
            var all := t.All(Opt(AtomOf(p, m), Parse(p, n, true, d), Parse(p, n, false, d)), k);
            if ok then Reports(p, n, d, all, j, ok, len, out) else all == t.All(Parse(p, n, false, d), k)
    decreases |p| - n, 4
  {
    hide Parse, Legal, Text.All, Accepts, Size;
    ghost var t := LineOf(text, mode);
    t.AllOpt(AtomOf(p, m), Parse(p, n, true, d), Parse(p, n, false, d), k);
    t.AllPlain(Parse(p, n, true, d), k + 1);
    ok, len, out := false, 0, 0;
    var fits := CallMatcher(p, m, text[k], mode);
    if fits {
      ok, len, out := RegexMatches(text, p, mode, k + 1, n, inGroup, d);
      len := len + k + 1 - j;
    }
  }

  /** The `*` and `\+` branch of `regex_matches`, with the quantifier written at `n`: run
      forward, then back off. */
  method MatchRepeat(text: seq<char>, p: Pattern, mode: Mode, j: nat, k: nat, m: Matcher, n: nat, inGroup: bool, ghost d: nat)
    returns (ok: bool, len: nat, out: nat)
    requires j <= k < |text| && inGroup == (d > 0)
    requires n <= |p| && Restarts(QuantAt(p, n).0) && Legal(p, QuantAt(p, n).1, true, d)
    requires m.MatchSet? ==> Bracket(p, m.s, m.e)
    ensures var t := LineOf(text, mode);
            var rest := Parse(p, QuantAt(p, n).1, true, d);
            var re := if QuantAt(p, n).0.AnyTimes? then Star(AtomOf(p, m), rest) else Plus(AtomOf(p, m), rest);
            Reports(p, n, d, t.All(re, k), j, ok, len, out)
    decreases |p| - n, 0
  {
    hide Parse, Legal, Text.All, Text.Down, Text.RunEnd, Accepts, Size;
    ghost var t := LineOf(text, mode);
    ok, len, out := false, 0, 0;
    if At(p, n) == '\\' {
      t.PlusFrom(AtomOf(p, m), Parse(p, n + 2, true, d), k);
      var fits := CallMatcher(p, m, text[k], mode);
      if fits {
        var q := RunForward(text, p, mode, m, k + 1);
        ok, len, out := BackOff(text, p, mode, j, k + 1, q, n + 2, inGroup, d);
      }
    } else {
      t.StarFrom(AtomOf(p, m), Parse(p, n + 1, true, d), k);
      var q := RunForward(text, p, mode, m, k);
      ok, len, out := BackOff(text, p, mode, j, k, q, n + 1, inGroup, d);
    }
  }

  /** Where backing off starts: the first character that does not match, or one position
      past the end of the line. */
  method RunForward(text: seq<char>, p: Pattern, mode: Mode, m: Matcher, k: nat) returns (q: nat)
    requires 0 < |text| && k <= |text|
    requires m.MatchSet? ==> Bracket(p, m.s, m.e)
    ensures q == LineOf(text, mode).Top(AtomOf(p, m), k) && k <= q <= |text|
  {
    ghost var t := LineOf(text, mode);
    ghost var a := AtomOf(p, m);
    var actual := |text| - 1;
    q := k;
    while q < actual + 1
      invariant k <= q <= |text|
      invariant q <= actual ==> t.RunEnd(a, q) == t.RunEnd(a, k)
      invariant q == |text| && k <= actual ==> t.RunEnd(a, k) == actual
    {
      if q < actual {
        var fits := CallMatcher(p, m, text[q], mode);
        if !fits { break; }
      }
      q := q + 1;
    }
  }

  /** Try the rest of the pattern from `from` down to `k`. */
  method BackOff(text: seq<char>, p: Pattern, mode: Mode, j: nat, k: nat, from: nat, n: nat, inGroup: bool, ghost d: nat)
    returns (ok: bool, len: nat, out: nat)
    requires 0 < |text| && j <= k <= from <= |text| && inGroup == (d > 0)
    requires n <= |p| && Legal(p, n, true, d)
    ensures Reports(p, n, d, LineOf(text, mode).Down(Parse(p, n, true, d), k, from), j, ok, len, out)
    decreases |p| - n, 3
  {
    hide Parse, Legal, Text.All;
    ghost var t := LineOf(text, mode);
    ghost var r := Parse(p, n, true, d);
    var q: int := from;
    while q >= k
      invariant k - 1 <= q <= from
      invariant t.Down(r, k, from) == if q < k then [] else t.Down(r, k, q)
    {
      ok, len, out := RegexMatches(text, p, mode, q, n, inGroup, d);
      if ok {
        len := len + q - j;
        return;
      }
      q := q - 1;
    }
    ok, len, out := false, 0, 0;
  }
}
