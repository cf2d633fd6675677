/**
  Single characters and bracket sets of grep's patterns.  Positions are indices
  into the pattern; index |p| stands for the terminating NUL of the C string.
 */
module GrepChars {

  /** A C string: no embedded NUL. */
  type Pattern = p: seq<char> | '\0' !in p

  /** `ignoreCase` is -i; `signedChar` says whether plain `char` is signed on the target. */
  datatype Mode = Mode(ignoreCase: bool, signedChar: bool)

  function Lower(c: char): char {
    if 'A' <= c <= 'Z' then c - 'A' + 'a' else c
  }

  /** The number a C `char` compares as. */
  function Code(c: char, mode: Mode): int {
    var d := if mode.ignoreCase then Lower(c) else c;
    if mode.signedChar && 128 <= d as int < 256 then d as int - 256 else d as int
  }

  predicate SameChar(a: char, b: char, mode: Mode) {
    Code(a, mode) == Code(b, mode)
  }

  // ----- when characters are the same -----

  const UPPER := "ABCDEFGHIJKLMNOPQRSTUVWXYZ"
  const LOWER := "abcdefghijklmnopqrstuvwxyz"

  /** a is the capital of the small letter b. */
  predicate Capital(a: char, b: char) {
    exists i :: 0 <= i < 26 && a == UPPER[i] && b == LOWER[i]
  }

  /** The same character, or with -i one letter in its two cases. */
  predicate Alike(a: char, b: char, ignoreCase: bool) {
    a == b || (ignoreCase && (Capital(a, b) || Capital(b, a)))
  }

  /** Where `char` is signed, the bytes from 128 on come before all others. */
  predicate InOrder(a: char, b: char, signedChar: bool) {
    var high, low := 128 <= a as int < 256, 128 <= b as int < 256;
    if signedChar && high != low then high else a <= b
  }

  /** a does not come behind b; with -i a capital counts as its small letter. */
  ghost predicate Precedes(a: char, b: char, mode: Mode) {
    exists x: char, y: char :: Counts(a, x, mode.ignoreCase) && Counts(b, y, mode.ignoreCase) && InOrder(x, y, mode.signedChar)
  }

  /** a counts as x: it is x, or with -i x is the small letter of a. */
  predicate Counts(a: char, x: char, ignoreCase: bool) {
    if ignoreCase && a in UPPER then Capital(a, x) else a == x
  }

  lemma Letters(i: nat)
    requires i < 26
    ensures UPPER[i] == 'A' + i as char && LOWER[i] == 'a' + i as char
  {
  }

  lemma CapitalIff(a: char, b: char)
    ensures Capital(a, b) <==> 'A' <= a <= 'Z' && b == Lower(a)
    ensures a in UPPER <==> 'A' <= a <= 'Z'
  {
    forall i: nat | i < 26 ensures UPPER[i] == 'A' + i as char && LOWER[i] == 'a' + i as char { Letters(i); }
    if 'A' <= a <= 'Z' {
      var i := (a - 'A') as int;
      assert UPPER[i] == a && LOWER[i] == Lower(a);
    }
  }

  lemma CountsLower(a: char, x: char, ignoreCase: bool)
    ensures Counts(a, x, ignoreCase) <==> x == if ignoreCase then Lower(a) else a
  {
    hide Capital;
    CapitalIff(a, x);
  }

  /** Without -i characters are the same only if they are equal; with -i also the two cases of a letter. */
  lemma SameIff(a: char, b: char, mode: Mode)
    ensures SameChar(a, b, mode) <==> Alike(a, b, mode.ignoreCase)
  {
    hide Capital;
    CapitalIff(a, b);
    CapitalIff(b, a);
  }

  /** The order that ranges go by: for ASCII without -i it is that of the codes. */
  lemma PrecedesIff(a: char, b: char, mode: Mode)
    ensures Code(a, mode) <= Code(b, mode) <==> Precedes(a, b, mode)
    ensures !mode.ignoreCase && (!mode.signedChar || (a < '\U{80}' && b < '\U{80}')) ==> (Precedes(a, b, mode) <==> a <= b)
  {
    hide Counts;
    forall c: char, x: char ensures Counts(c, x, mode.ignoreCase) <==> x == if mode.ignoreCase then Lower(c) else c {
      CountsLower(c, x, mode.ignoreCase);
    }
    var x, y := if mode.ignoreCase then Lower(a) else a, if mode.ignoreCase then Lower(b) else b;
    assert Counts(a, x, mode.ignoreCase) && Counts(b, y, mode.ignoreCase);
    assert Precedes(a, b, mode) <==> InOrder(x, y, mode.signedChar);
  }

  function At(p: seq<char>, i: nat): char {
    if i < |p| then p[i] else '\0'
  }

  // ----- bracket sets -----

  /** The `]` that closes a bracket opened just before `i`, or |p| when there is none. */
  function ScanEnd(p: seq<char>, i: nat): (e: nat)
    requires i <= |p|
    ensures i <= e <= |p|
    ensures e < |p| ==> p[e] == ']'
    // the scan never stops right behind a backslash
    ensures i < e < |p| ==> p[e - 1] != '\\'
    decreases |p| - i
  {
    if i == |p| || p[i] == ']' then i
    else if p[i] == '\\' && At(p, i + 1) == ']' then ScanEnd(p, i + 2)
    else ScanEnd(p, i + 1)
  }

  /** An inclusive range; a single character is the range from itself to itself. */
  datatype Range = Range(lo: char, hi: char)

  predicate InRange(c: char, r: Range, mode: Mode) {
    Code(r.lo, mode) <= Code(c, mode) <= Code(r.hi, mode)
  }

  /** One possibly escaped set character at `t`, and the position behind it. */
  function SetChar(p: seq<char>, t: nat): (r: (char, nat))
    requires t < |p|
    ensures t < r.1 <= |p|
  {
    if p[t] == '\\' && At(p, t + 1) in "\\]" then (p[t + 1], t + 2)
    else if p[t] == '\\' && At(p, t + 1) == 't' then ('\t', t + 2)
    else (p[t], t + 1)
  }

  /** p[s..e] is the inside of a bracket that the scan delimited. */
  predicate Bracket(p: Pattern, s: nat, e: nat) {
    s <= e < |p| && p[e] == ']' && (s < e ==> p[e - 1] != '\\')
  }

  /** The ranges listed in p[t..e]; `dangling` when the list breaks off behind a dash. */
  datatype Listing = Listing(ranges: seq<Range>, dangling: bool)

  function Prepend(r: Range, l: Listing): Listing {
    Listing([r] + l.ranges, l.dangling)
  }

  function Ranges(p: Pattern, t: nat, e: nat): Listing
    requires Bracket(p, t, e)
    decreases e - t
  {
    if t == e then Listing([], false)
    else
      var (lo, t1) := SetChar(p, t);
      if At(p, t1) != '-' then
        Prepend(Range(lo, lo), Ranges(p, t1, e))
      else if t1 + 1 == e then Listing([], true)
      else
        var (hi, t2) := SetChar(p, t1 + 1);
        Prepend(Range(lo, hi), Ranges(p, t2, e))
  }

  predicate InSome(c: char, rs: seq<Range>, mode: Mode) {
    exists i :: 0 <= i < |rs| && InRange(c, rs[i], mode)
  }

  /** Verdict of a listing: its ranges decide, and one that breaks off behind a dash
      accepts nothing its complete ranges do not. */
  predicate Verdict(l: Listing, negated: bool, c: char, mode: Mode) {
    if InSome(c, l.ranges, mode) then !negated else negated && !l.dangling
  }

  /** The listing inside a bracket; a leading `^` negates and is not part of it. */
  function Inside(p: Pattern, s: nat, e: nat): Listing
    requires Bracket(p, s, e)
  {
    Ranges(p, if p[s] == '^' then s + 1 else s, e)
  }

  lemma VerdictStep(r: Range, l: Listing, negated: bool, c: char, mode: Mode)
    ensures Verdict(Prepend(r, l), negated, c, mode) ==
            if InRange(c, r, mode) then !negated else Verdict(l, negated, c, mode)
  {
    var rs := [r] + l.ranges;
    if InRange(c, r, mode) {
      assert InRange(c, rs[0], mode);
    }
    if InSome(c, l.ranges, mode) {
      var i :| 0 <= i < |l.ranges| && InRange(c, l.ranges[i], mode);
      assert InRange(c, rs[i + 1], mode);
    }
  }

  /** The listing from `t`, one entry at a time. */
  lemma RangesStep(p: Pattern, t: nat, e: nat)
    requires Bracket(p, t, e) && t < e
    ensures var (lo, t1) := SetChar(p, t);
            if At(p, t1) != '-' then
              t1 <= e && Ranges(p, t, e) == Prepend(Range(lo, lo), Ranges(p, t1, e))
            else if t1 + 1 == e then
              Ranges(p, t, e) == Listing([], true)
            else
              var (hi, t2) := SetChar(p, t1 + 1);
              t2 <= e && Ranges(p, t, e) == Prepend(Range(lo, hi), Ranges(p, t2, e))
  {
  }

  /** The two places where `match_squares` reads a possibly escaped character. */
  method ReadSetChar(p: Pattern, t: nat) returns (c: char, t': nat)
    requires t < |p|
    ensures (c, t') == SetChar(p, t)
  {
    c, t' := p[t], t + 1;
    if c == '\\' && At(p, t') in "\\]" {
      c, t' := p[t'], t' + 1;
    } else if c == '\\' && At(p, t') == 't' {
      c, t' := '\t', t' + 1;
    }
  }

  /** `match_squares`: walks the bracket with a cursor that stops exactly at its end. */
  method MatchSquares(p: Pattern, s: nat, e: nat, c: char, mode: Mode) returns (r: bool)
    requires Bracket(p, s, e)
    ensures r == Verdict(Inside(p, s, e), p[s] == '^', c, mode)
  {
    var t, good := s, true;
    if p[t] == '^' { t, good := t + 1, false; }
    while t != e
      invariant t <= e && Bracket(p, t, e)
      invariant Verdict(Inside(p, s, e), p[s] == '^', c, mode) == Verdict(Ranges(p, t, e), !good, c, mode)
    {
      RangesStep(p, t, e);
      hide Ranges, Verdict, Code;
      var lo, t1 := ReadSetChar(p, t);
      if At(p, t1) == '-' {
        if t1 + 1 == e { return false; }
        var hi, t2 := ReadSetChar(p, t1 + 1);
        VerdictStep(Range(lo, hi), Ranges(p, t2, e), !good, c, mode);
        if InRange(c, Range(lo, hi), mode) { return good; }
        t := t2;
      } else {
        VerdictStep(Range(lo, lo), Ranges(p, t1, e), !good, c, mode);
        if SameChar(c, lo, mode) { return good; }
        t := t1;
      }
    }
    return !good;
  }
}
