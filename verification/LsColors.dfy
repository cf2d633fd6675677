/**
  ls: how LS_COLORS is parsed into one buffer, no longer than the variable itself, that all the
  colour tables point into.
 */
module LsColors {
  import opened Common

  /** The value of an environment variable. */
  type Text = s: string | '\0' !in s

  // ----- the language of the variable -----

  function At(s: Text, i: nat): char {
    if i < |s| then s[i] else '\0'
  }

  predicate Octal(c: char) { '0' <= c <= '7' }

  predicate Hex(c: char) { '0' <= c <= '9' || 'a' <= c <= 'f' || 'A' <= c <= 'F' }

  function HexDigit(c: char): nat
    requires Hex(c)
  {
    if c <= '9' then (c - '0') as nat else if c <= 'F' then (c - 'A') as nat + 10 else (c - 'a') as nat + 10
  }

  /** The longest run of octal digits from `i`, with its value on top of `n`. */
  function OctalRun(s: Text, i: nat, n: nat): (r: (nat, nat))
    requires i <= |s|
    ensures i <= r.1 <= |s| && (i < |s| && Octal(s[i]) ==> i < r.1)
    decreases |s| - i
  {
    if i < |s| && Octal(s[i]) then OctalRun(s, i + 1, 8 * n + (s[i] - '0') as nat) else (n, i)
  }

  function HexRun(s: Text, i: nat, n: nat): (r: (nat, nat))
    requires i <= |s|
    ensures i <= r.1 <= |s|
    decreases |s| - i
  {
    if i < |s| && Hex(s[i]) then HexRun(s, i + 1, 16 * n + HexDigit(s[i])) else (n, i)
  }

  /** A value stored in a `char` keeps its low byte. */
  function Low(n: nat): char { (n % 256) as char }

  /** What a letter behind a backslash stands for. */
  function Named(c: char): char {
    if c == 'a' then 7 as char else if c == 'b' then 8 as char else if c == 'e' then 27 as char
    else if c == 'f' then 12 as char else if c == 'n' then 10 as char else if c == 'r' then 13 as char
    else if c == 't' then 9 as char else if c == 'v' then 11 as char else if c == '?' then 127 as char
    else if c == '_' then ' ' else c
  }

  /** Text that was read: the characters it stands for, and where it ended. */
  datatype Piece = Piece(out: string, next: nat)

  /** One character or escape; the output never outgrows the input. */
  function EscapeOne(s: Text, i: nat): (p: Piece)
    requires i < |s|
    ensures i < p.next <= |s| && |p.out| <= 1
  {
    if s[i] == '\\' then
      if i + 1 == |s| then Piece("", i + 1)
      else if Octal(s[i + 1]) then var r := OctalRun(s, i + 1, 0); Piece([Low(r.0)], r.1)
      else if s[i + 1] == 'x' then var r := HexRun(s, i + 2, 0); Piece([Low(r.0)], r.1)
      else Piece([Named(s[i + 1])], i + 2)
    else if s[i] == '^' then
      if At(s, i + 1) == '?' then Piece([127 as char], i + 2)
      else if '@' <= At(s, i + 1) <= '~' then Piece([Low(At(s, i + 1) as nat % 32)], i + 2)
      else Piece("^", i + 1)
    else Piece([s[i]], i + 1)
  }

  predicate Stops(s: Text, i: nat, eqEnds: bool) {
    i >= |s| || s[i] == ':' || (eqEnds && s[i] == '=')
  }

  function Escaped(s: Text, i: nat, eqEnds: bool): (p: Piece)
    requires i <= |s|
    ensures i <= p.next <= |s| && |p.out| <= p.next - i && Stops(s, p.next, eqEnds)
    ensures i < |s| && !Stops(s, i, eqEnds) ==> i < p.next
    decreases |s| - i
  {
    if Stops(s, i, eqEnds) then Piece("", i)
    else
      var one := EscapeOne(s, i);
      var more := Escaped(s, one.next, eqEnds);
      Piece(one.out + more.out, more.next)
  }

  function Plain(s: Text, i: nat): (p: Piece)
    requires i <= |s|
    ensures i <= p.next <= |s| && |p.out| == p.next - i && Stops(s, p.next, true)
    decreases |s| - i
  {
    if Stops(s, i, true) then Piece("", i)
    else var more := Plain(s, i + 1); Piece([s[i]] + more.out, more.next)
  }

  /** The left side of an entry, if there is one. */
  datatype Head = Skip(next: nat) | Type(name: string, next: nat)

  function HeadAt(s: Text, c: nat): (h: Head)
    requires c < |s|
    ensures c < h.next <= |s|
    ensures h.Type? ==> |h.name| + 1 <= h.next - c && s[c] != ':'
  {
    if s[c] == ':' then Skip(c + 1)
    else
      var p := if s[c] == '*' then Escaped(s, c, true) else Plain(s, c);
      if p.next == |s| then Skip(|s|) else if s[p.next] != '=' then Skip(p.next + 1) else Type(p.out, p.next + 1)
  }

  datatype Value = Value(text: Option<string>, next: nat)

  function ValueAt(s: Text, c: nat): (v: Value)
    requires c <= |s|
    ensures c <= v.next <= |s|
    ensures v.text.Some? ==> |v.text.value| <= v.next - c && Stops(s, v.next, false)
    ensures v.text.None? ==> c < v.next
  {
    if At(s, c) == ':' then Value(None, c + 1) else var p := Escaped(s, c, false); Value(Some(p.out), p.next)
  }

  datatype Entry = Entry(name: string, color: Option<string>)

  /** The entries of the variable, in order. */
  function Entries(s: Text, c: nat): seq<Entry>
    requires c <= |s|
    decreases |s| - c
  {
    if c == |s| then []
    else
      var h := HeadAt(s, c);
      if h.Skip? then Entries(s, h.next)
      else var v := ValueAt(s, h.next); [Entry(h.name, v.text)] + Entries(s, v.next)
  }

  // ----- the tables -----

  /** A string as C sees it. */
  function CString(t: string): string {
    if t == "" || t[0] == '\0' then "" else [t[0]] + CString(t[1..])
  }

  function CStringOf(t: Option<string>): Option<string> {
    if t.None? then None else Some(CString(t.value))
  }

  /** The place of a name in the table of base colours; past the end when it is not there. */
  function Find(names: seq<string>, t: string): (k: nat)
    ensures k <= |names| && (k < |names| ==> names[k] == t)
  {
    if names == [] || names[0] == t then 0 else 1 + Find(names[1..], t)
  }

  datatype Tables = Tables(base: seq<Option<string>>, matches: seq<(string, Option<string>)>)

  /** One entry takes effect. */
  function Apply(names: seq<string>, t: Tables, e: Entry): (r: Tables)
    requires |t.base| == |names|
    ensures |r.base| == |names|
  {
    var name, color := CString(e.name), CStringOf(e.color);
    if name != "" && name[0] == '*' then t.(matches := [(name[1..], color)] + t.matches)
    else
      var k := Find(names, name);
      if k < |names| then t.(base := t.base[k := color]) else t
  }

  function ApplyAll(names: seq<string>, t: Tables, es: seq<Entry>): (r: Tables)
    requires |t.base| == |names|
    ensures |r.base| == |names|
    decreases |es|
  {
    if es == [] then t else ApplyAll(names, Apply(names, t, es[0]), es[1..])
  }

  // ----- writing a variable -----

  predicate Special(c: char) { c == ':' || c == '=' || c == '\\' || c == '^' }

  /** A text with its special characters escaped. */
  function Show(t: string): string {
    if t == "" then "" else (if Special(t[0]) then ['\\', t[0]] else [t[0]]) + Show(t[1..])
  }

  predicate Wild(name: string) { name != "" && name[0] == '*' }

  function ShowName(name: string): string { if Wild(name) then Show(name) else name }

  function ShowColor(color: Option<string>): string {
    if color.None? then ":" else Show(color.value) + ":"
  }

  function ShowEntry(e: Entry): string {
    ShowName(e.name) + "=" + ShowColor(e.color)
  }

  function ShowAll(es: seq<Entry>): string {
    if es == [] then "" else ShowEntry(es[0]) + ShowAll(es[1..])
  }

  /** Entries that can be written: a name that is no wildcard cannot be escaped, and an empty colour
      reads as none. */
  predicate Writable(e: Entry) {
    && '\0' !in e.name
    && (Wild(e.name) || (':' !in e.name && '=' !in e.name))
    && (e.color.Some? ==> e.color.value != "" && '\0' !in e.color.value)
  }

  /** `t` stands in `s` at `i`. */
  predicate Stands(s: string, i: nat, t: string) {
    i + |t| <= |s| && s[i..i + |t|] == t
  }

  lemma StandsSplit(s: string, i: nat, a: string, b: string)
    requires Stands(s, i, a + b)
    ensures Stands(s, i, a) && Stands(s, i + |a|, b)
  {
    var t := a + b;
    assert s[i..i + |a|] == s[i..i + |t|][..|a|] == a;
    assert s[i + |a|..i + |a| + |b|] == s[i..i + |t|][|a|..] == b;
  }

  lemma {:induction false} EscapedBack(s: Text, i: nat, t: string, eqEnds: bool)
    requires Stands(s, i, Show(t)) && Stops(s, i + |Show(t)|, eqEnds)
    ensures Escaped(s, i, eqEnds) == Piece(t, i + |Show(t)|)
    decreases |t|
  {
    hide EscapeOne, Stops, Stands, Special;
    if t != "" {
      var one := if Special(t[0]) then ['\\', t[0]] else [t[0]];
      assert Show(t) == one + Show(t[1..]);
      StandsSplit(s, i, one, Show(t[1..]));
      OneBack(s, i, t[0]);
      EscapedBack(s, i + |one|, t[1..], eqEnds);
      assert [t[0]] + t[1..] == t;
    }
  }

  lemma OneBack(s: Text, i: nat, c: char)
    requires Stands(s, i, if Special(c) then ['\\', c] else [c])
    ensures !Stops(s, i, true) && !Stops(s, i, false)
    ensures EscapeOne(s, i) == Piece([c], i + if Special(c) then 2 else 1)
  {
    assert s[i] == s[i..i + 1][0];
    if Special(c) {
      assert s[i] == s[i..i + 2][0] && s[i + 1] == s[i..i + 2][1];
    }
  }

  lemma {:induction false} PlainBack(s: Text, i: nat, t: string)
    requires Stands(s, i, t) && ':' !in t && '=' !in t && Stops(s, i + |t|, true)
    ensures Plain(s, i) == Piece(t, i + |t|)
    decreases |t|
  {
    if t != "" {
      assert [t[0]] + t[1..] == t;
      StandsSplit(s, i, [t[0]], t[1..]);
      assert s[i] == s[i..i + 1][0];
      PlainBack(s, i + 1, t[1..]);
    }
  }

  lemma {:induction false} EntriesBack(s: Text, c: nat, es: seq<Entry>)
    requires Stands(s, c, ShowAll(es)) && c + |ShowAll(es)| == |s|
    requires forall e :: e in es ==> Writable(e)
    ensures Entries(s, c) == es
    decreases |es|
  {
    hide HeadAt, ValueAt, ShowEntry;
    if es != [] {
      var e := es[0];
      StandsSplit(s, c, ShowEntry(e), ShowAll(es[1..]));
      EntryBack(s, c, e);
      var d := c + |ShowEntry(e)|;
      EntriesBack(s, d, es[1..]);
      assert es == [e] + es[1..];
    }
  }

  /** One written entry is parsed into itself; the colon behind a colour is left to be skipped. */
  lemma EntryBack(s: Text, c: nat, e: Entry)
    requires Stands(s, c, ShowEntry(e)) && Writable(e)
    ensures Entries(s, c) == [e] + Entries(s, c + |ShowEntry(e)|)
  {
    hide HeadAt, ValueAt, Stands, ShowName, ShowColor;
    var n, v := ShowName(e.name), ShowColor(e.color);
    StandsSplit(s, c, n + "=", v);
    StandsSplit(s, c, n, "=");
    NameBack(s, c, e.name);
    ColorBack(s, c + |n| + 1, e.color);
  }

  lemma ColorBack(s: Text, d: nat, color: Option<string>)
    requires Stands(s, d, ShowColor(color)) && (color.Some? ==> color.value != "")
    ensures d <= |s| && ValueAt(s, d).text == color
    ensures Entries(s, ValueAt(s, d).next) == Entries(s, d + |ShowColor(color)|)
  {
    hide Escaped, Plain, Show;
    if color.None? {
      assert s[d] == s[d..d + 1][0] == ':';
    } else {
      var t := Show(color.value);
      StandsSplit(s, d, t, ":");
      assert s[d + |t|] == s[d + |t|..d + |t| + 1][0] == ':';
      ShowFirst(color.value);
      assert s[d] == s[d..d + |t|][0];
      EscapedBack(s, d, color.value, false);
      assert HeadAt(s, d + |t|) == Skip(d + |t| + 1);
    }
  }

  lemma ShowFirst(t: string)
    requires t != ""
    ensures |Show(t)| > 0 && Show(t)[0] != ':'
    ensures t[0] == '*' ==> Show(t)[0] == '*'
  {
  }

  lemma NameBack(s: Text, c: nat, name: string)
    requires Wild(name) || (':' !in name && '=' !in name)
    requires Stands(s, c, ShowName(name)) && Stands(s, c + |ShowName(name)|, "=")
    ensures HeadAt(s, c) == Type(name, c + |ShowName(name)| + 1)
  {
    hide Escaped, Plain, Show;
    var n := ShowName(name);
    assert s[c + |n|] == s[c + |n|..c + |n| + 1][0] == '=';
    if Wild(name) {
      ShowFirst(name);
      assert s[c] == s[c..c + |n|][0];
      EscapedBack(s, c, name, true);
    } else {
      if name != "" { assert s[c] == s[c..c + |n|][0]; }
      PlainBack(s, c, name);
    }
  }

  lemma {:induction false} ShowClean(t: string)
    requires '\0' !in t
    ensures '\0' !in Show(t)
  {
    if t != "" { ShowClean(t[1..]); }
  }

  lemma {:induction false} ShowAllClean(es: seq<Entry>)
    requires forall e :: e in es ==> Writable(e)
    ensures '\0' !in ShowAll(es)
  {
    hide Show;
    if es != [] {
      var e := es[0];
      assert Writable(e);
      ShowClean(e.name);
      if e.color.Some? { ShowClean(e.color.value); }
      ShowAllClean(es[1..]);
    }
  }

  /** A variable written from entries is parsed into those entries. */
  lemma RoundTrip(es: seq<Entry>)
    requires forall e :: e in es ==> Writable(e)
    ensures '\0' !in ShowAll(es) && Entries(ShowAll(es), 0) == es
  {
    hide Entries, Writable;
    ShowAllClean(es);
    var s := ShowAll(es);
    assert s[0..0 + |s|] == s;
    EntriesBack(s, 0, es);
  }

  /** A stretch without an equals sign is passed over, with the colon behind it or up to the end. */
  lemma NoEntry(s: Text, c: nat, t: string)
    requires ':' !in t && '=' !in t && (t != "" ==> t[0] != '*')
    requires Stands(s, c, t) && c < |s| && (c + |t| < |s| ==> s[c + |t|] == ':')
    ensures Entries(s, c) == if c + |t| < |s| then Entries(s, c + |t| + 1) else []
  {
    hide Escaped, Plain;
    if t != "" {
      assert s[c] == s[c..c + |t|][0];
      PlainBack(s, c, t);
    }
  }

  /** C sees a string up to its first NUL. */
  lemma {:induction false} CStringIs(t: string, u: string)
    requires '\0' !in t
    ensures CString(t) == t && CString(t + "\0" + u) == t
    decreases |t|
  {
    var w := t + "\0" + u;
    if t != "" {
      assert w[1..] == t[1..] + "\0" + u && [t[0]] + t[1..] == t;
      CStringIs(t[1..], u);
    }
  }

  // ----- every way to write a character -----

  /** A character as it is written: as itself, with a letter, a number or itself behind a backslash, or with a
      caret. */
  datatype Mark =
    | Raw(c: char) | Letter(k: nat) | Back(c: char) | Oct(ds: seq<nat>) | Hexa(ds: seq<nat>, upper: bool) | Ctrl(c: char) | Caret

  const SMALL := "0123456789abcdef"
  const CAPITAL := "0123456789ABCDEF"
  const LETTERS := "abefnrtv?_"
  const CODES := [7, 8, 27, 12, 10, 13, 9, 11, 127, 32]

  predicate Below(ds: seq<nat>, n: nat) { forall i :: 0 <= i < |ds| ==> ds[i] < n }

  function ShowDigits(ds: seq<nat>, digits: string): string
    requires Below(ds, |digits|)
  {
    if ds == [] then "" else [digits[ds[0]]] + ShowDigits(ds[1..], digits)
  }

  /** A mark that can be written where the character `next` follows. */
  predicate MarkOk(m: Mark, next: char, eqEnds: bool) {
    match m
    case Raw(c) => c !in "\0:\\^" && (eqEnds ==> c != '=')
    case Letter(k) => k < 10
    case Back(c) => c !in "\001234567x" && c !in LETTERS
    case Oct(ds) => ds != [] && Below(ds, 8) && next !in "01234567"
    case Hexa(ds, _) => Below(ds, 16) && next !in SMALL && next !in CAPITAL
    case Ctrl(c) => c == '?' || '@' <= c <= '~'
    case Caret => next != '?' && !('@' <= next <= '~')
  }

  predicate Sound(m: Mark) {
    (m.Letter? ==> m.k < 10) && (m.Oct? ==> Below(m.ds, 8)) && (m.Hexa? ==> Below(m.ds, 16))
  }

  function ShowMark(m: Mark): (t: string)
    requires Sound(m)
    ensures t != ""
  {
    match m
    case Raw(c) => [c]
    case Letter(k) => ['\\', LETTERS[k]]
    case Back(c) => ['\\', c]
    case Oct(ds) => "\\" + ShowDigits(ds, "01234567")
    case Hexa(ds, upper) => "\\x" + ShowDigits(ds, if upper then CAPITAL else SMALL)
    case Ctrl(c) => ['^', c]
    case Caret => "^"
  }

  function Number(n: nat, ds: seq<nat>, base: nat): nat
    decreases |ds|
  {
    if ds == [] then n else Number(base * n + ds[0], ds[1..], base)
  }

  /** What it stands for; of a number the low byte counts. */
  function MarkText(m: Mark): char
    requires Sound(m)
  {
    match m
    case Raw(c) => c
    case Letter(k) => CODES[k] as char
    case Back(c) => c
    case Oct(ds) => (Number(0, ds, 8) % 256) as char
    case Hexa(ds, _) => (Number(0, ds, 16) % 256) as char
    case Ctrl(c) => if c == '?' then 127 as char else (c as int % 32) as char
    case Caret => '^'
  }

  lemma DigitsBoth(c: char, d: nat, upper: bool)
    requires d < 16 && c == (if upper then CAPITAL else SMALL)[d]
    ensures Hex(c) && HexDigit(c) == d
  {
  }

  lemma NoDigit(c: char)
    ensures c !in "01234567" ==> !Octal(c)
    ensures c !in SMALL && c !in CAPITAL ==> !Hex(c)
  {
    if Octal(c) { assert c == "01234567"[(c - '0') as int]; }
    if Hex(c) { assert c == SMALL[HexDigit(c)] || c == CAPITAL[HexDigit(c)]; }
  }

  lemma RunEnds(s: Text, i: nat, n: nat)
    requires i <= |s|
    ensures !Octal(At(s, i)) ==> OctalRun(s, i, n) == (n, i)
    ensures !Hex(At(s, i)) ==> HexRun(s, i, n) == (n, i)
  {
    hide HexDigit;
  }

  lemma {:induction false} OctalDigits(s: Text, i: nat, n: nat, ds: seq<nat>)
    requires Below(ds, 8) && Stands(s, i, ShowDigits(ds, "01234567")) && !Octal(At(s, i + |ds|))
    ensures |ShowDigits(ds, "01234567")| == |ds| && OctalRun(s, i, n) == (Number(n, ds, 8), i + |ds|)
    decreases |ds|
  {
    hide Octal, Stands;
    StandsIn(s, i, ShowDigits(ds, "01234567"));
    if ds == [] {
      RunEnds(s, i, n);
    } else {
      var d, t := ds[0], ShowDigits(ds[1..], "01234567");
      StandsSplit(s, i, ["01234567"[d]], t);
      StandsAt(s, i, ["01234567"[d]], 0);
      OctalDigit(s[i], d);
      OctalDigits(s, i + 1, 8 * n + d, ds[1..]);
    }
  }

  lemma OctalDigit(c: char, d: nat)
    requires d < 8 && c == "01234567"[d]
    ensures Octal(c) && (c - '0') as nat == d
  {
  }

  lemma StandsIn(s: string, i: nat, t: string)
    requires Stands(s, i, t)
    ensures i + |t| <= |s|
  {
  }

  lemma StandsAt(s: string, i: nat, t: string, x: nat)
    requires Stands(s, i, t) && x < |t|
    ensures i + x < |s| && s[i + x] == t[x]
  {
    assert s[i + x] == s[i..i + |t|][x];
  }

  lemma {:induction false} HexDigits(s: Text, i: nat, n: nat, ds: seq<nat>, upper: bool)
    requires var digits := if upper then CAPITAL else SMALL;
             Below(ds, 16) && Stands(s, i, ShowDigits(ds, digits)) && !Hex(At(s, i + |ds|))
    ensures |ShowDigits(ds, if upper then CAPITAL else SMALL)| == |ds|
    ensures i <= |s| && HexRun(s, i, n) == (Number(n, ds, 16), i + |ds|)
    decreases |ds|
  {
    hide Hex, HexDigit, Stands;
    var digits := if upper then CAPITAL else SMALL;
    StandsIn(s, i, ShowDigits(ds, digits));
    if ds == [] {
      RunEnds(s, i, n);
    } else {
      var d, t := ds[0], ShowDigits(ds[1..], digits);
      StandsSplit(s, i, [digits[d]], t);
      StandsAt(s, i, [digits[d]], 0);
      DigitsBoth(s[i], d, upper);
      HexDigits(s, i + 1, 16 * n + d, ds[1..], upper);
    }
  }

  lemma NamedLetter(k: nat)
    requires k < 10
    ensures Named(LETTERS[k]) == CODES[k] as char && !Octal(LETTERS[k]) && LETTERS[k] != 'x'
  {
    var c := LETTERS[k];
    assert k == 0 ==> c == 'a';
    assert k == 1 ==> c == 'b';
    assert k == 2 ==> c == 'e';
    assert k == 3 ==> c == 'f';
    assert k == 4 ==> c == 'n';
    assert k == 5 ==> c == 'r';
    assert k == 6 ==> c == 't';
    assert k == 7 ==> c == 'v';
    assert k == 8 ==> c == '?';
    assert k == 9 ==> c == '_';
  }

  lemma NamedOther(c: char)
    requires c !in LETTERS
    ensures Named(c) == c
  {
    var l := LETTERS;
    assert l[0] == 'a' && l[1] == 'b' && l[2] == 'e' && l[3] == 'f' && l[4] == 'n';
    assert l[5] == 'r' && l[6] == 't' && l[7] == 'v' && l[8] == '?' && l[9] == '_';
  }

  /** One mark is read as what it stands for. */
  lemma MarkBack(s: Text, i: nat, m: Mark, eqEnds: bool)
    requires Sound(m) && Stands(s, i, ShowMark(m)) && MarkOk(m, At(s, i + |ShowMark(m)|), eqEnds)
    ensures i < |s| && !Stops(s, i, eqEnds) && EscapeOne(s, i) == Piece([MarkText(m)], i + |ShowMark(m)|)
  {
    hide Stands, Octal, Hex, OctalRun, HexRun, Named, ShowDigits, Number;
    var t := ShowMark(m);
    StandsIn(s, i, t);
    StandsAt(s, i, t, 0);
    if |t| > 1 { StandsAt(s, i, t, 1); }
    match m
    case Raw(_) =>
    case Letter(k) => NamedLetter(k);
    case Back(c) =>
      NamedOther(c);
      NoDigit(c);
    case Oct(ds) => OctMark(s, i, ds);
    case Hexa(ds, upper) => HexMark(s, i, ds, upper);
    case Ctrl(_) =>
    case Caret =>
  }

  lemma OctMark(s: Text, i: nat, ds: seq<nat>)
    requires ds != [] && Below(ds, 8) && Stands(s, i, "\\" + ShowDigits(ds, "01234567"))
    requires At(s, i + 1 + |ShowDigits(ds, "01234567")|) !in "01234567"
    ensures |ShowDigits(ds, "01234567")| == |ds| && i + 1 < |s| && Octal(s[i + 1])
    ensures OctalRun(s, i + 1, 0) == (Number(0, ds, 8), i + 1 + |ds|)
  {
    hide Octal, Stands, OctalRun, Number, ShowDigits, Below;
    var t := ShowDigits(ds, "01234567");
    FirstDigit(ds, "01234567");
    DigitsLength(ds, "01234567");
    StandsSplit(s, i, "\\", t);
    NoDigit(At(s, i + 1 + |ds|));
    OctalDigits(s, i + 1, 0, ds);
    StandsAt(s, i + 1, t, 0);
    OctalDigit(s[i + 1], ds[0]);
  }

  lemma HexMark(s: Text, i: nat, ds: seq<nat>, upper: bool)
    requires var digits := if upper then CAPITAL else SMALL;
             && Below(ds, 16) && Stands(s, i, "\\x" + ShowDigits(ds, digits))
             && At(s, i + 2 + |ShowDigits(ds, digits)|) !in SMALL && At(s, i + 2 + |ShowDigits(ds, digits)|) !in CAPITAL
    ensures |ShowDigits(ds, if upper then CAPITAL else SMALL)| == |ds| && i + 2 <= |s| && !Octal('x')
    ensures HexRun(s, i + 2, 0) == (Number(0, ds, 16), i + 2 + |ds|)
  {
    hide Hex, Stands, HexRun, Number, ShowDigits, Below;
    var digits := if upper then CAPITAL else SMALL;
    DigitsLength(ds, digits);
    StandsSplit(s, i, "\\x", ShowDigits(ds, digits));
    NoDigit(At(s, i + 2 + |ds|));
    HexDigits(s, i + 2, 0, ds, upper);
  }

  lemma FirstDigit(ds: seq<nat>, digits: string)
    requires ds != [] && Below(ds, |digits|)
    ensures ds[0] < |digits| && ShowDigits(ds, digits) != "" && ShowDigits(ds, digits)[0] == digits[ds[0]]
  {
  }

  lemma {:induction false} DigitsLength(ds: seq<nat>, digits: string)
    requires Below(ds, |digits|)
    ensures |ShowDigits(ds, digits)| == |ds|
  {
    if ds != [] { DigitsLength(ds[1..], digits); }
  }

  /** A backslash at the very end stands for nothing. */
  lemma LoneBackslash(s: Text)
    requires s != "" && s[|s| - 1] == '\\'
    ensures EscapeOne(s, |s| - 1) == Piece("", |s|)
  {
  }

  predicate AllSound(ms: seq<Mark>) { forall i :: 0 <= i < |ms| ==> Sound(ms[i]) }

  function ShowMarks(ms: seq<Mark>): string
    requires AllSound(ms)
  {
    if ms == [] then "" else ShowMark(ms[0]) + ShowMarks(ms[1..])
  }

  function MarksText(ms: seq<Mark>): string
    requires AllSound(ms)
  {
    if ms == [] then "" else [MarkText(ms[0])] + MarksText(ms[1..])
  }

  predicate MarksOk(ms: seq<Mark>, tail: string, eqEnds: bool)
    requires AllSound(ms)
  {
    ms != [] ==>
      var rest := ShowMarks(ms[1..]) + tail;
      MarkOk(ms[0], if rest == "" then '\0' else rest[0], eqEnds) && MarksOk(ms[1..], tail, eqEnds)
  }

  /** A text of marks up to where it stops is read as what they stand for. */
  lemma {:induction false} MarksBack(s: Text, i: nat, ms: seq<Mark>, eqEnds: bool)
    requires AllSound(ms) && Stands(s, i, ShowMarks(ms)) && Stops(s, i + |ShowMarks(ms)|, eqEnds)
    requires MarksOk(ms, s[i + |ShowMarks(ms)|..], eqEnds)
    ensures Escaped(s, i, eqEnds) == Piece(MarksText(ms), i + |ShowMarks(ms)|)
    decreases |ms|
  {
    hide EscapeOne, Stands, Stops, ShowMark, MarkText, MarkOk, Sound;
    StandsIn(s, i, ShowMarks(ms));
    if ms != [] {
      var t, rest := ShowMark(ms[0]), ShowMarks(ms[1..]);
      StandsSplit(s, i, t, rest);
      NextIs(s, i + |t|, rest);
      MarkBack(s, i, ms[0], eqEnds);
      MarksBack(s, i + |t|, ms[1..], eqEnds);
    }
  }

  lemma NextIs(s: Text, i: nat, rest: string)
    requires Stands(s, i, rest)
    ensures var w := rest + s[i + |rest|..]; At(s, i) == if w == "" then '\0' else w[0]
  {
    assert s[i..] == rest + s[i + |rest|..];
  }

  // ----- what the tables hold -----

  /** The colour of the last entry for a name. */
  function LastColor(es: seq<Entry>, name: string, default: Option<string>): Option<string> {
    if es == [] then default
    else if CString(es[|es| - 1].name) == name then CStringOf(es[|es| - 1].color)
    else LastColor(es[..|es| - 1], name, default)
  }

  /** The wildcard entries, the last one first. */
  function Wildcards(es: seq<Entry>): seq<(string, Option<string>)> {
    if es == [] then []
    else
      var name := CString(es[|es| - 1].name);
      (if Wild(name) then [(name[1..], CStringOf(es[|es| - 1].color))] else []) + Wildcards(es[..|es| - 1])
  }

  lemma {:induction false} ApplySnoc(names: seq<string>, t: Tables, es: seq<Entry>, e: Entry)
    requires |t.base| == |names|
    ensures ApplyAll(names, t, es + [e]) == Apply(names, ApplyAll(names, t, es), e)
    decreases |es|
  {
    hide Apply;
    if es == [] {
      assert ([] + [e])[0] == e && ([] + [e])[1..] == [];
    } else {
      assert (es + [e])[1..] == es[1..] + [e] && (es + [e])[0] == es[0];
      ApplySnoc(names, Apply(names, t, es[0]), es[1..], e);
    }
  }

  /** A base colour is the one the last entry for its name gives, or the default. */
  lemma {:induction false} BaseIs(names: seq<string>, t: Tables, es: seq<Entry>, k: nat)
    requires |t.base| == |names| && k < |names| && Find(names, names[k]) == k && !Wild(names[k])
    ensures ApplyAll(names, t, es).base[k] == LastColor(es, names[k], t.base[k])
    decreases |es|
  {
    hide Find, CString, CStringOf;
    if es != [] {
      var front, e := es[..|es| - 1], es[|es| - 1];
      assert es == front + [e];
      ApplySnoc(names, t, front, e);
      BaseIs(names, t, front, k);
    }
  }

  /** The wildcards are kept with the last one in front. */
  lemma {:induction false} MatchesAre(names: seq<string>, t: Tables, es: seq<Entry>)
    requires |t.base| == |names|
    ensures ApplyAll(names, t, es).matches == Wildcards(es) + t.matches
    decreases |es|
  {
    hide Apply, CString, CStringOf;
    if es == [] {
      assert [] + t.matches == t.matches;
    } else {
      var front, e := es[..|es| - 1], es[|es| - 1];
      assert es == front + [e];
      ApplySnoc(names, t, front, e);
      MatchesAre(names, t, front);
      ApplyMatches(names, ApplyAll(names, t, front), e, Wildcards(front), t.matches);
    }
  }

  lemma ApplyMatches(names: seq<string>, t: Tables, e: Entry, a: seq<(string, Option<string>)>, b: seq<(string, Option<string>)>)
    requires |t.base| == |names| && t.matches == a + b
    ensures var name := CString(e.name);
            Apply(names, t, e).matches == (if Wild(name) then [(name[1..], CStringOf(e.color))] else []) + a + b
  {
    hide CString, CStringOf, Find;
    var name := CString(e.name);
    if Wild(name) {
      var x := [(name[1..], CStringOf(e.color))];
      assert x + (a + b) == x + a + b;
    } else {
      assert [] + a + b == a + b;
    }
  }
}
