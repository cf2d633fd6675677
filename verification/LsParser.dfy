/** The parser of LS_COLORS as it runs: two cursors, one buffer, and pointers into it. */
module LsParser {
  import opened Common
  import opened LsColors

  method ReadOctal(s: Text, start: nat) returns (n: nat, i: nat)
    requires start <= |s|
    ensures (n, i) == OctalRun(s, start, 0)
  {
    n, i := 0, start;
    while i < |s| && Octal(s[i])
      invariant start <= i <= |s| && OctalRun(s, i, n) == OctalRun(s, start, 0)
    {
      n := 8 * n + (s[i] - '0') as nat;
      i := i + 1;
    }
  }

  method ReadHex(s: Text, start: nat) returns (n: nat, i: nat)
    requires start <= |s|
    ensures (n, i) == HexRun(s, start, 0)
  {
    n, i := 0, start;
    while i < |s| && Hex(s[i])
      invariant start <= i <= |s| && HexRun(s, i, n) == HexRun(s, start, 0)
    {
      n := 16 * n + HexDigit(s[i]);
      i := i + 1;
    }
  }

  /** One turn of the loop of `parse_escaped`: the character it stores, if any. */
  method ReadOne(s: Text, start: nat) returns (out: Option<char>, i: nat)
    requires start < |s|
    ensures EscapeOne(s, start) == Piece(if out.None? then "" else [out.value], i)
  {
    i := start;
    if s[i] == '\\' {
      i := i + 1;
      if i == |s| { return None, i; }
      if Octal(s[i]) {
        var n;
        n, i := ReadOctal(s, i);
        out := Some(Low(n));
      } else if s[i] == 'x' {
        var n;
        n, i := ReadHex(s, i + 1);
        out := Some(Low(n));
      } else {
        out := Some(Named(s[i]));
        i := i + 1;
      }
    } else if s[i] == '^' {
      i := i + 1;
      if At(s, i) == '?' {
        out, i := Some(127 as char), i + 1;
      } else if '@' <= At(s, i) <= '~' {
        out, i := Some(Low(At(s, i) as nat % 32)), i + 1;
      } else {
        out := Some('^');
      }
    } else {
      out, i := Some(s[i]), i + 1;
    }
  }

  /** `parse_escaped`: every write is within the buffer because no more is written than was read. */
  method ParseEscaped(s: Text, start: nat, buf: array<char>, out: nat, eqEnds: bool) returns (i: nat, o: nat)
    requires start <= |s| && out + (|s| - start) <= buf.Length
    modifies buf
    ensures Wrote(old(buf[..]), buf[..], out, o, Escaped(s, start, eqEnds).out)
    ensures i == Escaped(s, start, eqEnds).next
  {
    hide EscapeOne, Escaped;
    i, o := start, out;
    while !Stops(s, i, eqEnds)
      invariant start <= i <= |s| && out <= o && o - out <= i - start
      invariant buf[..out] == old(buf[..out])
      invariant Escaped(s, start, eqEnds).out == buf[out..o] + Escaped(s, i, eqEnds).out
      invariant Escaped(s, start, eqEnds).next == Escaped(s, i, eqEnds).next
      decreases |s| - i
    {
      ghost var done := buf[out..o];
      EscapedStep(s, i, eqEnds, done);
      var c, next := ReadOne(s, i);
      if c.Some? {
        buf[o] := c.value;
        o := o + 1;
        assert buf[out..o] == done + [c.value];
      }
      i := next;
    }
    EscapedEnd(s, i, eqEnds);
  }

  lemma EscapedStep(s: Text, i: nat, eqEnds: bool, done: string)
    requires i <= |s| && !Stops(s, i, eqEnds)
    ensures var one := EscapeOne(s, i);
            var more := Escaped(s, one.next, eqEnds);
            && Escaped(s, i, eqEnds).next == more.next
            && done + Escaped(s, i, eqEnds).out == done + one.out + more.out
  {
    hide EscapeOne;
    var one := EscapeOne(s, i);
    var more := Escaped(s, one.next, eqEnds);
    assert done + (one.out + more.out) == done + one.out + more.out;
  }

  lemma EscapedEnd(s: Text, i: nat, eqEnds: bool)
    requires i <= |s| && Stops(s, i, eqEnds)
    ensures Escaped(s, i, eqEnds) == Piece("", i)
  {
  }

  lemma PlainStep(s: Text, i: nat, done: string)
    requires i <= |s|
    ensures Stops(s, i, true) ==> Plain(s, i) == Piece("", i)
    ensures !Stops(s, i, true) ==>
              && Plain(s, i).next == Plain(s, i + 1).next
              && done + Plain(s, i).out == done + [s[i]] + Plain(s, i + 1).out
  {
    if !Stops(s, i, true) {
      var more := Plain(s, i + 1).out;
      assert done + ([s[i]] + more) == done + [s[i]] + more;
    }
  }

  /** Text was written from `from` up to `to`, and nothing in front of it changed. */
  ghost predicate Wrote(before: string, after: string, from: nat, to: nat, t: string) {
    && |after| == |before| && to == from + |t| <= |before|
    && after[..from] == before[..from] && after[from..to] == t
  }

  /** `parse_color_type`; a name that is found lies at `o` with a terminator behind it. */
  method ParseColorType(s: Text, c: nat, buf: array<char>, o: nat) returns (found: bool, next: nat, to: nat)
    requires c < |s| && buf.Length == |s| + 1 && o <= buf.Length
    requires s[c] != ':' ==> o <= c
    modifies buf
    ensures found == HeadAt(s, c).Type? && next == HeadAt(s, c).next
    ensures Wrote(old(buf[..]), buf[..], o, to, if found then HeadAt(s, c).name + "\0" else "")
  {
    hide Escaped, Plain;
    if s[c] == ':' { return false, c + 1, o; }
    var i, end;
    if s[c] == '*' {
      i, end := ParseEscaped(s, c, buf, o, true);
    } else {
      i, end := ParsePlain(s, c, buf, o);
    }
    if i == |s| { return false, i, o; }
    if s[i] != '=' { return false, i + 1, o; }
    ghost var name := buf[o..end];
    buf[end] := '\0';
    assert buf[o..end + 1] == name + "\0";
    return true, i + 1, end + 1;
  }

  /** `parse_color_val`; a value that is found lies at `o` with a terminator behind it. */
  method ParseColorVal(s: Text, c: nat, buf: array<char>, o: nat) returns (found: bool, next: nat, to: nat)
    requires c <= |s| && buf.Length == |s| + 1 && o <= c
    modifies buf
    ensures found == ValueAt(s, c).text.Some? && next == ValueAt(s, c).next
    ensures Wrote(old(buf[..]), buf[..], o, to, if found then ValueAt(s, c).text.value + "\0" else "")
  {
    hide Escaped;
    if At(s, c) == ':' { return false, c + 1, o; }
    var i, end := ParseEscaped(s, c, buf, o, false);
    ghost var value := buf[o..end];
    buf[end] := '\0';
    assert buf[o..end + 1] == value + "\0";
    return true, i, end + 1;
  }

  method ParsePlain(s: Text, start: nat, buf: array<char>, out: nat) returns (i: nat, o: nat)
    requires start <= |s| && out + (|s| - start) <= buf.Length
    modifies buf
    ensures Wrote(old(buf[..]), buf[..], out, o, Plain(s, start).out)
    ensures i == Plain(s, start).next
  {
    hide Plain;
    i, o := start, out;
    while !Stops(s, i, true)
      invariant start <= i <= |s| && out <= o && o - out == i - start
      invariant buf[..out] == old(buf[..out])
      invariant Plain(s, start).out == buf[out..o] + Plain(s, i).out && Plain(s, start).next == Plain(s, i).next
      decreases |s| - i
    {
      ghost var done := buf[out..o];
      buf[o] := s[i];
      assert buf[out..o + 1] == done + [s[i]];
      PlainStep(s, i, done);
      i, o := i + 1, o + 1;
    }
    PlainStep(s, i, "");
  }

  // ----- pointers into the buffer -----

  /** A colour: none, a text of the program's own, or a place in the buffer. */
  datatype Ref = Null | Literal(text: string) | In(at: nat)

  /** The string that starts at a place in the buffer. */
  function StringAt(b: string, at: nat): string
    decreases |b| - at
  {
    if at >= |b| || b[at] == '\0' then "" else [b[at]] + StringAt(b, at + 1)
  }

  function Read(b: string, r: Ref): Option<string> {
    match r
    case Null => None
    case Literal(text) => Some(text)
    case In(at) => Some(StringAt(b, at))
  }

  /** What the pointers say, as values. */
  function View(b: string, base: seq<Ref>, matches: seq<(nat, Ref)>): Tables {
    Tables(seq(|base|, i requires 0 <= i < |base| => Read(b, base[i])),
           seq(|matches|, i requires 0 <= i < |matches| => (StringAt(b, matches[i].0), Read(b, matches[i].1))))
  }

  /** A string that ends in front of `end`. */
  ghost predicate Ends(b: string, at: nat, end: nat) {
    end <= |b| && exists k :: at <= k < end && b[k] == '\0'
  }

  ghost predicate Settled(b: string, base: seq<Ref>, matches: seq<(nat, Ref)>, end: nat) {
    && (forall i :: 0 <= i < |base| && base[i].In? ==> Ends(b, base[i].at, end))
    && (forall i :: 0 <= i < |matches| ==> Ends(b, matches[i].0, end))
    && (forall i :: 0 <= i < |matches| && matches[i].1.In? ==> Ends(b, matches[i].1.at, end))
  }

  /** Writing behind a string leaves it alone. */
  lemma {:induction false} StringStable(b: string, d: string, at: nat, end: nat, more: nat)
    requires Ends(b, at, end) && end <= more <= |d| == |b| && d[..end] == b[..end]
    ensures StringAt(d, at) == StringAt(b, at) && Ends(d, at, more)
    decreases |b| - at
  {
    var k :| at <= k < end && b[k] == '\0';
    assert d[k] == d[..end][k] == b[..end][k] && d[at] == d[..end][at] == b[..end][at];
    if b[at] != '\0' {
      StringStable(b, d, at + 1, end, more);
    }
  }

  lemma ViewStable(b: string, d: string, base: seq<Ref>, matches: seq<(nat, Ref)>, end: nat, more: nat)
    requires Settled(b, base, matches, end) && end <= more <= |d| == |b| && d[..end] == b[..end]
    ensures View(d, base, matches) == View(b, base, matches) && Settled(d, base, matches, more)
  {
    hide StringAt, Ends;
    forall i | 0 <= i < |base| && base[i].In? ensures Read(d, base[i]) == Read(b, base[i]) && Ends(d, base[i].at, more) {
      StringStable(b, d, base[i].at, end, more);
    }
    forall i | 0 <= i < |matches|
      ensures StringAt(d, matches[i].0) == StringAt(b, matches[i].0) && Ends(d, matches[i].0, more)
      ensures Read(d, matches[i].1) == Read(b, matches[i].1)
      ensures matches[i].1.In? ==> Ends(d, matches[i].1.at, more)
    {
      StringStable(b, d, matches[i].0, end, more);
      if matches[i].1.In? { StringStable(b, d, matches[i].1.at, end, more); }
    }
  }

  /** A text that was just written, read back. */
  lemma {:induction false} StringWritten(b: string, at: nat, t: string)
    requires at + |t| < |b| && b[at..at + |t|] == t && b[at + |t|] == '\0'
    ensures StringAt(b, at) == CString(t) && Ends(b, at, at + |t| + 1)
    decreases |t|
  {
    if t != "" {
      assert b[at] == t[0];
      assert b[at + 1..at + 1 + |t[1..]|] == t[1..];
      StringWritten(b, at + 1, t[1..]);
    }
  }

  lemma WroteString(before: string, after: string, o: nat, to: nat, t: string)
    requires |before| == |after| && Wrote(before, after, o, to, t + "\0")
    ensures StringAt(after, o) == CString(t) && Ends(after, o, to)
  {
    hide StringAt, CString, Ends;
    assert after[o..to][..|t|] == t && after[o..to][|t|] == '\0';
    StringWritten(after, o, t);
  }

  // ----- the tables -----

  /** The search through the names of the base colours. */
  method Lookup(names: seq<string>, t: string) returns (k: nat)
    ensures k == Find(names, t)
  {
    k := 0;
    while k < |names|
      invariant k <= |names| && k + Find(names[k..], t) == Find(names, t)
    {
      if names[k] == t { return; }
      assert names[k..][1..] == names[k + 1..];
      k := k + 1;
    }
  }

  /** An entry enters the tables. */
  method Record(buf: array<char>, names: seq<string>, base: seq<Ref>, matches: seq<(nat, Ref)>, name: nat, color: Ref,
                ghost e: Entry, ghost end: nat)
    returns (newBase: seq<Ref>, newMatches: seq<(nat, Ref)>)
    requires |base| == |names| && Settled(buf[..], base, matches, end)
    requires Ends(buf[..], name, end) && (color.In? ==> Ends(buf[..], color.at, end))
    requires StringAt(buf[..], name) == CString(e.name) && Read(buf[..], color) == CStringOf(e.color)
    ensures |newBase| == |names| && Settled(buf[..], newBase, newMatches, end)
    ensures View(buf[..], newBase, newMatches) == Apply(names, View(buf[..], base, matches), e)
  {
    hide Read, Find;
    ghost var b, was := buf[..], View(buf[..], base, matches);
    newBase, newMatches := base, matches;
    assert buf[name] == b[name];
    if buf[name] != '*' {
      var k := Lookup(names, StringAt(buf[..], name));
      if k < |names| {
        newBase := base[k := color];
        assert View(b, newBase, matches).base == was.base[k := CStringOf(e.color)];
      }
    } else {
      newMatches := [(name + 1, color)] + matches;
      AfterStar(b, name, end);
      assert View(b, base, newMatches).matches == [(CString(e.name)[1..], CStringOf(e.color))] + was.matches;
    }
  }

  lemma AfterStar(b: string, at: nat, end: nat)
    requires Ends(b, at, end) && b[at] == '*'
    ensures StringAt(b, at) != "" && StringAt(b, at)[0] == '*'
    ensures StringAt(b, at + 1) == StringAt(b, at)[1..] && Ends(b, at + 1, end)
  {
  }

  /** Where the output may stand: behind the input, or one ahead of it where an entry just ended. */
  predicate Trails(s: Text, c: nat, o: nat) {
    o <= c || (o == c + 1 && Stops(s, c, false))
  }

  /** One entry is read: its name lies at `o`, its colour behind it. */
  method ParseEntry(s: Text, c: nat, buf: array<char>, o: nat) returns (found: bool, color: Ref, next: nat, end: nat)
    requires c < |s| && buf.Length == |s| + 1 && Trails(s, c, o)
    modifies buf
    ensures o <= end <= buf.Length && buf[..o] == old(buf[..o])
    ensures c < next <= |s| && Trails(s, next, end)
    ensures found == HeadAt(s, c).Type?
    ensures !found ==> next == HeadAt(s, c).next && end == o
    ensures found ==>
              var h := HeadAt(s, c);
              var v := ValueAt(s, h.next);
              && next == v.next
              && Ends(buf[..], o, end) && StringAt(buf[..], o) == CString(h.name)
              && (color.In? ==> Ends(buf[..], color.at, end)) && Read(buf[..], color) == CStringOf(v.text)
  {
    hide HeadAt, ValueAt, StringAt, Ends, CString;
    var to;
    found, next, to := ParseColorType(s, c, buf, o);
    if !found { return false, Null, next, o; }
    ghost var b, h := buf[..], HeadAt(s, c);
    WroteString(old(buf[..]), b, o, to, h.name);
    var got;
    got, next, end := ParseColorVal(s, next, buf, to);
    StringStable(b, buf[..], o, to, end);
    assert buf[..o] == buf[..to][..o] == b[..to][..o];
    if got {
      WroteString(b, buf[..], to, end, ValueAt(s, h.next).text.value);
      color := In(to);
    } else {
      color := Null;
    }
  }

  lemma EntriesStep(s: Text, c: nat, names: seq<string>, t: Tables)
    requires c < |s| && |t.base| == |names|
    ensures var h := HeadAt(s, c);
            if h.Skip? then Entries(s, c) == Entries(s, h.next)
            else var v := ValueAt(s, h.next);
              ApplyAll(names, t, Entries(s, c)) ==
              ApplyAll(names, Apply(names, t, Entry(h.name, v.text)), Entries(s, v.next))
  {
    hide Apply, HeadAt, ValueAt;
    var h := HeadAt(s, c);
    if h.Type? {
      var v := ValueAt(s, h.next);
      assert ([Entry(h.name, v.text)] + Entries(s, v.next))[1..] == Entries(s, v.next);
    }
  }

  /** `setup_colors`: the tables hold what the entries of the variable say, one after the other, and
      everything they point to fits a buffer one longer than the variable. */
  method SetupColors(s: Text, names: seq<string>, defaults: seq<Ref>)
    returns (buf: array<char>, base: seq<Ref>, matches: seq<(nat, Ref)>)
    requires |defaults| == |names| && forall i :: 0 <= i < |defaults| ==> !defaults[i].In?
    ensures buf.Length == |s| + 1 && |base| == |names|
    ensures Settled(buf[..], base, matches, buf.Length)
    ensures View(buf[..], base, matches) == ApplyAll(names, View("", defaults, []), Entries(s, 0))
  {
    hide Apply, HeadAt, ValueAt, StringAt, Ends, CString, CStringOf, Entries, ApplyAll;
    buf := new char[|s| + 1](_ => '\0');
    base, matches := defaults, [];
    var c, o := 0, 0;
    ghost var first := View("", defaults, []);
    assert View(buf[..], base, matches) == first;
    while c < |s|
      invariant c <= |s| && |base| == |names| && o <= buf.Length && Trails(s, c, o)
      invariant Settled(buf[..], base, matches, o)
      invariant ApplyAll(names, View(buf[..], base, matches), Entries(s, c)) == ApplyAll(names, first, Entries(s, 0))
      decreases |s| - c
    {
      ghost var b := buf[..];
      EntriesStep(s, c, names, View(b, base, matches));
      var found, color, next, end := ParseEntry(s, c, buf, o);
      ViewStable(b, buf[..], base, matches, o, end);
      if found {
        ghost var h := HeadAt(s, c);
        base, matches := Record(buf, names, base, matches, o, color, Entry(h.name, ValueAt(s, h.next).text), end);
      }
      c, o := next, end;
    }
    EntriesEnd(s, names, View(buf[..], base, matches));
    ViewStable(buf[..], buf[..], base, matches, o, buf.Length);
  }

  lemma EntriesEnd(s: Text, names: seq<string>, t: Tables)
    requires |t.base| == |names|
    ensures ApplyAll(names, t, Entries(s, |s|)) == t
  {
  }
}
