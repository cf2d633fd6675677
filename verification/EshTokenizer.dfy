/**
  The tokenizer loop of the shell as it is written: flags, a growable byte buffer and a
  list of arguments, updated in place.
 */
module EshTokenizer {
  import opened Common
  import opened Esh

  class ArgBuilder {
    var bytes: array<char>
    var length: nat

    ghost predicate Valid()
      reads this
    {
      length <= bytes.Length
    }

    ghost function Contents(): string
      requires Valid()
      reads this, bytes
    {
      bytes[..length]
    }

    constructor ()
      ensures Valid() && Contents() == "" && fresh(bytes)
    {
      bytes, length := new char[0], 0;
    }

    /** Reallocate to a larger capacity. */
    method Grow(capacity: nat)
      requires Valid() && length <= capacity
      modifies this`bytes
      ensures Valid() && fresh(bytes) && bytes.Length == capacity && Contents() == old(Contents())
    {
      var more := new char[capacity](_ => ' ');
      forall i | 0 <= i < length { more[i] := bytes[i]; }
      bytes := more;
    }

    /** `argbuilder_push_char` */
    method PushChar(c: char)
      requires Valid()
      modifies this, bytes
      ensures Valid() && (bytes == old(bytes) || fresh(bytes)) && Contents() == old(Contents()) + [c]
    {
      if bytes.Length < length + 1 {
        Grow(if bytes.Length < 8 then 8 else bytes.Length * 2);
      }
      bytes[length] := c;
      length := length + 1;
    }

    /** `argbuilder_push` */
    method Push(str: string)
      requires Valid()
      modifies this, bytes
      ensures Valid() && (bytes == old(bytes) || fresh(bytes)) && Contents() == old(Contents()) + str
    {
      var capacity := bytes.Length;
      if capacity < length + |str| {
        while capacity < length + |str|
          invariant capacity >= bytes.Length
          decreases length + |str| - capacity
        {
          capacity := if capacity < 8 then 8 else capacity * 2;
        }
        Grow(capacity);
      }
      ghost var was := bytes[..length];
      var start, i := length, 0;
      while i < |str|
        invariant 0 <= i <= |str| && length == start + i && start + |str| <= bytes.Length
        invariant bytes[..length] == was + str[..i]
        invariant bytes == old(bytes) || fresh(bytes)
      {
        bytes[length] := str[i];
        length := length + 1;
        i := i + 1;
      }
      assert str[..i] == str;
    }

    /** `argbuilder_discard` */
    method Discard()
      modifies this
      ensures Valid() && Contents() == "" && fresh(bytes)
    {
      bytes, length := new char[0], 0;
    }
  }

  class Tokenizer {
    var quoted: char
    var backslash: bool
    var forced: bool
    var star: bool
    var args: seq<string>
    const ab: ArgBuilder

    ghost predicate Valid()
      reads this, ab
    {
      ab.Valid()
    }

    ghost function View(): Lexer
      requires Valid()
      reads this, ab, ab.bytes
    {
      Lexer(quoted, backslash, ab.Contents(), forced, star, args)
    }

    constructor ()
      ensures Valid() && View() == START && fresh(ab) && fresh(ab.bytes)
    {
      quoted, backslash, forced, star, args := NONE, false, false, false, [];
      ab := new ArgBuilder();
    }

    /** `add_argument` */
    method AddArgument()
      requires Valid()
      modifies this`args, ab
      ensures Valid() && fresh(ab.bytes) && View() == Add(old(View()))
    {
      var arg := ab.bytes[..ab.length];
      ab.Discard();
      args := args + [arg];
    }

    method AddChar(c: char)
      requires Valid()
      modifies this`backslash, ab, ab.bytes
      ensures Valid() && (ab.bytes == old(ab.bytes) || fresh(ab.bytes)) && View() == JustAdd(old(View()), c)
    {
      backslash := false;
      ab.PushChar(c);
    }

    method StartArg()
      requires Valid()
      modifies this, ab
      ensures Valid() && (ab.bytes == old(ab.bytes) || fresh(ab.bytes)) && View() == NewArg(old(View()))
    {
      backslash := false;
      if ab.length != 0 || forced {
        AddArgument();
        star := false;
        forced := false;
      }
    }

    method AddOperator(token: string)
      requires Valid()
      modifies this, ab, ab.bytes
      ensures Valid() && (ab.bytes == old(ab.bytes) || fresh(ab.bytes)) && View() == Operator(old(View()), token)
    {
      hide NewArg;
      if ab.length != 0 || forced { AddArgument(); }
      forced := false;
      ab.Push(token);
      StartArg();
    }

    /** The loop over the value of a variable. */
    method SpreadValue(v: string)
      requires Valid()
      modifies this, ab, ab.bytes
      ensures Valid() && (ab.bytes == old(ab.bytes) || fresh(ab.bytes)) && View() == Spread(old(View()), v)
    {
      ghost var goal := Spread(View(), v);
      var i := 0;
      assert v[0..] == v;
      while i < |v|
        invariant 0 <= i <= |v| && Valid() && (ab.bytes == old(ab.bytes) || fresh(ab.bytes))
        invariant Spread(View(), v[i..]) == goal
      {
        assert v[i..][1..] == v[i + 1..];
        if v[i] == ' ' && quoted == NONE {
          if ab.length != 0 || forced {
            AddArgument();
            star, forced := false, false;
          }
        } else {
          ab.PushChar(v[i]);
        }
        i := i + 1;
      }
    }

    /** The quote characters. */
    method QuoteChar(c: char)
      requires Valid()
      modifies this, ab, ab.bytes
      ensures Valid() && (ab.bytes == old(ab.bytes) || fresh(ab.bytes))
      ensures forall rest: string :: Go(View(), rest) == Quote(old(View()), c, rest)
    {
      forced := true;
      if quoted == c && !backslash {
        quoted := NONE;
      } else if quoted == NONE && !backslash {
        quoted := c;
      } else {
        AddChar(c);
      }
    }

    /** The switch of the loop for characters that do not end it: the position moves on. */
    method Character(sh: Shell, buffer: string, p: nat) returns (p': nat)
      requires Valid() && p < |buffer|
      requires Next(sh, buffer[p..], View()).Go?
      modifies this, ab, ab.bytes
      ensures Valid() && (ab.bytes == old(ab.bytes) || fresh(ab.bytes))
      ensures p < p' <= |buffer| && Next(sh, buffer[p..], old(View())) == Go(View(), buffer[p'..])
    {
      hide Spread, NewArg, Operator, Name;
      var c := buffer[p];
      var plain := quoted == NONE && !backslash;
      assert buffer[p..][1..] == buffer[p + 1..];
      p' := p + 1;
      if c == '$' && quoted != '\'' && !backslash {
        p' := Expand(sh, buffer, p + 1);
      } else if c == '~' && plain && ab.length == 0 && sh.home.Some? && (p + 1 == |buffer| || buffer[p + 1] in "/\n ;") {
        ab.Push(sh.home.value);
      } else if c == '\"' || c == '\'' {
        QuoteChar(c);
      } else if c == '*' && plain && !star {
        star := true;
        ab.Push(STAR_TOKEN);
      } else if c == '\\' && quoted != '\'' && !backslash {
        backslash := true;
      } else if c == ' ' && plain {
        StartArg();
      } else if c == '|' && plain {
        AddOperator(PIPE_TOKEN);
      } else if c == '>' && plain {
        Redirect();
      } else {
        Ordinary(c);
      }
    }

    method Redirect()
      requires Valid() && quoted == NONE && !backslash
      modifies this, ab, ab.bytes
      ensures Valid() && (ab.bytes == old(ab.bytes) || fresh(ab.bytes))
      ensures View() == if old(View()).word == "2" then NewArg(old(View()).(forced := false, word := WRITE_ERR_TOKEN))
                        else Operator(old(View()), WRITE_TOKEN)
    {
      hide NewArg, Operator;
      if ab.length == 1 && ab.bytes[0] == '2' {
        forced := false;
        ab.Discard();
        ab.Push(WRITE_ERR_TOKEN);
        assert "" + WRITE_ERR_TOKEN == WRITE_ERR_TOKEN;
        StartArg();
      } else {
        AddOperator(WRITE_TOKEN);
      }
    }

    /** The default branch, and the jumps to `_just_add`. */
    method Ordinary(c: char)
      requires Valid()
      modifies this, ab, ab.bytes
      ensures Valid() && (ab.bytes == old(ab.bytes) || fresh(ab.bytes))
      ensures var was := old(View());
              View() == JustAdd(if old(backslash) && c !in SPECIAL then was.(word := was.word + "\\") else was, c)
    {
      if backslash && c !in SPECIAL { ab.PushChar('\\'); }
      AddChar(c);
    }

    /** The dollar branch, with `p` behind the dollar sign. */
    method Expand(sh: Shell, buffer: string, p: nat) returns (p': nat)
      requires Valid() && p <= |buffer|
      modifies this, ab, ab.bytes
      ensures Valid() && (ab.bytes == old(ab.bytes) || fresh(ab.bytes))
      ensures p <= p' <= |buffer| && buffer[p'..] == Name(buffer[p..]).1
      ensures var v := sh.lookup(Name(buffer[p..]).0);
              View() == if v.Some? then Spread(old(View()), v.value) else old(View())
    {
      hide Spread;
      var name, behind;
      name, p', behind := ReadName(buffer, p, '?');
      var v := sh.lookup(name);
      if v.Some? { SpreadValue(v.value); }
    }
  }

  /** Characters with a branch of their own. */
  const SPECIAL := "$~\"'*\\ \n|>;#`"

  /** The size of the array that a name is collected in. */
  const NAME_SIZE := 100

  /** The array, with the byte behind it as its last cell: the name and a terminator, rewritten behind
      every character. */
  ghost predicate Collected(cells: array<char>, name: string)
    requires cells.Length == NAME_SIZE + 1
    reads cells
  {
    && |name| <= NAME_SIZE
    && cells[..|name|] == name && (name != "" ==> cells[|name|] == '\0')
  }

  method Collect(cells: array<char>, c: char, coll: nat, ghost name: string)
    requires cells.Length == NAME_SIZE + 1 && Collected(cells, name) && coll == |name| < NAME_SIZE
    modifies cells
    ensures Collected(cells, name + [c])
    ensures coll + 1 < NAME_SIZE ==> cells[NAME_SIZE] == old(cells[NAME_SIZE])
  {
    cells[coll] := c;
    cells[coll + 1] := '\0';
    assert cells[..coll + 1] == name + [c];
  }

  /** The string in the array. */
  method Contents(cells: array<char>, coll: nat, ghost name: string) returns (r: string)
    requires cells.Length == NAME_SIZE + 1 && Collected(cells, name) && coll == |name|
    ensures r == name && |name| <= NAME_SIZE && (|name| == NAME_SIZE ==> cells[NAME_SIZE] == '\0')
  {
    r := cells[..coll];
  }

  lemma Rest(buffer: string, start: nat, a: nat, p: nat)
    requires start + a <= p <= |buffer|
    ensures buffer[start..][a..p - start] == buffer[start + a..p] && buffer[start..][p - start..] == buffer[p..]
    ensures buffer[start..][a..] == buffer[start + a..] && buffer[start..][..p - start] == buffer[start..p]
  {
  }

  /** The loop that collects a name in braces.  The byte behind the array is left alone if the name is
      shorter than the array. */
  method ReadBraced(buffer: string, start: nat, cells: array<char>) returns (p: nat)
    requires start <= |buffer| && cells.Length == NAME_SIZE + 1 && Collected(cells, "")
    modifies cells
    ensures p == start + BraceEnd(buffer[start..], NAME_SIZE) <= |buffer| && Collected(cells, buffer[start..p])
    ensures p - start < NAME_SIZE ==> cells[NAME_SIZE] == old(cells[NAME_SIZE])
  {
    hide Collected;
    p := start;
    assert buffer[start..p] == "";
    while p < |buffer| && buffer[p] != '}' && p - start < NAME_SIZE
      invariant start <= p <= |buffer| && p - start <= NAME_SIZE
      invariant p + BraceEnd(buffer[p..], NAME_SIZE - (p - start)) == start + BraceEnd(buffer[start..], NAME_SIZE)
      invariant Collected(cells, buffer[start..p])
      invariant p - start < NAME_SIZE ==> cells[NAME_SIZE] == old(cells[NAME_SIZE])
    {
      assert buffer[p..][1..] == buffer[p + 1..];
      assert buffer[start..p + 1] == buffer[start..p] + [buffer[p]];
      Collect(cells, buffer[p], p - start, buffer[start..p]);
      p := p + 1;
    }
  }

  /** The loop that collects a plain name. */
  method ReadPlain(buffer: string, start: nat, cells: array<char>) returns (p: nat)
    requires start <= |buffer| && cells.Length == NAME_SIZE + 1 && Collected(cells, "")
    modifies cells
    ensures p == start + NameEnd(buffer[start..], NAME_SIZE) <= |buffer| && Collected(cells, buffer[start..p])
    ensures p - start < NAME_SIZE ==> cells[NAME_SIZE] == old(cells[NAME_SIZE])
  {
    hide Collected;
    p := start;
    assert buffer[start..p] == "";
    while p < |buffer| && VariableChar(buffer[p]) && p - start < NAME_SIZE
      invariant start <= p <= |buffer| && p - start <= NAME_SIZE
      invariant p + NameEnd(buffer[p..], NAME_SIZE - (p - start)) == start + NameEnd(buffer[start..], NAME_SIZE)
      invariant Collected(cells, buffer[start..p])
      invariant p - start < NAME_SIZE ==> cells[NAME_SIZE] == old(cells[NAME_SIZE])
    {
      assert buffer[p..][1..] == buffer[p + 1..];
      assert buffer[start..p + 1] == buffer[start..p] + [buffer[p]];
      Collect(cells, buffer[p], p - start, buffer[start..p]);
      p := p + 1;
    }
  }

  lemma NameBraced(buffer: string, start: nat, p: nat)
    requires start < |buffer| && buffer[start] == '{' && p == start + 1 + BraceEnd(buffer[start + 1..], 100) <= |buffer|
    ensures Name(buffer[start..]) == (buffer[start + 1..p], buffer[if p < |buffer| && buffer[p] == '}' then p + 1 else p..])
  {
    hide BraceEnd;
    Rest(buffer, start, 1, p);
    if p < |buffer| { Rest(buffer, p, 1, p + 1); }
  }

  lemma NameSpecial(buffer: string, start: nat)
    requires start < |buffer| && (SpecialName(buffer[start]) || '0' <= buffer[start] <= '9')
    ensures Name(buffer[start..]) == ([buffer[start]], buffer[start + 1..])
  {
    Rest(buffer, start, 1, start + 1);
    assert buffer[start..][..1] == [buffer[start]];
  }

  lemma NamePlain(buffer: string, start: nat, p: nat)
    requires start <= |buffer| && p == start + NameEnd(buffer[start..], 100) <= |buffer|
    requires start < |buffer| ==> buffer[start] != '{' && !SpecialName(buffer[start]) && !('0' <= buffer[start] <= '9')
    ensures Name(buffer[start..]) == (buffer[start..p], buffer[p..])
  {
    hide NameEnd;
    Rest(buffer, start, 0, p);
  }

  lemma NoName(cells: array<char>)
    requires cells.Length == NAME_SIZE + 1
    ensures Collected(cells, "")
  {
  }

  /** The name behind a dollar sign, as it stands in the array.  The byte behind the array keeps its
      value `behind` if and only if the name is shorter than the array, unless it was a terminator
      already. */
  method ReadName(buffer: string, start: nat, behind: char) returns (name: string, p: nat, after: char)
    requires start <= |buffer|
    ensures start <= p <= |buffer| && (name, buffer[p..]) == Name(buffer[start..])
    ensures |name| <= NAME_SIZE && after == if |name| < NAME_SIZE then behind else '\0'
  {
    hide Name, BraceEnd, NameEnd, Collected;
    var cells := new char[NAME_SIZE + 1](_ => behind);
    NoName(cells);
    if start < |buffer| && buffer[start] == '{' {
      p := ReadBraced(buffer, start + 1, cells);
      name := Contents(cells, p - (start + 1), buffer[start + 1..p]);
      NameBraced(buffer, start, p);
      if p < |buffer| && buffer[p] == '}' { p := p + 1; }
    } else if start < |buffer| && (SpecialName(buffer[start]) || '0' <= buffer[start] <= '9') {
      Collect(cells, buffer[start], 0, "");
      name := Contents(cells, 1, [buffer[start]]);
      NameSpecial(buffer, start);
      p := start + 1;
    } else {
      p := ReadPlain(buffer, start, cells);
      name := Contents(cells, p - start, buffer[start..p]);
      NamePlain(buffer, start, p);
    }
    after := cells[NAME_SIZE];
  }

  /** The tokenizer part of `shell_exec`, without history and command substitution. */
  method Tokenize(sh: Shell, buffer: string) returns (o: Outcome)
    requires NONE !in buffer
    ensures o == Scan(sh, buffer, START)
  {
    hide Next;
    var t := new Tokenizer();
    var p := 0;
    assert buffer[0..] == buffer;
    while p < |buffer|
      invariant 0 <= p <= |buffer| && t.Valid() && fresh(t) && fresh(t.ab) && fresh(t.ab.bytes)
      invariant Scan(sh, buffer[p..], t.View()) == Scan(sh, buffer, START)
      decreases |buffer| - p
    {
      var c, quoted := buffer[p], t.quoted;
      Ends(sh, buffer[p..], t.View());
      if c == '\n' && quoted == NONE {
        o := End(t, None);
        return;
      }
      if c == '#' && quoted == NONE && !t.backslash {
        o := End(t, None);
        return;
      }
      if c == ';' && quoted == NONE && !t.backslash {
        assert buffer[p..][1..] == buffer[p + 1..];
        o := End(t, Some(buffer[p + 1..]));
        return;
      }
      if c == '`' && quoted != '\'' && !t.backslash { return Substitution; }
      p := t.Character(sh, buffer, p);
    }
    o := End(t, None);
  }

  lemma Ends(sh: Shell, r: string, s: Lexer)
    requires r != ""
    ensures var (c, plain) := (r[0], s.quoted == NONE && !s.backslash);
            Next(sh, r, s) ==
            if c == '\n' && s.quoted == NONE then Stop(s, None)
            else if c == '#' && plain then Stop(s, None)
            else if c == ';' && plain then Stop(s, Some(r[1..]))
            else if c == '`' && s.quoted != '\'' && !s.backslash then Substitute
            else Next(sh, r, s)
    ensures Next(sh, r, s).Go? || (r[0] in "\n#;`" &&
              (r[0] == '\n' ==> s.quoted == NONE) && (r[0] in "#;" ==> s.quoted == NONE && !s.backslash) &&
              (r[0] == '`' ==> s.quoted != '\'' && !s.backslash))
  {
  }

  /** The code at `_done`. */
  method End(t: Tokenizer, more: Option<string>) returns (o: Outcome)
    requires t.Valid()
    ensures o == Finish(t.View(), more)
  {
    if t.quoted != NONE || t.backslash { return Incomplete; }
    var word := t.ab.bytes[..t.ab.length];
    return Words(if t.ab.length != 0 || t.forced then t.args + [word] else t.args, more);
  }
}
