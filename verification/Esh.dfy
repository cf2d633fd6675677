/**
  The tokenizer of the shell: a state machine over quotes and backslashes that collects
  words in a growable buffer.  `Scan` is the machine on values; `Show` writes any list of
  words so that the tokenizer reads it back.
 */
module Esh {
  import opened Common

  /** What an expansion can see: variables (with the special ones) and the home directory. */
  datatype Shell = Shell(lookup: string -> Option<string>, home: Option<string>)

  const NONE := '\0'

  /** `quoted` is the open quote or NONE; `word` is the argument under construction. */
  datatype Lexer = Lexer(quoted: char, backslash: bool, word: string, forced: bool, star: bool, args: seq<string>)

  const START := Lexer(NONE, false, "", false, false, [])

  // The markers that take the place of shell operators (characters 255 stand around a name).
  const MARK: char := '\U{FF}'
  const STAR_TOKEN := [MARK, MARK] + "STAR" + [MARK, MARK]
  const PIPE_TOKEN := [MARK, MARK] + "PIPE" + [MARK, MARK]
  const WRITE_TOKEN := [MARK, MARK] + "WRITE" + [MARK, MARK]
  const WRITE_ERR_TOKEN := [MARK, MARK] + "WRITEERR" + [MARK, MARK]

  // ----- pieces of the machine -----

  /** `add_argument` */
  function Add(s: Lexer): Lexer {
    s.(word := "", args := s.args + [s.word])
  }

  predicate Collecting(s: Lexer) {
    s.word != "" || s.forced
  }

  /** The code at `_new_arg`. */
  function NewArg(s: Lexer): Lexer {
    var t := s.(backslash := false);
    if Collecting(t) then Add(t).(star := false, forced := false) else t
  }

  /** The code at `_just_add`. */
  function JustAdd(s: Lexer, c: char): Lexer {
    s.(backslash := false, word := s.word + [c])
  }

  /** An operator: what was collected is one word, the operator's marker another. */
  function Operator(s: Lexer, token: string): Lexer {
    var t := (if Collecting(s) then Add(s) else s).(forced := false);
    NewArg(t.(word := t.word + token))
  }

  predicate VariableChar(c: char) {
    'A' <= c <= 'Z' || 'a' <= c <= 'z' || '0' <= c <= '9' || c == '_'
  }

  predicate SpecialName(c: char) {
    c == '?' || c == '$' || c == '#'
  }

  /** The longest prefix of r, of at most n characters, that a plain name can take. */
  function NameEnd(r: string, n: nat): (k: nat)
    ensures k <= |r|
  {
    if r == "" || n == 0 || !VariableChar(r[0]) then 0 else 1 + NameEnd(r[1..], n - 1)
  }

  function BraceEnd(r: string, n: nat): (k: nat)
    ensures k <= |r|
  {
    if r == "" || n == 0 || r[0] == '}' then 0 else 1 + BraceEnd(r[1..], n - 1)
  }

  /** The variable named behind a dollar sign, and what follows the name. */
  function Name(r: string): (n: (string, string))
    ensures |n.1| <= |r|
  {
    if r != "" && r[0] == '{' then
      var k := BraceEnd(r[1..], 100);
      var rest := r[1 + k..];
      (r[1..1 + k], if rest != "" && rest[0] == '}' then rest[1..] else rest)
    else if r != "" && (SpecialName(r[0]) || '0' <= r[0] <= '9') then (r[..1], r[1..])
    else var k := NameEnd(r, 100); (r[..k], r[k..])
  }

  /** The value of a variable enters the word; unquoted, its spaces separate words. */
  function Spread(s: Lexer, v: string): Lexer
    decreases |v|
  {
    if v == "" then s
    else if v[0] == ' ' && s.quoted == NONE then
      Spread(if Collecting(s) then Add(s).(star := false, forced := false) else s, v[1..])
    else Spread(s.(word := s.word + [v[0]]), v[1..])
  }

  datatype Move =
    | Go(next: Lexer, rest: string)         // on to the rest of the line
    | Stop(last: Lexer, more: Option<string>) // end of the command; `more` is what follows `;`
    | Substitute                            // a backquote: another command must be run

  function Quote(s: Lexer, c: char, rest: string): Move {
    var t := s.(forced := true);
    if s.backslash || (s.quoted != NONE && s.quoted != c) then Go(JustAdd(t, c), rest)
    else Go(t.(quoted := if s.quoted == c then NONE else c), rest)
  }

  /** One round of the loop of `shell_exec`: the character r[0]. */
  function Next(sh: Shell, r: string, s: Lexer): (m: Move)
    requires r != ""
    ensures m.Go? ==> |m.rest| < |r|
  {
    var c, rest, plain := r[0], r[1..], s.quoted == NONE && !s.backslash;
    match c
    case '$' =>
      if s.quoted == '\'' || s.backslash then Go(JustAdd(s, c), rest)
      else
        var (name, rest') := Name(rest);
        var v := sh.lookup(name);
        if v.Some? then Go(Spread(s, v.value), rest') else Go(s, rest')
    case '~' =>
      if plain && s.word == "" && sh.home.Some? && (rest == "" || rest[0] in "/\n ;")
      then Go(s.(word := s.word + sh.home.value), rest)
      else Go(JustAdd(s, c), rest)
    case '\"' => Quote(s, c, rest)
    case '\'' => Quote(s, c, rest)
    case '*' =>
      if plain && !s.star then Go(s.(star := true, word := s.word + STAR_TOKEN), rest) else Go(JustAdd(s, c), rest)
    case '\\' =>
      if s.quoted == '\'' || s.backslash then Go(JustAdd(s, c), rest) else Go(s.(backslash := true), rest)
    case ' ' => if plain then Go(NewArg(s), rest) else Go(JustAdd(s, c), rest)
    case '\n' => if s.quoted == NONE then Stop(s, None) else Go(JustAdd(s, c), rest)
    case '|' => if plain then Go(Operator(s, PIPE_TOKEN), rest) else Go(JustAdd(s, c), rest)
    case '>' =>
      if !plain then Go(JustAdd(s, c), rest)
      else if s.word == "2" then Go(NewArg(s.(forced := false, word := WRITE_ERR_TOKEN)), rest)
      else Go(Operator(s, WRITE_TOKEN), rest)
    case ';' => if plain then Stop(s, Some(rest)) else Go(JustAdd(s, c), rest)
    case '#' => if plain then Stop(s, None) else Go(JustAdd(s, c), rest)
    case '`' => if !s.backslash && s.quoted != '\'' then Substitute else Go(JustAdd(s, c), rest)
    case _ => Go(JustAdd(if s.backslash then s.(word := s.word + "\\") else s, c), rest)
  }

  datatype Outcome =
    | Words(args: seq<string>, more: Option<string>)
    | Incomplete                            // an open quote or backslash: another line is needed
    | Substitution

  function Finish(s: Lexer, more: Option<string>): Outcome {
    if s.quoted != NONE || s.backslash then Incomplete
    else Words(if Collecting(s) then s.args + [s.word] else s.args, more)
  }

  function Scan(sh: Shell, r: string, s: Lexer): Outcome
    decreases |r|
  {
    if r == "" then Finish(s, None)
    else
      match Next(sh, r, s)
      case Go(t, rest) => Scan(sh, rest, t)
      case Stop(t, more) => Finish(t, more)
      case Substitute => Substitution
  }

  // ----- writing words -----

  function ShowChar(c: char): string {
    if c == '\'' then "'\\''" else [c]
  }

  function ShowInner(a: string): string {
    if a == "" then "" else ShowChar(a[0]) + ShowInner(a[1..])
  }

  /** A word in single quotes. */
  function ShowWord(a: string): string {
    "'" + ShowInner(a) + "'"
  }

  function Show(args: seq<string>): string {
    if args == [] then "" else if |args| == 1 then ShowWord(args[0])
    else ShowWord(args[0]) + (" " + Show(args[1..]))
  }

  // ----- reading them back -----

  lemma ScanGo(sh: Shell, c: char, rest: string, s: Lexer, t: Lexer)
    requires Next(sh, [c] + rest, s) == Go(t, rest)
    ensures Scan(sh, [c] + rest, s) == Scan(sh, rest, t)
  {
  }

  /** Between single quotes every other character stands for itself. */
  lemma QuotedChar(sh: Shell, c: char, rest: string, s: Lexer)
    requires s.quoted == '\'' && !s.backslash && s.forced && c != '\''
    ensures Next(sh, [c] + rest, s) == Go(s.(word := s.word + [c]), rest)
  {
    assert ([c] + rest)[1..] == rest;
  }

  /** The way out of the quotes, a quoted quote, and back in. */
  lemma QuotedQuote(sh: Shell, rest: string, s: Lexer)
    requires s.quoted == '\'' && !s.backslash && s.forced
    ensures Scan(sh, "'\\''" + rest, s) == Scan(sh, rest, s.(word := s.word + ['\'']))
  {
    var r1, r2, r3 := "\\''" + rest, "''" + rest, "'" + rest;
    var s1 := s.(quoted := NONE);
    var s2 := s1.(backslash := true);
    var s3 := s1.(word := s.word + ['\'']);
    assert "'\\''" + rest == ['\''] + r1 && r1 == ['\\'] + r2 && r2 == ['\''] + r3 && r3 == ['\''] + rest;
    assert r1[1..] == r2 && r2[1..] == r3 && r3[1..] == rest && (['\''] + r1)[1..] == r1;
    ScanGo(sh, '\'', r1, s, s1);
    ScanGo(sh, '\\', r2, s1, s2);
    ScanGo(sh, '\'', r3, s2, s3);
    ScanGo(sh, '\'', rest, s3, s3.(quoted := '\''));
  }

  lemma {:induction false} InnerBack(sh: Shell, a: string, rest: string, s: Lexer)
    requires s.quoted == '\'' && !s.backslash && s.forced
    ensures Scan(sh, ShowInner(a) + rest, s) == Scan(sh, rest, s.(word := s.word + a))
  {
    hide Scan, Next;
    if a == "" {
      assert ShowInner(a) + rest == rest && s.word + a == s.word;
    } else {
      var c, tail := a[0], ShowInner(a[1..]) + rest;
      assert ShowInner(a) + rest == ShowChar(c) + tail;
      if c == '\'' {
        QuotedQuote(sh, tail, s);
      } else {
        QuotedChar(sh, c, tail, s);
        ScanGo(sh, c, tail, s, s.(word := s.word + [c]));
      }
      InnerBack(sh, a[1..], rest, s.(word := s.word + [c]));
      assert s.word + [c] + a[1..] == s.word + a;
    }
  }

  /** Outside quotes, and not behind a backslash. */
  predicate Plain(s: Lexer) { s.quoted == NONE && !s.backslash }

  /** A quoted word joins the word that is being collected. */
  lemma WordBack(sh: Shell, a: string, rest: string, s: Lexer)
    requires Plain(s)
    ensures Scan(sh, ShowWord(a) + rest, s) == Scan(sh, rest, s.(word := s.word + a, forced := true))
  {
    hide Scan, ShowInner;
    var tail := ShowInner(a) + ("'" + rest);
    var open := s.(quoted := '\'', forced := true);
    assert ShowWord(a) + rest == ['\''] + tail && (['\''] + tail)[1..] == tail;
    ScanGo(sh, '\'', tail, s, open);
    InnerBack(sh, a, "'" + rest, open);
    assert ("'" + rest)[1..] == rest && "'" + rest == ['\''] + rest;
    ScanGo(sh, '\'', rest, open.(word := s.word + a), s.(word := s.word + a, forced := true));
  }

  /** Tokenizing what `Show` wrote gives back the words: any number of them, empty ones and
      ones with blanks, quotes, newlines or operators included. */
  lemma {:induction false} ShowBack(sh: Shell, args: seq<string>, done: seq<string>)
    ensures Scan(sh, Show(args), START.(args := done)) == Words(done + args, None)
    decreases |args|
  {
    hide Scan, ShowWord;
    var s := START.(args := done);
    if args == [] {
      ScanEnd(sh, s);
      assert done + args == done;
    } else {
      var t := s.(word := args[0], forced := true);
      assert "" + args[0] == args[0];
      if |args| == 1 {
        assert ShowWord(args[0]) + "" == ShowWord(args[0]);
        WordBack(sh, args[0], "", s);
        ScanEnd(sh, t);
        assert args == [args[0]];
      } else {
        var rest := Show(args[1..]);
        WordBack(sh, args[0], " " + rest, s);
        assert " " + rest == [' '] + rest && ([' '] + rest)[1..] == rest;
        ScanGo(sh, ' ', rest, t, START.(args := done + [args[0]]));
        ShowBack(sh, args[1..], done + [args[0]]);
        assert done + [args[0]] + args[1..] == done + args;
      }
    }
  }

  lemma ScanEnd(sh: Shell, s: Lexer)
    ensures Scan(sh, "", s) == Finish(s, None)
  {
  }

  // ----- expansions -----

  /** The words of v: its stretches without spaces, none of them empty. */
  function Fields(word: string, v: string): seq<string>
    decreases |v|
  {
    if v == "" then if word == "" then [] else [word]
    else if v[0] == ' ' then (if word == "" then [] else [word]) + Fields("", v[1..])
    else Fields(word + [v[0]], v[1..])
  }

  function Spaced(ws: seq<string>): string {
    if ws == [] then "" else ws[0] + (" " + Spaced(ws[1..]))
  }

  /** Words without spaces that are written with spaces between them are the fields of what is written. */
  lemma {:induction false} FieldsBack(ws: seq<string>)
    requires forall i :: 0 <= i < |ws| ==> ws[i] != "" && ' ' !in ws[i]
    ensures Fields("", Spaced(ws)) == ws
    decreases |ws|
  {
    if ws != [] {
      var t := " " + Spaced(ws[1..]);
      FieldRead("", ws[0], t);
      assert "" + ws[0] == ws[0] && t[1..] == Spaced(ws[1..]) && ws == [ws[0]] + ws[1..];
      FieldsBack(ws[1..]);
    }
  }

  lemma {:induction false} FieldRead(word: string, a: string, t: string)
    requires ' ' !in a
    ensures Fields(word, a + t) == Fields(word + a, t)
    decreases |a|
  {
    if a == "" {
      assert a + t == t && word + a == word;
    } else {
      assert (a + t)[1..] == a[1..] + t && word + [a[0]] + a[1..] == word + a;
      FieldRead(word + [a[0]], a[1..], t);
    }
  }

  /** A space in a value ends the word that is being collected, also one that is only a pair of quotes. */
  lemma SpreadSpace(s: Lexer, v: string)
    requires s.quoted == NONE
    ensures Spread(s, " " + v) ==
            if s.word == "" && !s.forced then Spread(s, v)
            else Spread(s.(word := "", args := s.args + [s.word], star := false, forced := false), v)
  {
    assert (" " + v)[1..] == v;
  }

  /** A value that is spread and then ended is its fields. */
  lemma {:induction false} SpreadFields(s: Lexer, v: string)
    requires s.quoted == NONE && !s.backslash && !s.forced && !s.star
    ensures NewArg(Spread(s, v)) == s.(word := "", args := s.args + Fields(s.word, v))
    decreases |v|
  {
    if v == "" {
      assert s.args + [] == s.args;
    } else if v[0] == ' ' {
      var t := if Collecting(s) then Add(s).(star := false, forced := false) else s;
      SpreadFields(t, v[1..]);
      assert t.args + Fields("", v[1..]) == s.args + Fields(s.word, v);
    } else {
      SpreadFields(s.(word := s.word + [v[0]]), v[1..]);
    }
  }

  predicate Identifier(name: string) {
    0 < |name| <= 100 && !('0' <= name[0] <= '9') && forall i :: 0 <= i < |name| ==> VariableChar(name[i])
  }

  lemma {:induction false} NameRead(name: string, rest: string, n: nat)
    requires |name| <= n && (forall i :: 0 <= i < |name| ==> VariableChar(name[i]))
    requires rest == "" || !VariableChar(rest[0])
    ensures NameEnd(name + rest, n) == |name|
    decreases |name|
  {
    if name == "" {
      assert name + rest == rest;
    } else {
      assert (name + rest)[1..] == name[1..] + rest;
      NameRead(name[1..], rest, n - 1);
    }
  }

  lemma NameIs(name: string, rest: string)
    requires Identifier(name) && (rest == "" || !VariableChar(rest[0]))
    ensures Name(name + rest) == (name, rest)
  {
    NameRead(name, rest, 100);
    var r := name + rest;
    assert r[..|name|] == name && r[|name|..] == rest && r[0] == name[0] && VariableChar(name[0]);
  }

  /** Three ways to name a variable. */
  datatype Style = Bare | Braced | Special

  function ShowName(name: string, style: Style): string {
    if style == Braced then "{" + name + "}" else name
  }

  predicate NameOk(name: string, style: Style) {
    match style
    case Bare => Identifier(name)
    case Braced => |name| <= 100 && '}' !in name
    case Special => |name| == 1 && (name[0] in "?$#" || '0' <= name[0] <= '9')
  }

  lemma {:induction false} BraceRead(name: string, rest: string, n: nat)
    requires |name| <= n && '}' !in name && rest != "" && rest[0] == '}'
    ensures BraceEnd(name + rest, n) == |name|
    decreases |name|
  {
    if name == "" {
      assert name + rest == rest;
    } else {
      assert (name + rest)[1..] == name[1..] + rest;
      BraceRead(name[1..], rest, n - 1);
    }
  }

  lemma BracedBack(name: string, rest: string)
    requires |name| <= 100 && '}' !in name
    ensures Name("{" + name + "}" + rest) == (name, rest)
  {
    hide BraceEnd, NameEnd;
    var tail := "}" + rest;
    var r := "{" + name + "}" + rest;
    assert r == ['{'] + (name + tail);
    BraceRead(name, tail, 100);
    BracedSlices(r, name, tail);
    assert tail[1..] == rest;
  }

  lemma BracedSlices(r: string, name: string, tail: string)
    requires r == ['{'] + (name + tail)
    ensures r != "" && r[0] == '{' && r[1..] == name + tail && r[1..1 + |name|] == name && r[1 + |name|..] == tail
  {
  }

  lemma SpecialBack(name: string, rest: string)
    requires NameOk(name, Special)
    ensures Name(name + rest) == (name, rest)
  {
    hide BraceEnd, NameEnd;
    var r := name + rest;
    assert r[0] == name[0] && r[..1] == name && r[1..] == rest;
  }

  /** However it is written, the name is read up to its end. */
  lemma NameBack(name: string, style: Style, rest: string)
    requires NameOk(name, style) && (style == Bare ==> rest == "" || !VariableChar(rest[0]))
    ensures Name(ShowName(name, style) + rest) == (name, rest)
  {
    hide Identifier, Name;
    match style
    case Bare => NameIs(name, rest);
    case Braced => BracedBack(name, rest);
    case Special => SpecialBack(name, rest);
  }

  /** A variable, in double quotes or outside quotes: its value enters the word, and one that is not set
      leaves no trace. */
  lemma Expansion(sh: Shell, name: string, style: Style, rest: string, s: Lexer)
    requires NameOk(name, style) && (style == Bare ==> rest == "" || !VariableChar(rest[0]))
    requires !s.backslash && s.quoted != '\''
    ensures var v := sh.lookup(name);
            Scan(sh, "$" + ShowName(name, style) + rest, s) == Scan(sh, rest, if v.Some? then Spread(s, v.value) else s)
  {
    hide Name, Spread;
    var r := ShowName(name, style) + rest;
    NameBack(name, style, rest);
    assert "$" + ShowName(name, style) + rest == ['$'] + r && (['$'] + r)[1..] == r;
  }

  /** A value without spaces enters the word whole, quoted or not. */
  lemma {:induction false} SpreadSolid(s: Lexer, v: string)
    requires s.quoted != NONE || ' ' !in v
    ensures Spread(s, v) == s.(word := s.word + v)
    decreases |v|
  {
    if v == "" {
      assert s.word + v == s.word;
    } else {
      SpreadSolid(s.(word := s.word + [v[0]]), v[1..]);
      assert s.word + [v[0]] + v[1..] == s.word + v;
    }
  }
}
