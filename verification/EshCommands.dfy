/**
  Command lines as one writes them, and what the shell's tokenizer makes of them: words put together
  from bare text, quotes, variables, escapes, stars and tildes, and operators between them, with or
  without spaces.
 */
module EshCommands {
  import opened Common
  import opened Esh

  // ----- the written form -----

  /** Inside double quotes. */
  datatype Inner = Text(text: string) | Dollar(name: string, style: Style) | Slash(c: char)

  /** A piece of a word. */
  datatype Part =
    | Letters(text: string)
    | Single(text: string)
    | Double(inner: seq<Inner>)
    | Value(name: string, style: Style)
    | Escaped(c: char)
    | Star
    | Tilde

  /** A word, a variable that may be split into words, or an operator. */
  datatype Item = Word(parts: seq<Part>) | Split(name: string, style: Style) | Pipe | Write | WriteError

  /** An item and the number of spaces behind it. */
  datatype Spaced = Spaced(item: Item, gap: nat)

  function ShowInner(i: Inner): string {
    match i
    case Text(text) => text
    case Dollar(name, style) => "$" + ShowName(name, style)
    case Slash(c) => ['\\', c]
  }

  function ShowInners(xs: seq<Inner>): string {
    if xs == [] then "" else ShowInner(xs[0]) + ShowInners(xs[1..])
  }

  function ShowPart(p: Part): string {
    match p
    case Letters(text) => text
    case Single(text) => ShowWord(text)
    case Double(inner) => "\"" + (ShowInners(inner) + "\"")
    case Value(name, style) => "$" + ShowName(name, style)
    case Escaped(c) => ['\\', c]
    case Star => "*"
    case Tilde => "~"
  }

  function ShowParts(ps: seq<Part>): string {
    if ps == [] then "" else ShowPart(ps[0]) + ShowParts(ps[1..])
  }

  function ShowItem(i: Item): string {
    match i
    case Word(parts) => ShowParts(parts)
    case Split(name, style) => "$" + ShowName(name, style)
    case Pipe => "|"
    case Write => ">"
    case WriteError => "2>"
  }

  function Spaces(n: nat): string {
    if n == 0 then "" else " " + Spaces(n - 1)
  }

  function ShowLine(items: seq<Spaced>): string {
    if items == [] then "" else ShowItem(items[0].item) + (Spaces(items[0].gap) + ShowLine(items[1..]))
  }

  // ----- what it stands for -----

  /** The characters that mean something to the shell outside quotes. */
  predicate Meta(c: char) {
    || c == '$' || c == '~' || c == '\"' || c == '\'' || c == '*' || c == '\\' || c == ' '
    || c == '|' || c == '>' || c == ';' || c == '#' || c == '`'
  }

  function ValueOf(sh: Shell, name: string): string {
    var v := sh.lookup(name);
    if v.Some? then v.value else ""
  }

  function InnerText(sh: Shell, i: Inner): string {
    match i
    case Text(text) => text
    case Dollar(name, _) => ValueOf(sh, name)
    case Slash(c) => if Meta(c) || c == '\n' then [c] else ['\\', c]
  }

  function InnersText(sh: Shell, xs: seq<Inner>): string {
    if xs == [] then "" else InnerText(sh, xs[0]) + InnersText(sh, xs[1..])
  }

  /** `first` when nothing of the word has been collected yet; `star` when it has a star already. */
  function PartText(sh: Shell, p: Part, first: bool, star: bool): string {
    match p
    case Letters(text) => text
    case Single(text) => text
    case Double(inner) => InnersText(sh, inner)
    case Value(name, _) => ValueOf(sh, name)
    case Escaped(c) => if Meta(c) then [c] else ['\\', c]
    case Star => if star then "*" else STAR_TOKEN
    case Tilde => if first && sh.home.Some? then sh.home.value else "~"
  }

  /** The text of a word that goes on with `ps`. */
  function PartsText(sh: Shell, ps: seq<Part>, text: string, star: bool): string {
    if ps == [] then text
    else PartsText(sh, ps[1..], text + PartText(sh, ps[0], text == "", star), star || ps[0].Star?)
  }

  /** Quotes make a word even of nothing. */
  predicate Quotes(p: Part) {
    p.Single? || p.Double? || (p.Escaped? && (p.c == '\"' || p.c == '\''))
  }

  predicate SomeQuotes(ps: seq<Part>) {
    ps != [] && (Quotes(ps[0]) || SomeQuotes(ps[1..]))
  }

  /** The word has a star. */
  predicate Starred(star: bool, ps: seq<Part>)
    decreases |ps|
  {
    if ps == [] then star else Starred(star || ps[0].Star?, ps[1..])
  }

  function Arguments(sh: Shell, i: Item): seq<string> {
    match i
    case Word(parts) =>
      var text := PartsText(sh, parts, "", false);
      if text != "" || SomeQuotes(parts) then [text] else []
    case Split(name, _) => Fields("", ValueOf(sh, name))
    case Pipe => [PIPE_TOKEN]
    case Write => [WRITE_TOKEN]
    case WriteError => [WRITE_ERR_TOKEN]
  }

  function AllArguments(sh: Shell, items: seq<Spaced>): seq<string> {
    if items == [] then [] else Arguments(sh, items[0].item) + AllArguments(sh, items[1..])
  }

  // ----- what can be written, given the text behind it -----

  predicate NameEnds(style: Style, tail: string) {
    style == Bare ==> tail == "" || !VariableChar(tail[0])
  }

  predicate InnerOk(i: Inner, tail: string) {
    match i
    case Text(text) => forall x :: 0 <= x < |text| ==> text[x] !in "\"\\$`"
    case Dollar(name, style) => NameOk(name, style) && NameEnds(style, tail)
    case Slash(_) => true
  }

  predicate InnersOk(xs: seq<Inner>, tail: string) {
    xs != [] ==> InnerOk(xs[0], ShowInners(xs[1..]) + tail) && InnersOk(xs[1..], tail)
  }

  /** A tilde at the start of a word is the home directory if that is known and the word ends or a slash
      follows. */
  predicate PartOk(sh: Shell, p: Part, first: bool, tail: string) {
    match p
    case Letters(text) => forall x :: 0 <= x < |text| ==> !Meta(text[x]) && text[x] != '\n'
    case Single(_) => true
    case Double(inner) => InnersOk(inner, "\"" + tail)
    case Value(name, style) => NameOk(name, style) && NameEnds(style, tail) && ' ' !in ValueOf(sh, name)
    case Escaped(c) => c != '\n'
    case Star => true
    case Tilde => first && sh.home.Some? ==> tail == "" || tail[0] in "/\n ;"
  }

  predicate PartsOk(sh: Shell, ps: seq<Part>, text: string, star: bool, tail: string) {
    ps != [] ==>
      && PartOk(sh, ps[0], text == "", ShowParts(ps[1..]) + tail)
      && PartsOk(sh, ps[1..], text + PartText(sh, ps[0], text == "", star), star || ps[0].Star?, tail)
  }

  /** Where a word ends by itself. */
  predicate Stops(tail: string) {
    tail == "" || tail[0] in " \n;|>#"
  }

  /** A word that reads `2` in front of `>` is part of the operator. */
  predicate ItemOk(sh: Shell, i: Item, tail: string) {
    match i
    case Word(parts) =>
      && PartsOk(sh, parts, "", false, tail) && Stops(tail)
      && (tail != "" && tail[0] == '>' ==> PartsText(sh, parts, "", false) != "2")
    case Split(name, style) => NameOk(name, style) && Stops(tail) && (tail != "" ==> tail[0] != '>')
    case _ => true
  }

  predicate LineOk(sh: Shell, items: seq<Spaced>, tail: string) {
    items != [] ==>
      && ItemOk(sh, items[0].item, Spaces(items[0].gap) + (ShowLine(items[1..]) + tail))
      && LineOk(sh, items[1..], tail)
  }

  // ----- inside double quotes -----

  lemma DoubleChar(sh: Shell, c: char, rest: string, s: Lexer)
    requires s.quoted == '\"' && !s.backslash && s.forced && c !in "\"\\$`"
    ensures Next(sh, [c] + rest, s) == Go(s.(word := s.word + [c]), rest)
  {
    hide Name, Spread, NewArg, Operator;
    assert ([c] + rest)[1..] == rest;
  }

  /** A character that expands nothing is itself, stars and operators included. */
  lemma {:induction false} TextBack(sh: Shell, a: string, rest: string, s: Lexer)
    requires s.quoted == '\"' && !s.backslash && s.forced && forall x :: 0 <= x < |a| ==> a[x] !in "\"\\$`"
    ensures Scan(sh, a + rest, s) == Scan(sh, rest, s.(word := s.word + a))
    decreases |a|
  {
    hide Scan, Next;
    if a == "" {
      assert a + rest == rest && s.word + a == s.word;
    } else {
      var c, tail := a[0], a[1..] + rest;
      assert a + rest == [c] + tail;
      DoubleChar(sh, c, tail, s);
      ScanGo(sh, c, tail, s, s.(word := s.word + [c]));
      TextBack(sh, a[1..], rest, s.(word := s.word + [c]));
      assert s.word + [c] + a[1..] == s.word + a;
    }
  }

  /** A backslash makes a special character ordinary and stays in front of any other. */
  lemma SlashNext(sh: Shell, c: char, rest: string, s: Lexer)
    requires s.backslash && s.quoted != '\'' && (c == '\n' ==> s.quoted != NONE)
    ensures Next(sh, [c] + rest, s) ==
            Go(s.(backslash := false, forced := s.forced || c == '\"' || c == '\'',
                  word := s.word + if Meta(c) || c == '\n' then [c] else ['\\', c]), rest)
  {
    hide Name, Spread, NewArg, Operator;
    assert ([c] + rest)[1..] == rest && s.word + "\\" + [c] == s.word + ['\\', c];
  }

  lemma SlashBack(sh: Shell, c: char, rest: string, s: Lexer)
    requires !s.backslash && s.quoted != '\'' && (c == '\n' ==> s.quoted != NONE)
    ensures Scan(sh, ['\\', c] + rest, s) ==
            Scan(sh, rest, s.(forced := s.forced || c == '\"' || c == '\'',
                              word := s.word + if Meta(c) || c == '\n' then [c] else ['\\', c]))
  {
    hide Scan, Meta;
    var tail, t := [c] + rest, s.(backslash := true);
    assert ['\\', c] + rest == ['\\'] + tail && (['\\'] + tail)[1..] == tail;
    ScanGo(sh, '\\', tail, s, t);
    SlashNext(sh, c, rest, t);
    ScanGo(sh, c, rest, t, Next(sh, tail, t).next);
  }

  lemma InnerBack(sh: Shell, i: Inner, tail: string, s: Lexer)
    requires s.quoted == '\"' && !s.backslash && s.forced && InnerOk(i, tail)
    ensures Scan(sh, ShowInner(i) + tail, s) == Scan(sh, tail, s.(word := s.word + InnerText(sh, i)))
  {
    hide Scan, Meta, Spread, NameOk, ShowName;
    match i
    case Text(text) => TextBack(sh, text, tail, s);
    case Dollar(name, style) =>
      Expansion(sh, name, style, tail, s);
      SpreadSolid(s, ValueOf(sh, name));
      assert s.word + "" == s.word;
    case Slash(c) => SlashBack(sh, c, tail, s);
  }

  lemma {:induction false} InnersBack(sh: Shell, xs: seq<Inner>, tail: string, s: Lexer)
    requires s.quoted == '\"' && !s.backslash && s.forced && InnersOk(xs, tail)
    ensures Scan(sh, ShowInners(xs) + tail, s) == Scan(sh, tail, s.(word := s.word + InnersText(sh, xs)))
    decreases |xs|
  {
    hide Scan, InnerOk, ShowInner, InnerText;
    if xs == [] {
      assert ShowInners(xs) + tail == tail && s.word + "" == s.word;
    } else {
      var a, rest := ShowInner(xs[0]), ShowInners(xs[1..]);
      assert a + rest + tail == a + (rest + tail);
      InnerBack(sh, xs[0], rest + tail, s);
      var t := InnerText(sh, xs[0]);
      InnersBack(sh, xs[1..], tail, s.(word := s.word + t));
      assert s.word + t + InnersText(sh, xs[1..]) == s.word + (t + InnersText(sh, xs[1..]));
    }
  }

  lemma DoubleBack(sh: Shell, xs: seq<Inner>, tail: string, s: Lexer)
    requires Plain(s) && InnersOk(xs, "\"" + tail)
    ensures Scan(sh, "\"" + (ShowInners(xs) + "\"") + tail, s) ==
            Scan(sh, tail, s.(word := s.word + InnersText(sh, xs), forced := true))
  {
    hide Scan, ShowInners, InnersOk, InnersText;
    var rest, open := ShowInners(xs) + ("\"" + tail), s.(quoted := '\"', forced := true);
    assert "\"" + (ShowInners(xs) + "\"") + tail == ['\"'] + rest && (['\"'] + rest)[1..] == rest;
    ScanGo(sh, '\"', rest, s, open);
    InnersBack(sh, xs, "\"" + tail, open);
    assert "\"" + tail == ['\"'] + tail && (['\"'] + tail)[1..] == tail;
    var t := s.word + InnersText(sh, xs);
    ScanGo(sh, '\"', tail, open.(word := t), s.(word := t, forced := true));
  }

  // ----- a word -----

  /** Outside quotes an ordinary character joins the word. */
  lemma LetterNext(sh: Shell, c: char, rest: string, s: Lexer)
    requires Plain(s) && !Meta(c) && c != '\n'
    ensures Next(sh, [c] + rest, s) == Go(s.(word := s.word + [c]), rest)
  {
    hide Name, Spread, NewArg, Operator;
    assert ([c] + rest)[1..] == rest;
  }

  lemma {:induction false} LettersBack(sh: Shell, a: string, rest: string, s: Lexer)
    requires Plain(s) && forall x :: 0 <= x < |a| ==> !Meta(a[x]) && a[x] != '\n'
    ensures Scan(sh, a + rest, s) == Scan(sh, rest, s.(word := s.word + a))
    decreases |a|
  {
    hide Scan, Next, Meta;
    if a == "" {
      assert a + rest == rest && s.word + a == s.word;
    } else {
      var c, tail := a[0], a[1..] + rest;
      assert a + rest == [c] + tail;
      LetterNext(sh, c, tail, s);
      ScanGo(sh, c, tail, s, s.(word := s.word + [c]));
      LettersBack(sh, a[1..], rest, s.(word := s.word + [c]));
      assert s.word + [c] + a[1..] == s.word + a;
    }
  }

  /** A star leaves a mark for the later expansion of file names, the first one in a word. */
  lemma StarBack(sh: Shell, tail: string, s: Lexer)
    requires Plain(s)
    ensures Scan(sh, "*" + tail, s) ==
            Scan(sh, tail, s.(star := true, word := s.word + if s.star then "*" else STAR_TOKEN))
  {
    hide Scan;
    assert (['*'] + tail)[1..] == tail;
    ScanGo(sh, '*', tail, s, s.(star := true, word := s.word + if s.star then "*" else STAR_TOKEN));
  }

  /** A tilde at the start of a word is the home directory if that is known and the word ends or a slash
      follows; any other tilde is itself. */
  lemma TildeBack(sh: Shell, tail: string, s: Lexer)
    requires Plain(s)
    ensures var home := s.word == "" && sh.home.Some? && (tail == "" || tail[0] in "/\n ;");
            Scan(sh, "~" + tail, s) == Scan(sh, tail, s.(word := s.word + if home then sh.home.value else "~"))
  {
    hide Scan;
    assert (['~'] + tail)[1..] == tail;
    var home := s.word == "" && sh.home.Some? && (tail == "" || tail[0] in "/\n ;");
    ScanGo(sh, '~', tail, s, s.(word := s.word + if home then sh.home.value else "~"));
  }

  /** What has been read of a word once `p` is read, too. */
  function With(sh: Shell, s: Lexer, p: Part): Lexer {
    s.(word := s.word + PartText(sh, p, s.word == "", s.star), forced := s.forced || Quotes(p), star := s.star || p.Star?)
  }

  lemma PartBack(sh: Shell, p: Part, tail: string, s: Lexer)
    requires Plain(s) && PartOk(sh, p, s.word == "", tail)
    ensures Scan(sh, ShowPart(p) + tail, s) == Scan(sh, tail, With(sh, s, p))
  {
    hide Scan, Meta, Spread, NameOk, ShowName, ShowInners, InnersText, InnersOk, ShowWord;
    match p
    case Letters(text) => LettersBack(sh, text, tail, s);
    case Single(text) => WordBack(sh, text, tail, s);
    case Double(inner) => DoubleBack(sh, inner, tail, s);
    case Value(name, style) =>
      Expansion(sh, name, style, tail, s);
      SpreadSolid(s, ValueOf(sh, name));
      assert s.word + "" == s.word;
    case Escaped(c) => SlashBack(sh, c, tail, s);
    case Star => StarBack(sh, tail, s);
    case Tilde => TildeBack(sh, tail, s);
  }

  /** Parts that adjoin are one word. */
  lemma {:induction false} PartsBack(sh: Shell, ps: seq<Part>, tail: string, s: Lexer)
    requires Plain(s) && PartsOk(sh, ps, s.word, s.star, tail)
    ensures Scan(sh, ShowParts(ps) + tail, s) ==
            Scan(sh, tail, s.(word := PartsText(sh, ps, s.word, s.star), forced := s.forced || SomeQuotes(ps),
                              star := Starred(s.star, ps)))
    decreases |ps|
  {
    hide Scan, PartOk, ShowPart, PartText, Quotes;
    if ps == [] {
      assert ShowParts(ps) + tail == tail;
    } else {
      var a, rest := ShowPart(ps[0]), ShowParts(ps[1..]);
      assert a + rest + tail == a + (rest + tail);
      PartBack(sh, ps[0], rest + tail, s);
      PartsBack(sh, ps[1..], tail, With(sh, s, ps[0]));
    }
  }

  // ----- items -----

  /** Between words, with `args` collected. */
  function Between(args: seq<string>): Lexer { START.(args := args) }

  lemma OperatorBack(sh: Shell, c: char, token: string, rest: string, s: Lexer)
    requires Plain(s) && ((c == '|' && token == PIPE_TOKEN) || (c == '>' && token == WRITE_TOKEN && s.word != "2"))
    ensures Scan(sh, [c] + rest, s) == Scan(sh, rest, Between(NewArg(s).args + [token]))
  {
    hide Scan;
    assert ([c] + rest)[1..] == rest && "" + token == token;
    ScanGo(sh, c, rest, s, Between(NewArg(s).args + [token]));
  }

  /** A word that reads `2`, in quotes or not, is the error stream when `>` follows. */
  lemma TwoBack(sh: Shell, rest: string, s: Lexer)
    requires Plain(s) && s.word == "2"
    ensures Scan(sh, ">" + rest, s) == Scan(sh, rest, Between(s.args + [WRITE_ERR_TOKEN]))
  {
    hide Scan;
    assert ">" + rest == ['>'] + rest && (['>'] + rest)[1..] == rest;
    ScanGo(sh, '>', rest, s, Between(s.args + [WRITE_ERR_TOKEN]));
  }

  lemma ErrorBack(sh: Shell, rest: string, args: seq<string>)
    ensures Scan(sh, "2>" + rest, Between(args)) == Scan(sh, rest, Between(args + [WRITE_ERR_TOKEN]))
  {
    hide Scan;
    var tail := ">" + rest;
    assert "2>" + rest == ['2'] + tail && (['2'] + tail)[1..] == tail && "" + ['2'] == "2";
    ScanGo(sh, '2', tail, Between(args), Between(args).(word := "2"));
    TwoBack(sh, rest, Between(args).(word := "2"));
  }

  lemma SpaceBack(sh: Shell, rest: string, s: Lexer)
    requires Plain(s)
    ensures Scan(sh, " " + rest, s) == Scan(sh, rest, NewArg(s))
    ensures NewArg(NewArg(s)) == NewArg(s) && Plain(NewArg(s)) && NewArg(s).word == ""
  {
    hide Scan;
    assert " " + rest == [' '] + rest && ([' '] + rest)[1..] == rest;
    ScanGo(sh, ' ', rest, s, NewArg(s));
  }

  /** Where a word may end, it ends. */
  lemma WordEnds(sh: Shell, tail: string, s: Lexer)
    requires Plain(s) && Stops(tail) && (tail != "" && tail[0] == '>' ==> s.word != "2")
    ensures Scan(sh, tail, s) == Scan(sh, tail, NewArg(s))
  {
    SpaceBack(sh, "", s);
    if tail != "" {
      var rest := tail[1..];
      assert tail == [tail[0]] + rest;
      if tail[0] == ' ' {
        hide Scan;
        SpaceBack(sh, rest, s);
        SpaceBack(sh, rest, NewArg(s));
      } else if tail[0] == '|' || tail[0] == '>' {
        hide Scan;
        var token := if tail[0] == '|' then PIPE_TOKEN else WRITE_TOKEN;
        OperatorBack(sh, tail[0], token, rest, s);
        OperatorBack(sh, tail[0], token, rest, NewArg(s));
      }
    }
  }

  lemma WordItem(sh: Shell, parts: seq<Part>, tail: string, args: seq<string>)
    requires ItemOk(sh, Word(parts), tail)
    ensures Scan(sh, ShowParts(parts) + tail, Between(args)) ==
            Scan(sh, tail, Between(args + Arguments(sh, Word(parts))))
  {
    hide Scan, PartsOk, PartsText, SomeQuotes, Stops, ShowParts;
    var s := Between(args);
    PartsBack(sh, parts, tail, s);
    var t := s.(word := PartsText(sh, parts, "", false), forced := SomeQuotes(parts), star := Starred(false, parts));
    StarWord(sh, parts, "", false);
    WordEnds(sh, tail, t);
    assert args + [] == args;
  }

  /** A word with a star has text. */
  lemma {:induction false} StarWord(sh: Shell, ps: seq<Part>, text: string, star: bool)
    requires star ==> text != ""
    ensures Starred(star, ps) ==> PartsText(sh, ps, text, star) != ""
    decreases |ps|
  {
    if ps != [] {
      hide ValueOf, InnersText;
      StarWord(sh, ps[1..], text + PartText(sh, ps[0], text == "", star), star || ps[0].Star?);
    }
  }

  lemma {:induction false} SpreadPlain(s: Lexer, v: string)
    ensures Spread(s, v).quoted == s.quoted && Spread(s, v).backslash == s.backslash
    decreases |v|
  {
    if v != "" {
      if v[0] == ' ' && s.quoted == NONE {
        SpreadPlain(if Collecting(s) then Add(s).(star := false, forced := false) else s, v[1..]);
      } else {
        SpreadPlain(s.(word := s.word + [v[0]]), v[1..]);
      }
    }
  }

  /** A variable by itself is the words of its value. */
  lemma SplitItem(sh: Shell, name: string, style: Style, tail: string, args: seq<string>)
    requires ItemOk(sh, Split(name, style), tail)
    ensures Scan(sh, "$" + ShowName(name, style) + tail, Between(args)) ==
            Scan(sh, tail, Between(args + Fields("", ValueOf(sh, name))))
  {
    hide Scan, Spread, Fields, NameOk, ShowName;
    var s, v := Between(args), ValueOf(sh, name);
    Expansion(sh, name, style, tail, s);
    SpreadFields(s, v);
    SpreadPlain(s, v);
    SpreadNothing(s);
    WordEnds(sh, tail, Spread(s, v));
  }

  lemma SpreadNothing(s: Lexer)
    ensures Spread(s, "") == s
  {
  }

  /** One item, read between words. */
  lemma ItemBack(sh: Shell, i: Item, tail: string, args: seq<string>)
    requires ItemOk(sh, i, tail)
    ensures Scan(sh, ShowItem(i) + tail, Between(args)) == Scan(sh, tail, Between(args + Arguments(sh, i)))
  {
    hide Scan, ShowParts, PartsOk, PartsText, SomeQuotes, Fields, NameOk, ShowName, Stops;
    match i {
      case Word(parts) => WordItem(sh, parts, tail, args);
      case Split(name, style) => SplitItem(sh, name, style, tail, args);
      case Pipe => OperatorBack(sh, '|', PIPE_TOKEN, tail, Between(args));
      case Write => OperatorBack(sh, '>', WRITE_TOKEN, tail, Between(args));
      case WriteError => ErrorBack(sh, tail, args);
    }
  }

  // ----- a line -----

  lemma {:induction false} SpacesBack(sh: Shell, n: nat, rest: string, args: seq<string>)
    ensures Scan(sh, Spaces(n) + rest, Between(args)) == Scan(sh, rest, Between(args))
  {
    hide Scan;
    if n == 0 {
      assert Spaces(n) + rest == rest;
    } else {
      assert Spaces(n) + rest == " " + (Spaces(n - 1) + rest);
      SpaceBack(sh, Spaces(n - 1) + rest, Between(args));
      SpacesBack(sh, n - 1, rest, args);
    }
  }

  /** A line of items becomes their arguments, and what follows it is read on from there. */
  lemma {:induction false} LineBack(sh: Shell, items: seq<Spaced>, tail: string, args: seq<string>)
    requires LineOk(sh, items, tail)
    ensures Scan(sh, ShowLine(items) + tail, Between(args)) == Scan(sh, tail, Between(args + AllArguments(sh, items)))
    decreases |items|
  {
    hide Scan, ShowItem, Arguments, Between, Spaces, ItemOk;
    if items == [] {
      assert ShowLine(items) + tail == tail && args + [] == args;
    } else {
      var i, gap, rest := items[0].item, Spaces(items[0].gap), ShowLine(items[1..]);
      var a, b := Arguments(sh, i), AllArguments(sh, items[1..]);
      assert ShowLine(items) + tail == ShowItem(i) + (gap + (rest + tail));
      ItemBack(sh, i, gap + (rest + tail), args);
      SpacesBack(sh, items[0].gap, rest + tail, args + a);
      LineBack(sh, items[1..], tail, args + a);
      assert args + a + b == args + (a + b);
    }
  }

  /** A line ends at its end, at a newline or a comment, or at a semicolon, behind which another
      command begins. */
  lemma CommandBack(sh: Shell, items: seq<Spaced>, tail: string)
    requires LineOk(sh, items, tail) && (tail == "" || tail[0] in "\n#;")
    ensures Scan(sh, ShowLine(items) + tail, START) ==
            Words(AllArguments(sh, items), if tail != "" && tail[0] == ';' then Some(tail[1..]) else None)
  {
    var args := AllArguments(sh, items);
    Ended(sh, tail, args);
    hide Scan, ShowLine, AllArguments, LineOk;
    assert Between([]) == START && [] + args == args;
    LineBack(sh, items, tail, []);
  }

  lemma Ended(sh: Shell, tail: string, args: seq<string>)
    requires tail == "" || tail[0] in "\n#;"
    ensures Scan(sh, tail, Between(args)) == Words(args, if tail != "" && tail[0] == ';' then Some(tail[1..]) else None)
  {
  }

  predicate Ordinary(a: string) { forall x :: 0 <= x < |a| ==> !Meta(a[x]) && a[x] != '\n' }

  /** In particular: bare text, a double-quoted and a single-quoted one that adjoin are one word; an operator
      needs no spaces; and plain words with spaces between them are themselves. */
  lemma Adjoining(sh: Shell, a: string, b: string, c: string)
    requires Ordinary(a) && Ordinary(b) && a != "" && b != ""
    ensures Scan(sh, a + ("\"" + (b + "\"") + ShowWord(c)), START) == Words([a + b + c], None)
    ensures Scan(sh, a + ("|" + b), START) == Words([a, PIPE_TOKEN, b], None)
    ensures Scan(sh, a + (" " + b), START) == Words([a, b], None)
  {
    hide Scan, ShowWord, Meta;
    var s := START.(word := a);
    assert "" + a == a && "" + b == b && b + "" == b && NewArg(s).args == [] + [a] == [a] && NewArg(s) == Between([a]);
    assert [a] + [PIPE_TOKEN] == [a, PIPE_TOKEN] && [a, PIPE_TOKEN] + [b] == [a, PIPE_TOKEN, b] && [a] + [b] == [a, b];
    LettersBack(sh, a, "\"" + (b + "\"") + ShowWord(c), START);
    Quotable(b);
    OneText(sh, b, "\"" + ShowWord(c));
    DoubleBack(sh, [Text(b)], ShowWord(c), s);
    assert ShowWord(c) + "" == ShowWord(c);
    WordBack(sh, c, "", s.(word := a + b, forced := true));
    LettersBack(sh, a, "|" + b, START);
    OperatorBack(sh, '|', PIPE_TOKEN, b, s);
    LettersBack(sh, b, "", Between([a, PIPE_TOKEN]));
    LettersBack(sh, a, " " + b, START);
    SpaceBack(sh, b, s);
    LettersBack(sh, b, "", Between([a]));
    ScanEnd(sh, s.(word := a + b + c, forced := true));
    ScanEnd(sh, Between([a, PIPE_TOKEN]).(word := b));
    ScanEnd(sh, Between([a]).(word := b));
  }

  lemma Quotable(a: string)
    requires Ordinary(a)
    ensures forall x :: 0 <= x < |a| ==> a[x] !in "\"\\$`"
  {
  }

  lemma OneText(sh: Shell, a: string, tail: string)
    requires forall x :: 0 <= x < |a| ==> a[x] !in "\"\\$`"
    ensures ShowInners([Text(a)]) == a && InnersText(sh, [Text(a)]) == a && InnersOk([Text(a)], tail)
  {
    assert [Text(a)][1..] == [] && a + "" == a;
  }

  // ----- lines that are not finished -----

  /** A quote that is never closed and a backslash at the end of the line ask for more input; a backquote asks for
      another command. */
  lemma Unfinished(sh: Shell, text: string, s: Lexer)
    requires Plain(s)
    ensures '\'' !in text ==> Scan(sh, "'" + text, s) == Incomplete
    ensures Scan(sh, "\\", s) == Incomplete && Scan(sh, "\\\n" + text, s) == Incomplete
    ensures Scan(sh, "`" + text, s) == Substitution && Scan(sh, "`" + text, s.(quoted := '\"')) == Substitution
  {
    var open, slash := s.(quoted := '\'', forced := true), s.(backslash := true);
    assert "'" + text == ['\''] + text && (['\''] + text)[1..] == text;
    assert "\\\n" + text == ['\\'] + (['\n'] + text) && (['\\'] + (['\n'] + text))[1..] == ['\n'] + text;
    assert "\\" == ['\\'] + "" && (['\\'] + "")[1..] == "";
    ScanGo(sh, '\\', "", s, slash);
    ScanGo(sh, '\\', ['\n'] + text, s, slash);
    if '\'' !in text {
      ScanGo(sh, '\'', text, s, open);
      NeverClosed(sh, text, open);
    }
  }

  lemma {:induction false} NeverClosed(sh: Shell, text: string, s: Lexer)
    requires s.quoted == '\'' && !s.backslash && s.forced && '\'' !in text
    ensures Scan(sh, text, s) == Incomplete
    decreases |text|
  {
    if text != "" {
      QuotedChar(sh, text[0], text[1..], s);
      assert text == [text[0]] + text[1..];
      NeverClosed(sh, text[1..], s.(word := s.word + [text[0]]));
    }
  }
}
