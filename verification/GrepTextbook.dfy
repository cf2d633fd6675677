/**
  Patterns in textbook form: a list of quantified characters and anchors.  `InLang` is its
  language of strings, in their surroundings on the line.  Every pattern text is such a list,
  its groups included, and the theorems say when grep's matcher decides that language.
 */
module GrepTextbook {
  import opened Common
  import opened GrepChars
  import opened GrepLang
  import opened GrepMatch
  import opened GrepGroups

  datatype Piece = Rep(a: Atom, q: Quant) | Begin | End | Nothing

  // ----- the language -----

  /** `w` is matched by a piece where `before` and `after` surround it. */
  predicate InPiece(x: Piece, before: string, w: string, after: string, mode: Mode) {
    match x
    case Begin => before == "" && w == ""
    case End => w == "" && after == ""
    case Nothing => false
    case Rep(a, q) =>
      && (forall i :: 0 <= i < |w| ==> Accepts(a, w[i], mode))
      && match q
         case Once => |w| == 1
         case Optional => |w| <= 1
         case AtLeastOnce => |w| >= 1
         case AnyTimes => true
  }

  /** The concatenation of the pieces' languages. */
  ghost predicate InLang(xs: seq<Piece>, before: string, w: string, after: string, mode: Mode)
    decreases |xs|
  {
    if xs == [] then w == ""
    else
      exists m :: 0 <= m <= |w| &&
        InPiece(xs[0], before, w[..m], w[m..] + after, mode) && InLang(xs[1..], before + w[..m], w[m..], after, mode)
  }

  /** line[j..e] is matched by the pieces. */
  ghost predicate Denotes(xs: seq<Piece>, line: string, mode: Mode, j: nat, e: nat) {
    j <= e <= |line| && InLang(xs, line[..j], line[j..e], line[e..], mode)
  }

  // ----- the same in positions -----

  ghost predicate PieceTakes(t: Text, x: Piece, k: nat, m: nat) {
    match x
    case Begin => k == m == 0
    case End => k == m == |t.line|
    case Nothing => false
    case Rep(a, q) => Takes(t, a, q, k, m)
  }

  /** The pieces lead from position k to position e. */
  ghost predicate Path(t: Text, xs: seq<Piece>, k: nat, e: nat)
    decreases |xs|
  {
    if xs == [] then k == e <= |t.line|
    else exists m: nat :: PieceTakes(t, xs[0], k, m) && Path(t, xs[1..], m, e)
  }

  lemma PathCons(t: Text, x: Piece, xs: seq<Piece>, k: nat, e: nat)
    ensures Path(t, [x] + xs, k, e) <==> exists m: nat :: PieceTakes(t, x, k, m) && Path(t, xs, m, e)
  {
    hide PieceTakes;
    assert ([x] + xs)[1..] == xs;
  }

  lemma {:induction false} PathBounds(t: Text, xs: seq<Piece>, k: nat, e: nat)
    requires Path(t, xs, k, e)
    ensures k <= e <= |t.line|
    decreases |xs|
  {
    if xs != [] {
      var m: nat :| PieceTakes(t, xs[0], k, m) && Path(t, xs[1..], m, e);
      PathBounds(t, xs[1..], m, e);
    }
  }

  lemma TakesWord(t: Text, x: Piece, k: nat, m: nat)
    requires k <= m <= |t.line|
    ensures PieceTakes(t, x, k, m) <==> InPiece(x, t.line[..k], t.line[k..m], t.line[m..], t.mode)
  {
    hide Accepts;
    var w := t.line[k..m];
    if x.Rep? {
      assert t.Run(x.a, k, m) <==> forall i :: 0 <= i < |w| ==> Accepts(x.a, w[i], t.mode) by {
        if t.Run(x.a, k, m) {
          forall i | 0 <= i < |w| ensures Accepts(x.a, w[i], t.mode) { assert t.Fits(x.a, k + i); }
        }
        if forall i :: 0 <= i < |w| ==> Accepts(x.a, w[i], t.mode) {
          forall i | k <= i < m ensures t.Fits(x.a, i) { assert Accepts(x.a, w[i - k], t.mode); }
        }
      }
    }
  }

  lemma Slices(line: string, k: nat, m: nat, e: nat)
    requires k <= m <= e <= |line|
    ensures line[k..e][..m - k] == line[k..m] && line[k..e][m - k..] == line[m..e]
    ensures line[..k] + line[k..m] == line[..m] && line[m..e] + line[e..] == line[m..]
  {
  }

  lemma {:induction false} PathDenotes(t: Text, xs: seq<Piece>, k: nat, e: nat)
    ensures Path(t, xs, k, e) <==> Denotes(xs, t.line, t.mode, k, e)
    decreases |xs|
  {
    hide PieceTakes, InPiece;
    if xs == [] { return; }
    if Path(t, xs, k, e) {
      var m: nat :| PieceTakes(t, xs[0], k, m) && Path(t, xs[1..], m, e);
      PathBounds(t, xs[1..], m, e);
      TakesBounds(t, xs[0], k, m);
      PathDenotes(t, xs[1..], m, e);
      TakesWord(t, xs[0], k, m);
      Slices(t.line, k, m, e);
    }
    if Denotes(xs, t.line, t.mode, k, e) {
      var w := t.line[k..e];
      var n :| 0 <= n <= |w| && InPiece(xs[0], t.line[..k], w[..n], w[n..] + t.line[e..], t.mode) &&
               InLang(xs[1..], t.line[..k] + w[..n], w[n..], t.line[e..], t.mode);
      Slices(t.line, k, k + n, e);
      TakesWord(t, xs[0], k, k + n);
      PathDenotes(t, xs[1..], k + n, e);
    }
  }

  lemma TakesBounds(t: Text, x: Piece, k: nat, m: nat)
    requires PieceTakes(t, x, k, m)
    ensures k <= m <= |t.line|
  {
  }

  lemma {:induction false} PathConcat(t: Text, xs: seq<Piece>, ys: seq<Piece>, k: nat, m: nat, e: nat)
    requires Path(t, xs, k, m) && Path(t, ys, m, e)
    ensures Path(t, xs + ys, k, e)
    decreases |xs|
  {
    hide PieceTakes;
    if xs == [] {
      assert xs + ys == ys;
    } else {
      var n: nat :| PieceTakes(t, xs[0], k, n) && Path(t, xs[1..], n, m);
      PathConcat(t, xs[1..], ys, n, m, e);
      assert (xs + ys)[1..] == xs[1..] + ys;
    }
  }

  lemma {:induction false} PathSplit(t: Text, xs: seq<Piece>, ys: seq<Piece>, k: nat, e: nat) returns (m: nat)
    requires Path(t, xs + ys, k, e)
    ensures Path(t, xs, k, m) && Path(t, ys, m, e)
    decreases |xs|
  {
    hide PieceTakes;
    if xs == [] {
      assert xs + ys == ys;
      PathBounds(t, ys, k, e);
      m := k;
    } else {
      assert (xs + ys)[1..] == xs[1..] + ys;
      var n: nat :| PieceTakes(t, (xs + ys)[0], k, n) && Path(t, (xs + ys)[1..], n, e);
      m := PathSplit(t, xs[1..], ys, n, e);
    }
  }

  // ----- from text to pieces -----

  /** The pieces of the pattern from `i` on, up to the `)` of the group one is in or else to the end.
      Parentheses only group.  An optional atom in front of `^` is never there. */
  function Pieces(p: Pattern, i: nat, anchor: bool, open: bool): seq<Piece>
    requires i <= |p|
    decreases |p| - i
  {
    match ItemAt(p, i, anchor, open)
    case Finish => if open then [Nothing] else []
    case Broken => [Nothing]
    case Lone => [Nothing]
    case Leave => []
    case Start => [Begin] + Pieces(p, i + 1, false, open)
    case Stop => [End] + Pieces(p, i + 1, false, open)
    case Enter =>
      var o := Out(p, i + 1, true);
      if o.None? then [Nothing] else Pieces(p, i + 1, true, true) + Pieces(p, o.value, false, open)
    case Item(a, q, n) =>
      if q == Optional && At(p, n) == '^' then Pieces(p, n, false, open)
      else [Rep(a, q)] + Pieces(p, n, Restarts(q), open)
  }

  /** A path begins with what the atom may take. */
  lemma ItemPath(t: Text, p: Pattern, i: nat, anchor: bool, open: bool, k: nat, e: nat)
    requires i <= |p| && ItemAt(p, i, anchor, open).Item?
    ensures var x := ItemAt(p, i, anchor, open);
            Path(t, Pieces(p, i, anchor, open), k, e) <==>
            exists m: nat :: ItemTakes(t, p, x, k, m) && Path(t, Pieces(p, x.next, Restarts(x.q), open), m, e)
  {
    hide AtomAt, QuantAt, Path, Takes;
    var x := ItemAt(p, i, anchor, open);
    var rest := Pieces(p, x.next, Restarts(x.q), open);
    if x.q == Optional && At(p, x.next) == '^' {
      assert ItemTakes(t, p, x, k, k);
    } else {
      PathCons(t, Rep(x.a, x.q), rest, k, e);
      if m: nat :| PieceTakes(t, Rep(x.a, x.q), k, m) && Path(t, rest, m, e) { assert ItemTakes(t, p, x, k, m); }
      if m: nat :| ItemTakes(t, p, x, k, m) && Path(t, rest, m, e) { assert PieceTakes(t, Rep(x.a, x.q), k, m); }
    }
  }

  /** What is in the language of a pattern text is a path through its pieces... */
  lemma {:induction false} ToPath(t: Text, p: Pattern, i: nat, anchor: bool, d: nat, k: nat, g: Hit)
    requires i <= |p| && t.Lang(Parse(p, i, anchor, d), k, g)
    ensures Path(t, Pieces(p, i, anchor, d > 0), k, g.end)
    decreases |p| - i, 1
  {
    hide Text.Lang, Path, AtomAt, QuantAt, Out, ItemTakes;
    t.LangPlain(Parse(p, i, anchor, d), k, g);
    match ItemAt(p, i, anchor, d > 0)
    case Finish => NoPath(t, k, g.end);
    case Broken =>
    case Lone =>
    case Leave => NoPath(t, k, g.end);
    case Start =>
      ToPath(t, p, i + 1, false, d, k, g);
      PathCons(t, Begin, Pieces(p, i + 1, false, d > 0), k, g.end);
    case Stop =>
      ToPath(t, p, i + 1, false, d, k, g);
      PathCons(t, End, Pieces(p, i + 1, false, d > 0), k, g.end);
    case Enter => ToPathGroup(t, p, i, anchor, d, k, g);
    case Item(a, q, n) =>
      ItemLang(t, p, i, anchor, d, k, g);
      var m: nat :| ItemTakes(t, p, Item(a, q, n), k, m) && t.Lang(Parse(p, n, Restarts(q), d), m, g);
      ToPath(t, p, n, Restarts(q), d, m, g);
      ItemPath(t, p, i, anchor, d > 0, k, g.end);
  }

  lemma NoPath(t: Text, k: nat, e: nat)
    ensures Path(t, [], k, e) <==> k == e <= |t.line|
    ensures !Path(t, [Nothing], k, e)
  {
    PathCons(t, Nothing, [], k, e);
    assert [Nothing] + [] == [Nothing];
  }

  lemma {:induction false} ToPathGroup(t: Text, p: Pattern, i: nat, anchor: bool, d: nat, k: nat, g: Hit)
    requires i < |p| && t.Lang(Parse(p, i, anchor, d), k, g) && ItemAt(p, i, anchor, d > 0).Enter?
    ensures Path(t, Pieces(p, i, anchor, d > 0), k, g.end)
    decreases |p| - i, 0
  {
    hide Text.Lang, Path, ItemAt, Out;
    var b := t.GroupSplit(Parse(p, i + 1, true, d + 1), k, g);
    Exit(t, p, i + 1, true, d + 1, k, b);
    var o := Out(p, i + 1, true).value;
    ToPath(t, p, i + 1, true, d + 1, k, b);
    ToPath(t, p, o, false, d, b.end, g);
    PathConcat(t, Pieces(p, i + 1, true, true), Pieces(p, o, false, d > 0), k, b.end, g.end);
  }

  /** What is left to match behind the end of the pieces. */
  function Beyond(p: Pattern, i: nat, anchor: bool, d: nat): Re
    requires i <= |p|
  {
    if d == 0 then Accept else if Out(p, i, anchor).None? then Fail else Parse(p, Out(p, i, anchor).value, false, d - 1)
  }

  lemma BeyondNext(p: Pattern, i: nat, anchor: bool, d: nat)
    requires i <= |p|
    ensures match ItemAt(p, i, anchor, d > 0)
            case Leave => Beyond(p, i, anchor, d) == Parse(p, i + 1, false, d - 1)
            case Start => Beyond(p, i, anchor, d) == Beyond(p, i + 1, false, d)
            case Stop => Beyond(p, i, anchor, d) == Beyond(p, i + 1, false, d)
            case Enter => Out(p, i + 1, true).Some? ==>
                            Beyond(p, i, anchor, d) == Beyond(p, Out(p, i + 1, true).value, false, d)
            case Item(_, q, n) => Beyond(p, i, anchor, d) == Beyond(p, n, Restarts(q), d)
            case _ => true
  {
    hide AtomAt, QuantAt, Parse;
  }

  /** ...and the other way round, for every pattern. */
  lemma {:induction false} FromPath(t: Text, p: Pattern, i: nat, anchor: bool, d: nat, k: nat, e: nat)
    requires i <= |p| && Path(t, Pieces(p, i, anchor, d > 0), k, e)
    ensures t.Lang(Parse(p, i, anchor, d), k, Hit(e, Beyond(p, i, anchor, d)))
    decreases |p| - i, 1
  {
    hide Text.Lang, Path, AtomAt, QuantAt, Out, ItemTakes, Beyond;
    var g := Hit(e, Beyond(p, i, anchor, d));
    BeyondNext(p, i, anchor, d);
    t.LangPlain(Parse(p, i, anchor, d), k, g);
    NoPath(t, k, e);
    match ItemAt(p, i, anchor, d > 0)
    case Finish => BeyondEnd(p, i, anchor, d);
    case Broken =>
    case Lone =>
    case Leave =>
    case Start =>
      PathCons(t, Begin, Pieces(p, i + 1, false, d > 0), k, e);
      FromPath(t, p, i + 1, false, d, k, e);
    case Stop =>
      PathCons(t, End, Pieces(p, i + 1, false, d > 0), k, e);
      FromPath(t, p, i + 1, false, d, k, e);
    case Enter => FromPathGroup(t, p, i, anchor, d, k, e);
    case Item(a, q, n) =>
      ItemPath(t, p, i, anchor, d > 0, k, e);
      var m: nat :| ItemTakes(t, p, Item(a, q, n), k, m) && Path(t, Pieces(p, n, Restarts(q), d > 0), m, e);
      FromPath(t, p, n, Restarts(q), d, m, e);
      ItemLang(t, p, i, anchor, d, k, g);
  }

  lemma BeyondEnd(p: Pattern, i: nat, anchor: bool, d: nat)
    requires i <= |p|
    ensures d == 0 ==> Beyond(p, i, anchor, d) == Accept
  {
  }

  lemma {:induction false} FromPathGroup(t: Text, p: Pattern, i: nat, anchor: bool, d: nat, k: nat, e: nat)
    requires i < |p| && ItemAt(p, i, anchor, d > 0).Enter? && Path(t, Pieces(p, i, anchor, d > 0), k, e)
    ensures t.Lang(Parse(p, i, anchor, d), k, Hit(e, Beyond(p, i, anchor, d)))
    decreases |p| - i, 0
  {
    hide Text.Lang, Path, ItemAt, Out, Beyond;
    NoPath(t, k, e);
    var o := Out(p, i + 1, true).value;
    var m := PathSplit(t, Pieces(p, i + 1, true, true), Pieces(p, o, false, d > 0), k, e);
    FromPath(t, p, i + 1, true, d + 1, k, m);
    FromPath(t, p, o, false, d, m, e);
    BeyondNext(p, i, anchor, d);
    BeyondOut(p, i + 1, true, d + 1);
    var body, g := Parse(p, i + 1, true, d + 1), Hit(e, Beyond(p, i, anchor, d));
    t.GroupSize(body, k, Hit(m, Parse(p, o, false, d)));
    t.GroupJoin(body, k, Hit(m, Parse(p, o, false, d)), g);
  }

  lemma BeyondOut(p: Pattern, i: nat, anchor: bool, d: nat)
    requires i <= |p| && d > 0 && Out(p, i, anchor).Some?
    ensures Beyond(p, i, anchor, d) == Parse(p, Out(p, i, anchor).value, false, d - 1)
  {
  }

  // ----- the preferred match is the longest -----

  /** A piece that takes less from further on can take as much. */
  lemma PieceCrossing(t: Text, x: Piece, k: nat, m: nat, k': nat, m': nat)
    requires PieceTakes(t, x, k, m) && PieceTakes(t, x, k', m') && k <= k' && m' < m
    ensures PieceTakes(t, x, k', m)
  {
    hide Accepts;
  }

  /** Two paths that cross can change places. */
  lemma {:induction false} Crossing(t: Text, xs: seq<Piece>, k: nat, e: nat, k': nat, e': nat)
    requires Path(t, xs, k, e) && Path(t, xs, k', e') && k <= k' && e' < e
    ensures Path(t, xs, k', e)
    decreases |xs|
  {
    hide PieceTakes;
    if xs != [] {
      var m: nat :| PieceTakes(t, xs[0], k, m) && Path(t, xs[1..], m, e);
      var m': nat :| PieceTakes(t, xs[0], k', m') && Path(t, xs[1..], m', e');
      if m <= m' {
        Crossing(t, xs[1..], m, e, m', e');
      } else {
        PieceCrossing(t, xs[0], k, m, k', m');
      }
    }
  }

  /** Backing off stops at the last position from which the rest matches. */
  lemma {:induction false} DownFirst(t: Text, r: Re, lo: nat, hi: nat) returns (m: nat)
    requires t.Down(r, lo, hi) != []
    ensures lo <= m <= hi && t.All(r, m) != [] && t.Down(r, lo, hi)[0] == t.All(r, m)[0]
    ensures forall x :: m < x <= hi ==> t.All(r, x) == []
    decreases hi
  {
    hide Text.All;
    m := hi;
    if t.All(r, hi) == [] {
      m := DownFirst(t, r, lo, hi - 1);
    }
  }

  /** So an atom takes as much as can be followed by a match. */
  lemma NodeFirst(t: Text, a: Atom, q: Quant, r: Re, k: nat) returns (m: nat)
    requires t.All(Node(a, q, r), k) != []
    ensures Takes(t, a, q, k, m) && t.All(r, m) != [] && t.All(Node(a, q, r), k)[0] == t.All(r, m)[0]
    ensures forall x: nat :: Takes(t, a, q, k, x) && t.All(r, x) != [] ==> x <= m
  {
    hide Accepts, Text.All, Text.Down, Text.RunEnd;
    t.AllPlain(Node(a, q, r), k);
    match q
    case Once => m := k + 1;
    case Optional =>
      t.AllOpt(a, r, r, k);
      m := if t.Fits(a, k) && t.All(r, k + 1) != [] then k + 1 else k;
    case AtLeastOnce => m := RepeatFirst(t, a, q, r, k);
    case AnyTimes => m := RepeatFirst(t, a, q, r, k);
  }

  lemma RepeatFirst(t: Text, a: Atom, q: Quant, r: Re, k: nat) returns (m: nat)
    requires Restarts(q) && k <= |t.line| && t.All(Node(a, q, r), k) != []
    ensures Takes(t, a, q, k, m) && t.All(r, m) != [] && t.All(Node(a, q, r), k)[0] == t.All(r, m)[0]
    ensures forall x: nat :: Takes(t, a, q, k, x) && t.All(r, x) != [] ==> x <= m
  {
    hide Accepts, Text.All, Text.Down, Text.RunEnd, Text.Run;
    t.AllPlus(a, r, k);
    t.AllStar(a, r, k);
    RunsBounded(t, a, k);
    m := DownFirst(t, r, if q == AnyTimes then k else k + 1, t.RunEnd(a, k));
  }

  lemma RunsBounded(t: Text, a: Atom, k: nat)
    requires k <= |t.line|
    ensures forall x: nat :: t.Run(a, k, x) ==> x <= t.RunEnd(a, k)
    ensures forall x: nat :: k <= x <= t.RunEnd(a, k) ==> t.Run(a, k, x)
  {
    hide Accepts, Text.RunEnd;
    forall x: nat | t.Run(a, k, x) ensures x <= t.RunEnd(a, k) { t.RunBounded(a, k, x); }
  }

  /** A safe pattern: the search finds a match whenever there is a path, and no path goes further. */
  lemma {:induction false} Longest(t: Text, p: Pattern, i: nat, anchor: bool, d: nat, k: nat, e: nat)
    requires i <= |p| && Safe(p, i, anchor, d) && Path(t, Pieces(p, i, anchor, d > 0), k, e)
    ensures t.All(Parse(p, i, anchor, d), k) != [] && e <= t.All(Parse(p, i, anchor, d), k)[0].end
    decreases |p| - i, 1
  {
    hide Text.Lang, Text.All, AtomAt, QuantAt, Path, Out, Quantified;
    t.AllPlain(Parse(p, i, anchor, d), k);
    PathBounds(t, Pieces(p, i, anchor, d > 0), k, e);
    NoPath(t, k, e);
    match ItemAt(p, i, anchor, d > 0)
    case Finish =>
    case Broken =>
    case Lone =>
    case Leave =>
    case Start =>
      PathCons(t, Begin, Pieces(p, i + 1, false, d > 0), k, e);
      Longest(t, p, i + 1, false, d, k, e);
    case Stop =>
      PathCons(t, End, Pieces(p, i + 1, false, d > 0), k, e);
      Longest(t, p, i + 1, false, d, k, e);
    case Enter => LongestGroup(t, p, i, anchor, d, k, e);
    case Item(_, _, _) => LongestItem(t, p, i, anchor, d, k, e);
  }

  lemma {:induction false} LongestGroup(t: Text, p: Pattern, i: nat, anchor: bool, d: nat, k: nat, e: nat)
    requires i < |p| && ItemAt(p, i, anchor, d > 0).Enter?
    requires Safe(p, i, anchor, d) && Path(t, Pieces(p, i, anchor, d > 0), k, e)
    ensures t.All(Parse(p, i, anchor, d), k) != [] && e <= t.All(Parse(p, i, anchor, d), k)[0].end
    decreases |p| - i, 0
  {
    hide Text.Lang, Text.All, ItemAt, Path, Out, Quantified, OnlyCloses, Beyond;
    NoPath(t, k, e);
    var o := Out(p, i + 1, true).value;
    var body, rest := Parse(p, i + 1, true, d + 1), Parse(p, o, false, d);
    var m := PathSplit(t, Pieces(p, i + 1, true, true), Pieces(p, o, false, d > 0), k, e);
    Longest(t, p, i + 1, true, d + 1, k, m);
    var first := t.All(body, k)[0];
    assert first in t.All(body, k);
    t.Sound(body, k, first);
    Exit(t, p, i + 1, true, d + 1, k, first);
    t.AllPlain(Group(body), k);
    if Quantified(p, i + 1, true) {
      ClosedPath(t, p, o, d, m, e, first.end);
    } else {
      FromPath(t, p, i + 1, true, d + 1, k, m);
      Unique(t, p, i + 1, true, d + 1, k, first, Hit(m, Beyond(p, i + 1, true, d + 1)));
      Longest(t, p, o, false, d, m, e);
    }
  }

  /** Closing parentheses take nothing, wherever they are tried. */
  lemma ClosedPath(t: Text, p: Pattern, o: nat, d: nat, m: nat, e: nat, k: nat)
    requires OnlyCloses(p, o, d) && Path(t, Pieces(p, o, false, d > 0), m, e) && k <= |t.line|
    ensures e == m && t.All(Parse(p, o, false, d), k) != [] && t.All(Parse(p, o, false, d), k)[0].end == k
  {
    hide Text.Lang, Text.All, AtomAt, QuantAt, Path, Out;
    NoPath(t, m, e);
    t.AllPlain(Parse(p, o, false, d), k);
  }

  lemma {:induction false} LongestItem(t: Text, p: Pattern, i: nat, anchor: bool, d: nat, k: nat, e: nat)
    requires i < |p| && ItemAt(p, i, anchor, d > 0).Item?
    requires Safe(p, i, anchor, d) && Path(t, Pieces(p, i, anchor, d > 0), k, e)
    ensures t.All(Parse(p, i, anchor, d), k) != [] && e <= t.All(Parse(p, i, anchor, d), k)[0].end
    decreases |p| - i, 0
  {
    hide Text.Lang, Text.All, ItemAt, Path, Parse, Takes, Pieces;
    var x := ItemAt(p, i, anchor, d > 0);
    var n, again := x.next, Restarts(x.q);
    var r := Parse(p, n, again, d);
    ItemPath(t, p, i, anchor, d > 0, k, e);
    var m': nat :| ItemTakes(t, p, x, k, m') && Path(t, Pieces(p, n, again, d > 0), m', e);
    Longest(t, p, n, again, d, m', e);
    ParseIs(p, i, anchor, d);
    if x.q == Optional && At(p, n) == '^' {
      OptionalCaret(t, x.a, Parse(p, n + 1, false, d), r, k, Hit(0, Accept));
    } else {
      ItemFound(t, p, i, anchor, d, k, m');
      var m := NodeFirst(t, x.a, x.q, r, k);
      LongestFrom(t, p, n, again, d, m, m', e);
    }
  }

  /** A match from further on that ends earlier would not be the longest from there. */
  lemma {:induction false} LongestFrom(t: Text, p: Pattern, n: nat, again: bool, d: nat, m: nat, m': nat, e: nat)
    requires n <= |p| && Safe(p, n, again, d) && m' <= m && Path(t, Pieces(p, n, again, d > 0), m', e)
    requires t.All(Parse(p, n, again, d), m) != []
    ensures e <= t.All(Parse(p, n, again, d), m)[0].end
    decreases |p| - n, 2
  {
    hide Text.Lang, Text.All, Path, Parse, Pieces, Safe;
    var first := t.All(Parse(p, n, again, d), m)[0];
    assert first in t.All(Parse(p, n, again, d), m);
    t.Sound(Parse(p, n, again, d), m, first);
    ToPath(t, p, n, again, d, m, first);
    if first.end < e {
      Crossing(t, Pieces(p, n, again, d > 0), m', e, m, first.end);
      Longest(t, p, n, again, d, m, e);
    }
  }

  // ----- the matcher decides the language -----

  /** The pieces of a whole pattern. */
  function PiecesOf(p: Pattern): seq<Piece> { Pieces(p, 0, true, false) }

  /** The declarative language of a pattern text is its textbook language. */
  lemma LangDenotes(t: Text, p: Pattern, j: nat, e: nat)
    ensures t.Lang(Parse(p, 0, true, 0), j, Hit(e, Accept)) <==> Denotes(PiecesOf(p), t.line, t.mode, j, e)
  {
    hide Text.Lang, Parse, Path, Pieces, Denotes;
    PathDenotes(t, PiecesOf(p), j, e);
    if t.Lang(Parse(p, 0, true, 0), j, Hit(e, Accept)) { ToPath(t, p, 0, true, 0, j, Hit(e, Accept)); }
    if Path(t, PiecesOf(p), j, e) { FromPath(t, p, 0, true, 0, j, e); }
  }

  /** Some stretch of the line from `j` on is in the language. */
  ghost predicate MatchesAt(p: Pattern, line: string, mode: Mode, j: nat) {
    exists e: nat :: Denotes(PiecesOf(p), line, mode, j, e)
  }

  /** line[j..e] is in the language, and no longer stretch from `j` on is. */
  ghost predicate LongestAt(p: Pattern, line: string, mode: Mode, j: nat, e: nat) {
    Denotes(PiecesOf(p), line, mode, j, e) && forall x: nat :: Denotes(PiecesOf(p), line, mode, j, x) ==> x <= e
  }

  lemma Decided(t: Text, p: Pattern, j: nat)
    ensures var (all, xs) := (t.All(Parse(p, 0, true, 0), j), PiecesOf(p));
            && (all != [] ==> Denotes(xs, t.line, t.mode, j, all[0].end))
            && (Safe(p, 0, true, 0) ==>
                  forall e: nat :: Denotes(xs, t.line, t.mode, j, e) ==> all != [] && e <= all[0].end)
  {
    hide Text.Lang, Text.All, Parse, Path, PiecesOf, Denotes, Safe;
    var all, xs := t.All(Parse(p, 0, true, 0), j), PiecesOf(p);
    if all != [] {
      assert all[0] in all;
      t.Sound(Parse(p, 0, true, 0), j, all[0]);
      Exit(t, p, 0, true, 0, j, all[0]);
      LangDenotes(t, p, j, all[0].end);
    }
    forall e: nat | Denotes(xs, t.line, t.mode, j, e) && Safe(p, 0, true, 0) ensures all != [] && e <= all[0].end {
      LongestOf(t, p, j, e);
    }
  }

  lemma LongestOf(t: Text, p: Pattern, j: nat, e: nat)
    requires Safe(p, 0, true, 0) && Denotes(PiecesOf(p), t.line, t.mode, j, e)
    ensures var all := t.All(Parse(p, 0, true, 0), j); all != [] && e <= all[0].end
  {
    hide Text.All, Parse, Path, Pieces, Denotes, Safe;
    PathDenotes(t, PiecesOf(p), j, e);
    Longest(t, p, 0, true, 0, j, e);
  }

  /** The main theorem, over the text of the pattern.  Whatever the matcher reports is in the
      pattern's language.  Provided nothing but closing parentheses follows a group that holds a
      quantifier, it reports a match exactly when there is one, and then the longest. */
  method Decides(text: string, p: Pattern, mode: Mode, j: nat) returns (ok: bool, len: nat)
    requires Legal(p, 0, true, 0) && j < |text|
    ensures ok ==> Denotes(PiecesOf(p), text[..|text| - 1], mode, j, j + len)
    ensures Safe(p, 0, true, 0) ==>
              && (ok <==> MatchesAt(p, text[..|text| - 1], mode, j))
              && (ok ==> LongestAt(p, text[..|text| - 1], mode, j, j + len))
  {
    hide Text.All, Parse, Legal, PiecesOf, Denotes, Safe;
    var out;
    ok, len, out := RegexMatches(text, p, mode, j, 0, false, 0);
    Decided(LineOf(text, mode), p, j);
  }
}
