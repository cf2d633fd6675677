/**
  What grep finds for every pattern, groups and all.  Its groups are possessive: a group takes the
  longest stretch it can and gives nothing back.  `Route` says so without any search, and the
  matcher decides exactly that and reports the longest match.
 */
module GrepPossessive {
  import opened Common
  import opened GrepChars
  import opened GrepLang
  import opened GrepMatch
  import opened GrepGroups
  import opened GrepTextbook

  /** A pattern with its groups. */
  datatype Parts = Done | Then(x: Piece, rest: Parts) | Sub(body: Parts, rest: Parts)

  /** The parts lead from position k to position e when every group takes as much as it can. */
  ghost predicate Route(t: Text, g: Parts, k: nat, e: nat)
    decreases g, 0
  {
    match g
    case Done => k == e <= |t.line|
    case Then(x, rest) => exists m: nat :: PieceTakes(t, x, k, m) && Route(t, rest, m, e)
    case Sub(body, rest) => exists m: nat :: Best(t, body, k, m) && Route(t, rest, m, e)
  }

  /** They lead to `e` and no further. */
  ghost predicate Best(t: Text, g: Parts, k: nat, e: nat)
    decreases g, 1
  {
    Route(t, g, k, e) && forall x: nat :: Route(t, g, k, x) ==> x <= e
  }

  lemma {:induction false} BestMeans(t: Text, g: Parts, k: nat, e: nat)
    requires Best(t, g, k, e)
    ensures Route(t, g, k, e) && forall x: nat :: Route(t, g, k, x) ==> x <= e
  {
  }

  lemma {:induction false} BestFrom(t: Text, g: Parts, k: nat, e: nat)
    requires Route(t, g, k, e) && forall x: nat :: Route(t, g, k, x) ==> x <= e
    ensures Best(t, g, k, e)
  {
  }

  lemma {:induction false} RouteSplit(t: Text, g: Parts, k: nat, e: nat) returns (m: nat)
    requires Route(t, g, k, e) && !g.Done?
    ensures if g.Then? then PieceTakes(t, g.x, k, m) else Best(t, g.body, k, m)
    ensures Route(t, g.rest, m, e)
  {
    hide PieceTakes;
    if g.Then? {
      m :| PieceTakes(t, g.x, k, m) && Route(t, g.rest, m, e);
    } else {
      m :| Best(t, g.body, k, m) && Route(t, g.rest, m, e);
    }
  }

  lemma {:induction false} RouteJoin(t: Text, g: Parts, k: nat, m: nat, e: nat)
    requires !g.Done? && Route(t, g.rest, m, e)
    requires if g.Then? then PieceTakes(t, g.x, k, m) else Best(t, g.body, k, m)
    ensures Route(t, g, k, e)
  {
    hide PieceTakes;
  }

  /** The same without the parentheses. */
  function Flat(g: Parts): seq<Piece> {
    match g
    case Done => []
    case Then(x, rest) => [x] + Flat(rest)
    case Sub(body, rest) => Flat(body) + Flat(rest)
  }

  lemma {:induction false} RouteBounds(t: Text, g: Parts, k: nat, e: nat)
    requires Route(t, g, k, e)
    ensures k <= e <= |t.line|
  {
    if !g.Done? {
      hide Route, PieceTakes;
      var m := RouteSplit(t, g, k, e);
      if g.Then? {
        TakesBounds(t, g.x, k, m);
      } else {
        RouteBounds(t, g.body, k, m);
      }
      RouteBounds(t, g.rest, m, e);
    }
  }

  /** A route is a path: what grep finds is in the language. */
  lemma {:induction false} RoutePath(t: Text, g: Parts, k: nat, e: nat)
    requires Route(t, g, k, e)
    ensures Path(t, Flat(g), k, e)
  {
    hide Path;
    if g.Done? {
      NoPath(t, k, e);
    } else {
      hide Route, PieceTakes;
      var m := RouteSplit(t, g, k, e);
      RoutePath(t, g.rest, m, e);
      if g.Then? {
        PathCons(t, g.x, Flat(g.rest), k, e);
      } else {
        RoutePath(t, g.body, k, m);
        PathConcat(t, Flat(g.body), Flat(g.rest), k, m, e);
      }
    }
  }

  /** Two routes that cross can change places; a group never takes less from further on. */
  lemma {:induction false} RouteCrossing(t: Text, g: Parts, k: nat, e: nat, k': nat, e': nat)
    requires Route(t, g, k, e) && Route(t, g, k', e') && k <= k' && e' < e
    ensures Route(t, g, k', e)
    decreases g, 0
  {
    if !g.Done? {
      hide Route, Best, PieceTakes;
      var m := RouteSplit(t, g, k, e);
      var m' := RouteSplit(t, g, k', e');
      if g.Sub? { GroupForward(t, g.body, k, m, k', m'); }
      if m <= m' {
        RouteCrossing(t, g.rest, m, e, m', e');
        RouteJoin(t, g, k', m', e);
      } else {
        PieceCrossing(t, g.x, k, m, k', m');
        RouteJoin(t, g, k', m, e);
      }
    }
  }

  lemma {:induction false} GroupForward(t: Text, g: Parts, k: nat, m: nat, k': nat, m': nat)
    requires Best(t, g, k, m) && Best(t, g, k', m') && k <= k'
    ensures m <= m'
    decreases g, 1
  {
    hide Route, Best;
    BestMeans(t, g, k, m);
    BestMeans(t, g, k', m');
    if m' < m { RouteCrossing(t, g, k, m, k', m'); }
  }

  // ----- from text to parts -----

  /** The parts of the pattern from `i` on, up to the `)` of the group one is in or else to the end. */
  function Layout(p: Pattern, i: nat, anchor: bool, open: bool): Parts
    requires i <= |p|
    decreases |p| - i
  {
    match ItemAt(p, i, anchor, open)
    case Finish => if open then Then(Nothing, Done) else Done
    case Broken => Then(Nothing, Done)
    case Lone => Then(Nothing, Done)
    case Leave => Done
    case Start => Then(Begin, Layout(p, i + 1, false, open))
    case Stop => Then(End, Layout(p, i + 1, false, open))
    case Enter =>
      var o := Out(p, i + 1, true);
      if o.None? then Then(Nothing, Done) else Sub(Layout(p, i + 1, true, true), Layout(p, o.value, false, open))
    case Item(a, q, n) =>
      if q == Optional && At(p, n) == '^' then Layout(p, n, false, open)
      else Then(Rep(a, q), Layout(p, n, Restarts(q), open))
  }

  lemma {:induction false} FlatLayout(p: Pattern, i: nat, anchor: bool, open: bool)
    requires i <= |p|
    ensures Flat(Layout(p, i, anchor, open)) == Pieces(p, i, anchor, open)
    decreases |p| - i, 1
  {
    hide AtomAt, QuantAt, Out;
    match ItemAt(p, i, anchor, open)
    case Finish =>
    case Broken =>
    case Lone =>
    case Leave =>
    case Start => FlatLayout(p, i + 1, false, open);
    case Stop => FlatLayout(p, i + 1, false, open);
    case Enter => FlatGroup(p, i, anchor, open);
    case Item(_, q, n) => FlatLayout(p, n, Restarts(q), open);
  }

  lemma EnterIs(p: Pattern, i: nat, anchor: bool, d: nat)
    requires i < |p| && ItemAt(p, i, anchor, d > 0).Enter?
    ensures Parse(p, i, anchor, d) == Group(Parse(p, i + 1, true, d + 1))
    ensures var (o, open) := (Out(p, i + 1, true), d > 0);
            if o.None? then Layout(p, i, anchor, open) == Then(Nothing, Done) && Pieces(p, i, anchor, open) == [Nothing]
            else
              && Layout(p, i, anchor, open) == Sub(Layout(p, i + 1, true, true), Layout(p, o.value, false, open))
              && Pieces(p, i, anchor, open) == Pieces(p, i + 1, true, true) + Pieces(p, o.value, false, open)
  {
    hide ItemAt, Out;
  }

  lemma FlatIs(x: Piece, g: Parts, b: Parts)
    ensures Flat(Then(x, g)) == [x] + Flat(g) && Flat(Sub(b, g)) == Flat(b) + Flat(g) && Flat(Done) == []
  {
  }

  lemma {:induction false} FlatGroup(p: Pattern, i: nat, anchor: bool, open: bool)
    requires i < |p| && ItemAt(p, i, anchor, open).Enter?
    ensures Flat(Layout(p, i, anchor, open)) == Pieces(p, i, anchor, open)
    decreases |p| - i, 0
  {
    hide ItemAt, Out, Layout, Pieces, Parse, Flat;
    EnterIs(p, i, anchor, if open then 1 else 0);
    var o := Out(p, i + 1, true);
    if o.Some? {
      FlatLayout(p, i + 1, true, true);
      FlatLayout(p, o.value, false, open);
      FlatIs(Nothing, Layout(p, o.value, false, open), Layout(p, i + 1, true, true));
    } else {
      FlatIs(Nothing, Done, Done);
    }
  }

  // ----- the search finds the best route -----

  /** The search from position k finds something exactly when some route leads on from there, and its
      preferred hit is the end of the longest. */
  ghost predicate Finds(t: Text, g: Parts, all: seq<Hit>, k: nat) {
    && (all != [] ==> Best(t, g, k, all[0].end))
    && forall e: nat :: Route(t, g, k, e) ==> all != []
  }

  /** To find the end of the longest route is to find one and that none goes further. */
  lemma FindsIs(t: Text, g: Parts, all: seq<Hit>, k: nat)
    requires all != [] ==> Route(t, g, k, all[0].end)
    requires forall e: nat :: Route(t, g, k, e) ==> all != [] && e <= all[0].end
    ensures Finds(t, g, all, k)
  {
    hide Route, Best;
    if all != [] { BestFrom(t, g, k, all[0].end); }
  }

  lemma FindsMeans(t: Text, g: Parts, all: seq<Hit>, k: nat)
    requires Finds(t, g, all, k)
    ensures all != [] ==> Route(t, g, k, all[0].end)
    ensures forall e: nat :: Route(t, g, k, e) ==> all != [] && e <= all[0].end
  {
    hide Route, Best;
    if all != [] { BestMeans(t, g, k, all[0].end); }
  }

  lemma FindsAnchor(t: Text, x: Piece, g: Parts, all: seq<Hit>, k: nat)
    requires x == Begin || x == End
    requires Finds(t, g, all, k)
    ensures Finds(t, Then(x, g), if k == (if x == Begin then 0 else |t.line|) then all else [], k)
  {
    hide Route, Best, Finds;
    var whole, here := Then(x, g), k == (if x == Begin then 0 else |t.line|);
    FindsMeans(t, g, all, k);
    forall e: nat | Route(t, whole, k, e) ensures here && all != [] && e <= all[0].end {
      var m := RouteSplit(t, whole, k, e);
    }
    if here && all != [] { RouteJoin(t, whole, k, k, all[0].end); }
    FindsIs(t, whole, if here then all else [], k);
  }

  lemma FindsEnd(t: Text, k: nat, h: Hit)
    requires h.end == k
    ensures Finds(t, Done, if k <= |t.line| then [h] else [], k)
    ensures Finds(t, Then(Nothing, Done), [], k)
  {
  }

  /** A quantified atom takes as much as can be followed by a match, and nothing goes further. */
  lemma FindsItem(t: Text, a: Atom, q: Quant, r: Re, g: Parts, k: nat)
    requires forall m: nat :: Finds(t, g, t.All(r, m), m)
    ensures Finds(t, Then(Rep(a, q), g), t.All(Node(a, q, r), k), k)
  {
    hide Text.All, Takes, Node, Route, Finds;
    var all, whole := t.All(Node(a, q, r), k), Then(Rep(a, q), g);
    forall e: nat | Route(t, whole, k, e) ensures all != [] && e <= all[0].end {
      var m := RouteSplit(t, whole, k, e);
      FindsMeans(t, g, t.All(r, m), m);
      assert t.All(r, m)[0] in t.All(r, m);
      NodeTries(t, a, q, r, k, m, t.All(r, m)[0]);
      FurthestItem(t, a, q, r, g, k, m, e);
    }
    if all != [] {
      var m := NodeFirst(t, a, q, r, k);
      FindsMeans(t, g, t.All(r, m), m);
      RouteJoin(t, whole, k, m, all[0].end);
    }
    FindsIs(t, whole, all, k);
  }

  lemma FurthestItem(t: Text, a: Atom, q: Quant, r: Re, g: Parts, k: nat, m': nat, e: nat)
    requires forall m: nat :: Finds(t, g, t.All(r, m), m)
    requires t.All(Node(a, q, r), k) != [] && Takes(t, a, q, k, m') && Route(t, g, m', e)
    ensures e <= t.All(Node(a, q, r), k)[0].end
  {
    hide Text.All, Takes, Node, Route, Finds;
    var m := NodeFirst(t, a, q, r, k);
    FindsMeans(t, g, t.All(r, m'), m');
    FindsMeans(t, g, t.All(r, m), m);
    var end := t.All(r, m)[0].end;
    if end < e { RouteCrossing(t, g, m', e, m, end); }
  }

  /** A group goes on behind the longest stretch it can take. */
  lemma FindsGroup(t: Text, body: Re, r: Re, b: Parts, g: Parts, k: nat)
    requires k <= |t.line| && Finds(t, b, t.All(body, k), k)
    requires t.All(body, k) != [] ==>
               var h := t.All(body, k)[0]; h.rest == r && Finds(t, g, t.All(r, h.end), h.end)
    ensures Finds(t, Sub(b, g), t.All(Group(body), k), k)
  {
    hide Text.All, Route, Best;
    var inner, all, whole := t.All(body, k), t.All(Group(body), k), Sub(b, g);
    t.AllPlain(Group(body), k);
    FindsMeans(t, b, inner, k);
    if inner != [] { FindsMeans(t, g, t.All(r, inner[0].end), inner[0].end); }
    forall e: nat | Route(t, whole, k, e) ensures all != [] && e <= all[0].end {
      var m := RouteSplit(t, whole, k, e);
      BestMeans(t, b, k, m);
      assert m == inner[0].end;
    }
    if all != [] { RouteJoin(t, whole, k, inner[0].end, all[0].end); }
    FindsIs(t, whole, all, k);
  }

  lemma {:induction false} SearchFinds(t: Text, p: Pattern, i: nat, anchor: bool, d: nat, k: nat)
    requires i <= |p|
    ensures Finds(t, Layout(p, i, anchor, d > 0), t.All(Parse(p, i, anchor, d), k), k)
    decreases |p| - i, 1
  {
    hide Text.All, AtomAt, QuantAt, Out, Finds;
    t.AllPlain(Parse(p, i, anchor, d), k);
    match ItemAt(p, i, anchor, d > 0)
    case Finish => FindsEnd(t, k, Hit(k, Accept));
    case Broken => FindsEnd(t, k, Hit(k, Accept));
    case Lone => FindsEnd(t, k, Hit(k, Accept));
    case Leave => FindsEnd(t, k, Hit(k, Parse(p, i + 1, false, d - 1)));
    case Start =>
      SearchFinds(t, p, i + 1, false, d, k);
      FindsAnchor(t, Begin, Layout(p, i + 1, false, d > 0), t.All(Parse(p, i + 1, false, d), k), k);
    case Stop =>
      SearchFinds(t, p, i + 1, false, d, k);
      FindsAnchor(t, End, Layout(p, i + 1, false, d > 0), t.All(Parse(p, i + 1, false, d), k), k);
    case Enter => SearchGroup(t, p, i, anchor, d, k);
    case Item(a, q, n) =>
      forall m: nat ensures Finds(t, Layout(p, n, Restarts(q), d > 0), t.All(Parse(p, n, Restarts(q), d), m), m) {
        SearchFinds(t, p, n, Restarts(q), d, m);
      }
      SearchItem(t, p, i, anchor, d, k);
  }

  lemma SearchItem(t: Text, p: Pattern, i: nat, anchor: bool, d: nat, k: nat)
    requires i <= |p| && ItemAt(p, i, anchor, d > 0).Item?
    requires var x := ItemAt(p, i, anchor, d > 0);
             forall m: nat :: Finds(t, Layout(p, x.next, Restarts(x.q), d > 0), t.All(Parse(p, x.next, Restarts(x.q), d), m), m)
    ensures Finds(t, Layout(p, i, anchor, d > 0), t.All(Parse(p, i, anchor, d), k), k)
  {
    hide Text.All, ItemAt, Finds, Parse;
    var x := ItemAt(p, i, anchor, d > 0);
    var r, g := Parse(p, x.next, Restarts(x.q), d), Layout(p, x.next, Restarts(x.q), d > 0);
    ParseIs(p, i, anchor, d);
    if x.q == Optional && At(p, x.next) == '^' {
      OptionalCaret(t, x.a, Parse(p, x.next + 1, false, d), r, k, Hit(0, Accept));
      assert Finds(t, g, t.All(r, k), k);
    } else {
      FindsItem(t, x.a, x.q, r, g, k);
    }
  }

  lemma {:induction false} SearchGroup(t: Text, p: Pattern, i: nat, anchor: bool, d: nat, k: nat)
    requires i < |p| && ItemAt(p, i, anchor, d > 0).Enter?
    ensures Finds(t, Layout(p, i, anchor, d > 0), t.All(Parse(p, i, anchor, d), k), k)
    decreases |p| - i, 0
  {
    hide Text.All, Text.Lang, ItemAt, Out, Finds, Layout, Pieces, Parse;
    var body, o := Parse(p, i + 1, true, d + 1), Out(p, i + 1, true);
    var inner := t.All(body, k);
    EnterIs(p, i, anchor, d);
    t.AllPlain(Group(body), k);
    FindsEnd(t, k, Hit(k, Accept));
    if inner != [] {
      assert inner[0] in inner;
      t.Sound(body, k, inner[0]);
      Exit(t, p, i + 1, true, d + 1, k, inner[0]);
      t.LangBounds(body, k, inner[0]);
      SearchFinds(t, p, o.value, false, d, inner[0].end);
    }
    if o.Some? {
      SearchFinds(t, p, i + 1, true, d + 1, k);
      if k <= |t.line| {
        FindsGroup(t, body, Parse(p, o.value, false, d), Layout(p, i + 1, true, true), Layout(p, o.value, false, d > 0), k);
      } else {
        Past(t, Layout(p, i, anchor, d > 0), k);
      }
    }
  }

  lemma Past(t: Text, g: Parts, k: nat)
    requires k > |t.line|
    ensures Finds(t, g, [], k)
  {
    forall e: nat ensures !Route(t, g, k, e) {
      if Route(t, g, k, e) { RouteBounds(t, g, k, e); }
    }
  }

  // ----- the matcher -----

  function PartsOf(p: Pattern): Parts { Layout(p, 0, true, false) }

  /** Some match from `j` on lets every group take as much as it can. */
  ghost predicate GreedyAt(p: Pattern, t: Text, j: nat) {
    exists e: nat :: Route(t, PartsOf(p), j, e)
  }

  /** Such a match is in the pattern's language. */
  lemma GreedyDenotes(p: Pattern, t: Text, j: nat, e: nat)
    requires Route(t, PartsOf(p), j, e)
    ensures Denotes(PiecesOf(p), t.line, t.mode, j, e)
  {
    hide Route, Layout, Flat, Pieces, Denotes, Path;
    RoutePath(t, PartsOf(p), j, e);
    FlatLayout(p, 0, true, false);
    PathDenotes(t, PiecesOf(p), j, e);
  }

  /** The matcher on every legal pattern: it succeeds exactly when there is a match that lets every group
      take as much as it can, and reports the longest of those.  So it misses a match exactly where the
      language has one and possessive groups allow none. */
  method Decides(text: string, p: Pattern, mode: Mode, j: nat) returns (ok: bool, len: nat)
    requires Legal(p, 0, true, 0) && j < |text|
    ensures ok <==> GreedyAt(p, LineOf(text, mode), j)
    ensures ok ==> Best(LineOf(text, mode), PartsOf(p), j, j + len)
  {
    hide Text.All, Parse, Legal, Layout, Route;
    var out;
    ok, len, out := RegexMatches(text, p, mode, j, 0, false, 0);
    ghost var t := LineOf(text, mode);
    SearchFinds(t, p, 0, true, 0, j);
    FindsMeans(t, PartsOf(p), t.All(Parse(p, 0, true, 0), j), j);
  }
}
