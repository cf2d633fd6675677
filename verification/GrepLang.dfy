/**
  What grep's patterns mean.  A pattern is a tree in which every node holds what
  follows it.  `Lang` says which stretches of a line a pattern stands for, with no
  order and no backtracking; `All` lists the matches in the order in which a
  greedy backtracking search meets them.
 */
module GrepLang {
  import opened GrepChars

  datatype Atom = Any | Lit(c: char) | Set(negated: bool, listing: Listing)

  datatype Re =
    | Accept                        // end of the pattern
    | Fail                          // malformed from here on: never matches
    | Close(rest: Re)               // `)`, and what follows the group
    | Bol(rest: Re)
    | Eol(rest: Re)
    | Group(body: Re)               // `(`: the body runs up to its `Close`
    | One(a: Atom, rest: Re)
    | Opt(a: Atom, taken: Re, skipped: Re)
    | Plus(a: Atom, rest: Re)
    | Star(a: Atom, rest: Re)

  function Size(re: Re): nat {
    match re
    case Accept => 0
    case Fail => 0
    case Close(r) => 1 + Size(r)
    case Bol(r) => 1 + Size(r)
    case Eol(r) => 1 + Size(r)
    case Group(b) => 1 + Size(b)
    case One(_, r) => 1 + Size(r)
    case Opt(_, t, s) => 1 + Size(t) + Size(s)
    case Plus(_, r) => 1 + Size(r)
    case Star(_, r) => 1 + Size(r)
  }

  predicate Accepts(a: Atom, c: char, mode: Mode) {
    match a
    case Any => true
    case Lit(d) => SameChar(d, c, mode)
    case Set(negated, listing) => Verdict(listing, negated, c, mode)
  }

  /** A match that ends before line position `end`, with `rest` still to be read: what
      follows the group when the match is a group's body, `Accept` otherwise. */
  datatype Hit = Hit(end: nat, rest: Re)

  datatype Text = Text(line: seq<char>, mode: Mode) {

    predicate Fits(a: Atom, k: nat) {
      k < |line| && Accepts(a, line[k], mode)
    }

    /** line[k..m] consists of characters that `a` accepts. */
    predicate Run(a: Atom, k: nat, m: nat) {
      k <= m <= |line| && forall x :: k <= x < m ==> Fits(a, x)
    }

    /** The end of the longest such run. */
    function RunEnd(a: Atom, k: nat): (m: nat)
      requires k <= |line|
      ensures Run(a, k, m)
      ensures m == |line| || !Fits(a, m)
      decreases |line| - k
    {
      if Fits(a, k) then RunEnd(a, k + 1) else k
    }

    // ----- the language -----

    ghost predicate Lang(re: Re, k: nat, hit: Hit)
      decreases Size(re)
    {
      k <= hit.end <= |line| &&
      match re
      case Accept => hit == Hit(k, Accept)
      case Fail => false
      case Close(r) => hit == Hit(k, r)
      case Bol(r) => k == 0 && Lang(r, k, hit)
      case Eol(r) => k == |line| && Lang(r, k, hit)
      case Group(body) =>
        exists h: Hit :: Size(h.rest) <= Size(body) && Lang(body, k, h) && Lang(h.rest, h.end, hit)
      case One(a, r) => Fits(a, k) && Lang(r, k + 1, hit)
      case Opt(a, taken, skipped) => (Fits(a, k) && Lang(taken, k + 1, hit)) || Lang(skipped, k, hit)
      case Star(a, r) => exists m: nat :: Run(a, k, m) && Lang(r, m, hit)
      case Plus(a, r) => exists m: nat :: k < m && Run(a, k, m) && Lang(r, m, hit)
    }

    /** Where a matched group ends. */
    lemma {:induction false} GroupSplit(body: Re, k: nat, hit: Hit) returns (g: Hit)
      requires Lang(Group(body), k, hit)
      ensures Size(g.rest) <= Size(body) && Lang(body, k, g) && Lang(g.rest, g.end, hit)
    {
      g :| Size(g.rest) <= Size(body) && Lang(body, k, g) && Lang(g.rest, g.end, hit);
    }

    lemma GroupJoin(body: Re, k: nat, g: Hit, hit: Hit)
      requires Size(g.rest) <= Size(body) && Lang(body, k, g) && Lang(g.rest, g.end, hit)
      ensures Lang(Group(body), k, hit)
    {
    }

    /** What is left behind a match is part of the tree. */
    lemma {:induction false} GroupSize(re: Re, k: nat, hit: Hit)
      requires Lang(re, k, hit)
      ensures Size(hit.rest) <= Size(re)
      decreases Size(re)
    {
      hide Accepts, Run;
      match re
      case Accept =>
      case Fail =>
      case Close(_) =>
      case Bol(r) => GroupSize(r, k, hit);
      case Eol(r) => GroupSize(r, k, hit);
      case Group(body) =>
        var g := GroupSplit(body, k, hit);
        GroupSize(g.rest, g.end, hit);
      case One(_, r) => GroupSize(r, k + 1, hit);
      case Opt(_, taken, skipped) =>
        if Lang(skipped, k, hit) { GroupSize(skipped, k, hit); } else { GroupSize(taken, k + 1, hit); }
      case Star(a, r) =>
        var m: nat :| Run(a, k, m) && Lang(r, m, hit);
        GroupSize(r, m, hit);
      case Plus(a, r) =>
        var m: nat :| k < m && Run(a, k, m) && Lang(r, m, hit);
        GroupSize(r, m, hit);
    }

    lemma LangBounds(re: Re, k: nat, hit: Hit)
      requires Lang(re, k, hit)
      ensures k <= hit.end <= |line|
    {
    }

    /** The language of the nodes that match in only one way. */
    lemma LangPlain(re: Re, k: nat, hit: Hit)
      ensures re == Accept ==> (Lang(re, k, hit) <==> k <= |line| && hit == Hit(k, Accept))
      ensures re == Fail ==> !Lang(re, k, hit)
      ensures re.Close? ==> (Lang(re, k, hit) <==> k <= |line| && hit == Hit(k, re.rest))
      ensures re.Bol? ==> (Lang(re, k, hit) <==> k == 0 && Lang(re.rest, k, hit))
      ensures re.Eol? ==> (Lang(re, k, hit) <==> k == |line| && Lang(re.rest, k, hit))
      ensures re.One? ==> (Lang(re, k, hit) <==> Fits(re.a, k) && Lang(re.rest, k + 1, hit))
    {
      hide Accepts;
    }

    // ----- the search order -----

    /** Every match the search can return, most preferred first. */
    function All(re: Re, k: nat): (hits: seq<Hit>)
      ensures forall h :: h in hits ==> k <= h.end <= |line| && Size(h.rest) <= Size(re)
      decreases Size(re), 0, 0
    {
      if k > |line| then []
      else
        match re
        case Accept => [Hit(k, Accept)]
        case Fail => []
        case Close(r) => [Hit(k, r)]
        case Bol(r) => if k == 0 then All(r, k) else []
        case Eol(r) => if k == |line| then All(r, k) else []
        case Group(body) =>
          // a group is entered once: only its preferred match is ever tried
          var inner := All(body, k);
          if inner == [] then []
          else assert inner[0] in inner; All(inner[0].rest, inner[0].end)
        case One(a, r) => if Fits(a, k) then All(r, k + 1) else []
        case Opt(a, taken, skipped) =>
          if Fits(a, k) then All(taken, k + 1) + All(skipped, k) else All(skipped, k)
        case Star(a, r) => Down(r, k, RunEnd(a, k))
        case Plus(a, r) => if Fits(a, k) then Down(r, k + 1, RunEnd(a, k)) else []
    }

    /** `r` tried from `m` down to `lo`: longest repetition first. */
    function Down(r: Re, lo: nat, m: nat): (hits: seq<Hit>)
      ensures forall h :: h in hits ==> lo <= h.end <= |line| && Size(h.rest) <= Size(r)
      decreases Size(r), 1, m
    {
      if m < lo then [] else All(r, m) + if m == 0 then [] else Down(r, lo, m - 1)
    }

    /** `Down` meets every start between its bounds... */
    lemma {:induction false} DownHas(r: Re, lo: nat, m: nat, x: nat, h: Hit)
      requires lo <= x <= m && h in All(r, x)
      ensures h in Down(r, lo, m)
      decreases m
    {
      hide All;
      if x < m { DownHas(r, lo, m - 1, x, h); }
    }

    /** ...and nothing else. */
    lemma {:induction false} DownOnly(r: Re, lo: nat, m: nat, h: Hit) returns (x: nat)
      requires h in Down(r, lo, m)
      ensures lo <= x <= m && h in All(r, x)
      decreases m
    {
      hide All;
      if h in All(r, m) { x := m; } else { x := DownOnly(r, lo, m - 1, h); }
    }

    /** Backing off from one position past the line tries nothing more. */
    lemma {:induction false} DownPastEnd(r: Re, lo: nat)
      requires lo <= |line| + 1
      ensures Down(r, lo, |line| + 1) == if lo == |line| + 1 then [] else Down(r, lo, |line|)
    {
    }

    // ----- soundness and completeness of the search order -----

    /** Whatever the search can return is in the language, for every pattern. */
    lemma {:induction false} Sound(re: Re, k: nat, h: Hit)
      requires h in All(re, k)
      ensures Lang(re, k, h)
      decreases Size(re), 1
    {
      hide Accepts, Down, RunEnd;
      match re
      case Accept =>
      case Fail =>
      case Close(_) =>
      case Bol(r) => Sound(r, k, h);
      case Eol(r) => Sound(r, k, h);
      case Group(body) => SoundGroup(body, k, h);
      case One(a, r) => Sound(r, k + 1, h);
      case Opt(a, taken, skipped) =>
        if Fits(a, k) && h in All(taken, k + 1) { Sound(taken, k + 1, h); } else { Sound(skipped, k, h); }
      case Star(a, r) => SoundRepeat(re, k, h);
      case Plus(a, r) => SoundRepeat(re, k, h);
    }

    lemma {:induction false} SoundGroup(body: Re, k: nat, h: Hit)
      requires h in All(Group(body), k)
      ensures Lang(Group(body), k, h)
      decreases Size(Group(body)), 0
    {
      var g := All(body, k)[0];
      assert g in All(body, k);
      hide All;
      Sound(body, k, g);
      Sound(g.rest, g.end, h);
    }

    lemma {:induction false} SoundRepeat(re: Re, k: nat, h: Hit)
      requires h in All(re, k) && (re.Star? || re.Plus?)
      ensures Lang(re, k, h)
      decreases Size(re), 0
    {
      AllStar(re.a, re.rest, k);
      AllPlus(re.a, re.rest, k);
      hide All, Accepts, RunEnd;
      var x := DownOnly(re.rest, if re.Star? then k else k + 1, RunEnd(re.a, k), h);
      Sound(re.rest, x, h);
      assert Run(re.a, k, x);
    }

    /** A run ends no later than the longest one. */
    lemma {:induction false} RunBounded(a: Atom, k: nat, m: nat)
      requires Run(a, k, m)
      ensures m <= RunEnd(a, k)
      decreases |line| - k
    {
      hide Accepts;
      if k < m {
        assert Fits(a, k);
        RunBounded(a, k + 1, m);
      }
    }

    lemma {:induction false} AllStar(a: Atom, r: Re, k: nat)
      requires k <= |line|
      ensures All(Star(a, r), k) == Down(r, k, RunEnd(a, k))
    {
      hide Accepts, RunEnd, Down;
    }

    lemma {:induction false} AllPlus(a: Atom, r: Re, k: nat)
      requires k <= |line|
      ensures All(Plus(a, r), k) == if Fits(a, k) then Down(r, k + 1, RunEnd(a, k)) else []
    {
      hide Accepts, RunEnd, Down;
    }

    lemma {:induction false} AllOpt(a: Atom, taken: Re, skipped: Re, k: nat)
      requires k <= |line|
      ensures All(Opt(a, taken, skipped), k) ==
              if Fits(a, k) then All(taken, k + 1) + All(skipped, k) else All(skipped, k)
      ensures All(taken, k + 1) == [] ==> All(Opt(a, taken, skipped), k) == All(skipped, k)
    {
      hide Accepts;
      assert [] + All(skipped, k) == All(skipped, k);
    }

    /** `All` on the nodes that are tried in only one way. */
    lemma {:induction false} AllPlain(re: Re, k: nat)
      ensures k > |line| || re == Fail ==> All(re, k) == []
      ensures k <= |line| && re == Accept ==> All(re, k) == [Hit(k, Accept)]
      ensures k <= |line| && re.Close? ==> All(re, k) == [Hit(k, re.rest)]
      ensures re.Bol? ==> All(re, k) == if k == 0 then All(re.rest, k) else []
      ensures re.Eol? ==> All(re, k) == if k == |line| then All(re.rest, k) else []
      ensures re.One? ==> All(re, k) == if Fits(re.a, k) then All(re.rest, k + 1) else []
      ensures k <= |line| && re.Group? ==>
                var inner := All(re.body, k);
                All(re, k) == if inner == [] then [] else All(inner[0].rest, inner[0].end)
    {
      hide Accepts;
    }

    lemma {:induction false} OptHit(a: Atom, taken: Re, skipped: Re, k: nat, h: Hit)
      requires k <= |line|
      requires (Fits(a, k) && h in All(taken, k + 1)) || h in All(skipped, k)
      ensures h in All(Opt(a, taken, skipped), k)
    {
      hide *;
      AllOpt(a, taken, skipped, k);
    }

    /** Where the matcher starts to back off: at the first character that does not fit, or
        one position past the line when all of them do. */
    function Top(a: Atom, k: nat): nat
      requires k <= |line| + 1
    {
      if k == |line| + 1 then k
      else if RunEnd(a, k) == |line| then |line| + 1
      else RunEnd(a, k)
    }

    lemma {:induction false} StarFrom(a: Atom, r: Re, k: nat)
      requires k <= |line|
      ensures All(Star(a, r), k) == Down(r, k, Top(a, k))
    {
      hide All, Down, RunEnd;
      AllStar(a, r, k);
      DownPastEnd(r, k);
    }

    lemma {:induction false} PlusFrom(a: Atom, r: Re, k: nat)
      requires k <= |line|
      ensures All(Plus(a, r), k) == if Fits(a, k) then Down(r, k + 1, Top(a, k + 1)) else []
      ensures k == |line| ==> Down(r, k + 1, Top(a, k + 1)) == []
    {
      hide All, Down, Accepts;
      AllPlus(a, r, k);
      DownPastEnd(r, k + 1);
    }

    /** A run that is followed by a match gives a match of the repetition. */
    lemma {:induction false} StarHit(a: Atom, r: Re, k: nat, m: nat, h: Hit)
      requires Run(a, k, m) && h in All(r, m)
      ensures h in All(Star(a, r), k)
    {
      hide All, Down, RunEnd, Accepts;
      AllStar(a, r, k);
      RunBounded(a, k, m);
      DownHas(r, k, RunEnd(a, k), m, h);
    }

    lemma {:induction false} PlusHit(a: Atom, r: Re, k: nat, m: nat, h: Hit)
      requires k < m && Run(a, k, m) && h in All(r, m)
      ensures h in All(Plus(a, r), k)
    {
      hide All, Down, RunEnd, Accepts;
      AllPlus(a, r, k);
      RunBounded(a, k, m);
      DownHas(r, k + 1, RunEnd(a, k), m, h);
    }
  }

  // ----- quantified atoms -----

  datatype Quant = Once | Optional | AtLeastOnce | AnyTimes

  /** An atom with its quantifier, and `r` behind it. */
  function Node(a: Atom, q: Quant, r: Re): Re {
    match q
    case Once => One(a, r)
    case Optional => Opt(a, r, r)
    case AtLeastOnce => Plus(a, r)
    case AnyTimes => Star(a, r)
  }

  /** line[k..m] is what a quantified atom may take. */
  ghost predicate Takes(t: Text, a: Atom, q: Quant, k: nat, m: nat) {
    t.Run(a, k, m) &&
    match q
    case Once => m == k + 1
    case Optional => m <= k + 1
    case AtLeastOnce => k < m
    case AnyTimes => true
  }

  lemma OptLang(t: Text, a: Atom, r: Re, s: Re, k: nat, g: Hit)
    ensures t.Lang(Opt(a, r, s), k, g) <==> (t.Fits(a, k) && t.Lang(r, k + 1, g)) || t.Lang(s, k, g)
  {
    hide Accepts;
  }

  lemma StarSplit(t: Text, a: Atom, r: Re, k: nat, g: Hit) returns (m: nat)
    requires t.Lang(Star(a, r), k, g)
    ensures t.Run(a, k, m) && t.Lang(r, m, g)
  {
    hide Accepts, Text.Run;
    m :| t.Run(a, k, m) && t.Lang(r, m, g);
  }

  lemma PlusSplit(t: Text, a: Atom, r: Re, k: nat, g: Hit) returns (m: nat)
    requires t.Lang(Plus(a, r), k, g)
    ensures k < m && t.Run(a, k, m) && t.Lang(r, m, g)
  {
    hide Accepts, Text.Run;
    m :| k < m && t.Run(a, k, m) && t.Lang(r, m, g);
  }

  lemma RepeatJoin(t: Text, a: Atom, r: Re, k: nat, m: nat, g: Hit)
    requires t.Run(a, k, m) && t.Lang(r, m, g)
    ensures t.Lang(Star(a, r), k, g) && (k < m ==> t.Lang(Plus(a, r), k, g))
  {
    hide Accepts;
  }

  lemma NodeSplit(t: Text, a: Atom, q: Quant, r: Re, k: nat, g: Hit) returns (m: nat)
    requires t.Lang(Node(a, q, r), k, g)
    ensures Takes(t, a, q, k, m) && t.Lang(r, m, g)
  {
    hide Accepts, Text.Lang;
    t.LangPlain(Node(a, q, r), k, g);
    match q
    case Once => m := k + 1;
    case Optional =>
      OptLang(t, a, r, r, k, g);
      t.LangBounds(Node(a, q, r), k, g);
      m := if t.Lang(r, k, g) then k else k + 1;
    case AtLeastOnce => m := PlusSplit(t, a, r, k, g);
    case AnyTimes => m := StarSplit(t, a, r, k, g);
  }

  lemma NodeTaken(t: Text, a: Atom, q: Quant, r: Re, k: nat, m: nat, g: Hit)
    requires Takes(t, a, q, k, m) && t.Lang(r, m, g)
    ensures t.Lang(Node(a, q, r), k, g)
  {
    hide Accepts, Text.Lang;
    t.LangPlain(Node(a, q, r), k, g);
    OptLang(t, a, r, r, k, g);
    RepeatJoin(t, a, r, k, m, g);
  }

  /** The atom takes some stretch, then the rest matches. */
  lemma NodeLang(t: Text, a: Atom, q: Quant, r: Re, k: nat, g: Hit)
    ensures t.Lang(Node(a, q, r), k, g) <==> exists m: nat :: Takes(t, a, q, k, m) && t.Lang(r, m, g)
  {
    hide Takes, Text.Lang;
    if t.Lang(Node(a, q, r), k, g) {
      var m := NodeSplit(t, a, q, r, k, g);
    }
    if m: nat :| Takes(t, a, q, k, m) && t.Lang(r, m, g) {
      NodeTaken(t, a, q, r, k, m, g);
    }
  }

  /** The search tries such a stretch. */
  lemma NodeTries(t: Text, a: Atom, q: Quant, r: Re, k: nat, m: nat, h: Hit)
    requires Takes(t, a, q, k, m) && h in t.All(r, m)
    ensures h in t.All(Node(a, q, r), k)
  {
    hide Accepts, Text.All, Text.Down, Text.RunEnd;
    if m > k { assert t.Fits(a, k); }
    match q
    case Once => t.AllPlain(Node(a, q, r), k);
    case Optional => t.OptHit(a, r, r, k, h);
    case AtLeastOnce => t.PlusHit(a, r, k, m, h);
    case AnyTimes => t.StarHit(a, r, k, m, h);
  }
}
