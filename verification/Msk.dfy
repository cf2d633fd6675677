/**
  The package manager: the order in which dependencies are installed, and the manifest that
  is merged from several remotes.
 */
module Msk {
  import opened Common

  // ----- packages that depend on each other -----

  predicate Distinct(p: seq<string>) {
    forall i, j :: 0 <= i < j < |p| ==> p[i] != p[j]
  }

  /** The manifest gives each known package its dependencies. */
  datatype World = World(manifest: map<string, seq<string>>, installed: set<string>) {

    /** Known and not installed: what a request can add to the list. */
    predicate Wanted(n: string) {
      n != "" && n in manifest && n !in installed
    }

    /** The names that `process_package` refuses. */
    predicate Refused(n: string) {
      n == "" || (n !in installed && n !in manifest)
    }

    predicate Accepted(names: seq<string>) {
      forall k :: 0 <= k < |names| ==> !Refused(names[k])
    }

    ghost predicate Edge(a: string, b: string) {
      Wanted(a) && Wanted(b) && b in manifest[a]
    }

    /** A walk along dependencies. */
    ghost predicate Walk(p: seq<string>) {
      p != [] && Wanted(p[0]) && forall i :: 0 <= i < |p| - 1 ==> Edge(p[i], p[i + 1])
    }

    ghost predicate WalkTo(p: seq<string>, a: string, b: string) {
      Walk(p) && p[0] == a && p[|p| - 1] == b
    }

    ghost predicate Reach(a: string, b: string) {
      exists p: seq<string> :: WalkTo(p, a, b)
    }

    /** No walk from `a` comes back on itself. */
    ghost predicate Tame(a: string) {
      forall p: seq<string> :: Walk(p) && p[0] == a ==> Distinct(p)
    }

    lemma WalkWanted(p: seq<string>, i: nat)
      requires Walk(p) && i < |p|
      ensures Wanted(p[i])
    {
      if i > 0 { assert Edge(p[i - 1], p[i]); }
    }

    /** Two walks, the second from where the first can go. */
    lemma WalkJoin(p: seq<string>, q: seq<string>)
      requires Walk(p) && Walk(q) && Edge(p[|p| - 1], q[0])
      ensures Walk(p + q)
    {
      var r := p + q;
      forall i | 0 <= i < |r| - 1 ensures Edge(r[i], r[i + 1]) {
        if i < |p| - 1 { assert Edge(p[i], p[i + 1]); }
        if i >= |p| { assert Edge(q[i - |p|], q[i - |p| + 1]); }
      }
    }

    lemma ReachSelf(a: string)
      requires Wanted(a)
      ensures Reach(a, a)
    {
      assert WalkTo([a], a, a);
    }

    lemma ReachStep(a: string, b: string, c: string)
      requires Edge(a, b) && Reach(b, c)
      ensures Reach(a, c)
    {
      var p: seq<string> :| WalkTo(p, b, c);
      assert Walk([a]);
      WalkJoin([a], p);
      assert WalkTo([a] + p, a, c);
    }

    lemma ReachWanted(a: string, b: string)
      requires Reach(a, b)
      ensures Wanted(a) && Wanted(b)
    {
      var p: seq<string> :| WalkTo(p, a, b);
      WalkWanted(p, |p| - 1);
    }

    /** Walks without repetition are no longer than the manifest. */
    lemma {:induction false} DistinctBounded(p: seq<string>, s: set<string>)
      requires Distinct(p) && forall i :: 0 <= i < |p| ==> p[i] in s
      ensures |p| <= |s|
      decreases |p|
    {
      if p != [] { DistinctBounded(p[..|p| - 1], s - {p[|p| - 1]}); }
    }

    lemma WalkFits(p: seq<string>)
      requires Walk(p) && Distinct(p)
      ensures |p| <= |manifest.Keys|
    {
      forall i | 0 <= i < |p| ensures p[i] in manifest.Keys { WalkWanted(p, i); }
      DistinctBounded(p, manifest.Keys);
    }

    // ----- what the install list keeps -----

    /** No duplicates, only wanted packages, and every dependency in front of its dependent. */
    ghost predicate Ordered(pkgs: seq<string>) {
      && Distinct(pkgs)
      && (forall i :: 0 <= i < |pkgs| ==> Wanted(pkgs[i]))
      && (forall i, d :: 0 <= i < |pkgs| && Edge(pkgs[i], d) ==> d in pkgs[..i])
    }

    lemma ListedWanted(pkgs: seq<string>, n: string)
      requires Ordered(pkgs) && n in pkgs
      ensures Wanted(n)
    {
    }

    /** The list by itself: known packages that are not installed, and every dependency that is neither installed
        nor unknown in front of its dependent. */
    lemma OrderedMeans(pkgs: seq<string>)
      requires Ordered(pkgs)
      ensures forall i :: 0 <= i < |pkgs| ==> pkgs[i] in manifest && pkgs[i] !in installed && pkgs[i] != ""
      ensures forall i, d :: 0 <= i < |pkgs| && d in manifest[pkgs[i]] ==>
                d in pkgs[..i] || d in installed || d !in manifest || d == ""
    {
      forall i, d | 0 <= i < |pkgs| && d in manifest[pkgs[i]] && Wanted(d) ensures d in pkgs[..i] {
        assert Edge(pkgs[i], d);
      }
    }

    /** Adding a package whose dependencies are all listed. */
    lemma OrderedAppend(pkgs: seq<string>, n: string)
      requires Ordered(pkgs) && Wanted(n) && n !in pkgs
      requires forall d :: Edge(n, d) ==> d in pkgs
      ensures Ordered(pkgs + [n])
    {
      var q := pkgs + [n];
      forall i, d | 0 <= i < |q| && Edge(q[i], d) ensures d in q[..i] {
        if i < |pkgs| {
          assert q[..i] == pkgs[..i] && q[i] == pkgs[i];
        } else {
          assert q[..i] == pkgs;
        }
      }
    }

    /** A walk from a listed package only meets packages listed before it. */
    lemma {:induction false} OrderedWalk(pkgs: seq<string>, p: seq<string>, i: nat, j: nat)
      requires Ordered(pkgs) && Walk(p) && i < |pkgs| && pkgs[i] == p[0] && j < |p|
      ensures exists x :: 0 <= x <= i - j && pkgs[x] == p[j]
      decreases j
    {
      if j > 0 {
        OrderedWalk(pkgs, p, i, j - 1);
        var x :| 0 <= x <= i - (j - 1) && pkgs[x] == p[j - 1];
        assert Edge(p[j - 1], p[j]);
        assert p[j] in pkgs[..x];
        var y :| 0 <= y < x && pkgs[..x][y] == p[j];
      }
    }

    lemma OrderedClosed(pkgs: seq<string>, a: string, b: string)
      requires Ordered(pkgs) && a in pkgs && Reach(a, b)
      ensures b in pkgs
    {
      var p: seq<string> :| WalkTo(p, a, b);
      var i :| 0 <= i < |pkgs| && pkgs[i] == a;
      OrderedWalk(pkgs, p, i, |p| - 1);
    }

    /** Nothing that is listed lies on a cycle. */
    lemma OrderedTame(pkgs: seq<string>, a: string)
      requires Ordered(pkgs) && a in pkgs
      ensures Tame(a)
    {
      forall p: seq<string>, i: nat, j: nat | Walk(p) && p[0] == a && i < j < |p| ensures p[i] != p[j] {
        var tail := p[i..];
        assert tail[0] == p[i] && tail[j - i] == p[j];
        forall k | 0 <= k < |tail| - 1 ensures Edge(tail[k], tail[k + 1]) { assert Edge(p[i + k], p[i + k + 1]); }
        WalkWanted(p, i);
        var front := p[..i + 1];
        forall k | 0 <= k < |front| - 1 ensures Edge(front[k], front[k + 1]) { assert Edge(p[k], p[k + 1]); }
        assert WalkTo(front, a, p[i]);
        OrderedClosed(pkgs, a, p[i]);
        var x :| 0 <= x < |pkgs| && pkgs[x] == p[i];
        OrderedWalk(pkgs, tail, x, j - i);
      }
    }

    // ----- `process_package` with a bound on the depth of its recursion -----

    /** The list after a package has been processed; None when the recursion goes deeper than `fuel`. */
    function Run(pkgs: seq<string>, name: string, fuel: nat): Option<seq<string>>
      decreases fuel, 0, 0
    {
      if !Wanted(name) || name in pkgs then Some(pkgs)
      else if fuel == 0 then None
      else
        var r := RunAll(pkgs, manifest[name], fuel - 1);
        if r.None? then None else Some(r.value + [name])
    }

    function RunAll(pkgs: seq<string>, names: seq<string>, fuel: nat): Option<seq<string>>
      decreases fuel, 1, |names|
    {
      if names == [] then Some(pkgs)
      else
        var r := Run(pkgs, names[0], fuel);
        if r.None? then None else RunAll(r.value, names[1..], fuel)
    }

    /** What a finished run has done. */
    ghost predicate Done(pkgs: seq<string>, names: seq<string>, q: seq<string>) {
      && Ordered(q) && pkgs <= q
      && (forall n :: n in names && Wanted(n) ==> n in q)
      && (forall x :: x in q && x !in pkgs ==> exists n :: n in names && Reach(n, x))
    }

    lemma {:induction false} RunDone(pkgs: seq<string>, name: string, fuel: nat)
      requires Ordered(pkgs)
      ensures Run(pkgs, name, fuel).Some? ==> Done(pkgs, [name], Run(pkgs, name, fuel).value)
      decreases fuel, 2, 0
    {
      hide Ordered, Reach;
      if Wanted(name) && name !in pkgs && Run(pkgs, name, fuel).Some? {
        var deps := manifest[name];
        RunAllDone(pkgs, deps, fuel - 1);
        var mid := RunAll(pkgs, deps, fuel - 1).value;
        if name in mid {
          var d :| d in deps && Reach(d, name);
          ReachWanted(d, name);
          Cyclic(pkgs, name, d, fuel);
        }
        OrderedAppend(mid, name);
        ReachSelf(name);
        forall x | x in mid && x !in pkgs ensures Reach(name, x) {
          var d :| d in deps && Reach(d, x);
          ReachWanted(d, x);
          ReachStep(name, d, x);
        }
      }
    }

    lemma {:induction false} RunAllDone(pkgs: seq<string>, names: seq<string>, fuel: nat)
      requires Ordered(pkgs)
      ensures RunAll(pkgs, names, fuel).Some? ==> Done(pkgs, names, RunAll(pkgs, names, fuel).value)
      decreases fuel, 3, |names|
    {
      hide Ordered, Reach;
      if names != [] && RunAll(pkgs, names, fuel).Some? {
        RunDone(pkgs, names[0], fuel);
        RunAllDone(Run(pkgs, names[0], fuel).value, names[1..], fuel);
        assert names == [names[0]] + names[1..];
      }
    }

    /** A package that depends on itself, however indirectly, is never finished. */
    lemma {:induction false} Cyclic(pkgs: seq<string>, name: string, d: string, fuel: nat)
      requires Ordered(pkgs) && name !in pkgs && Edge(name, d) && Reach(d, name)
      ensures Run(pkgs, name, fuel).None?
      decreases fuel, 1, 0
    {
      if fuel > 0 { CyclicDeps(pkgs, name, d, manifest[name], fuel - 1); }
    }

    lemma {:induction false} CyclicDeps(pkgs: seq<string>, name: string, d: string, names: seq<string>, fuel: nat)
      requires Ordered(pkgs) && Edge(name, d) && Reach(d, name) && d in names
      ensures RunAll(pkgs, names, fuel).None?
      decreases fuel, 4, |names|
    {
      hide Ordered, Reach;
      NotListed(pkgs, name, d);
      if names[0] == d {
        var d' := Turn(name, d);
        Cyclic(pkgs, d, d', fuel);
      } else {
        RunDone(pkgs, names[0], fuel);
        if Run(pkgs, names[0], fuel).Some? { CyclicDeps(Run(pkgs, names[0], fuel).value, name, d, names[1..], fuel); }
      }
    }

    lemma NotListed(pkgs: seq<string>, name: string, d: string)
      requires Ordered(pkgs) && Edge(name, d) && Reach(d, name)
      ensures d !in pkgs
    {
      OnCycle(name, d);
      if d in pkgs { OrderedTame(pkgs, d); }
    }

    lemma OnCycle(name: string, d: string)
      requires Edge(name, d) && Reach(d, name)
      ensures !Tame(d)
    {
      var p: seq<string> :| WalkTo(p, d, name);
      assert Walk([d]);
      WalkJoin(p, [d]);
      var q := p + [d];
      assert q[0] == q[|p|] && 0 < |p| < |q|;
      assert !Distinct(q);
    }

    /** The cycle seen from the next package on it. */
    lemma Turn(name: string, d: string) returns (next: string)
      requires Edge(name, d) && Reach(d, name)
      ensures Edge(d, next) && Reach(next, d)
    {
      var p: seq<string> :| WalkTo(p, d, name);
      if |p| == 1 {
        next := d;
        ReachSelf(d);
      } else {
        next := p[1];
        assert Edge(p[0], p[1]);
        var tail := p[1..];
        forall k | 0 <= k < |tail| - 1 ensures Edge(tail[k], tail[k + 1]) { assert Edge(p[k + 1], p[k + 2]); }
        assert Walk([d]);
        WalkJoin(tail, [d]);
        assert WalkTo(tail + [d], next, d);
      }
    }

    /** Along a walk that repeats nothing, and can go on without repeating anything, the recursion
        ends: the depth left is the number of packages not yet met. */
    lemma {:induction false} RunEnds(pkgs: seq<string>, name: string, root: string, path: seq<string>, fuel: nat)
      requires Wanted(name) ==> Tame(root) && WalkTo(path, root, name) && fuel + |path| >= |manifest.Keys| + 1
      ensures Run(pkgs, name, fuel).Some?
      decreases fuel, 0, 0
    {
      if Wanted(name) && name !in pkgs {
        WalkFits(path);
        RunAllEnds(pkgs, manifest[name], name, root, path, fuel - 1);
      }
    }

    lemma {:induction false} RunAllEnds(pkgs: seq<string>, names: seq<string>, name: string, root: string,
                                        path: seq<string>, fuel: nat)
      requires Tame(root) && WalkTo(path, root, name) && fuel + |path| >= |manifest.Keys|
      requires name in manifest && forall d :: d in names ==> d in manifest[name]
      ensures RunAll(pkgs, names, fuel).Some?
      decreases fuel, 1, |names|
    {
      if names != [] {
        var d := names[0];
        if Wanted(d) {
          WalkWanted(path, |path| - 1);
          assert Walk([d]);
          WalkJoin(path, [d]);
        }
        RunEnds(pkgs, d, root, path + [d], fuel);
        RunAllEnds(Run(pkgs, d, fuel).value, names[1..], name, root, path, fuel);
      }
    }

    /** `process_package` comes to an end if and only if no cycle among wanted packages can be reached
        from its argument. */
    lemma FinishesIff(pkgs: seq<string>, name: string)
      requires Ordered(pkgs)
      ensures (exists fuel: nat :: Run(pkgs, name, fuel).Some?) <==> (Wanted(name) ==> Tame(name))
    {
      if Wanted(name) {
        if fuel: nat :| Run(pkgs, name, fuel).Some? {
          RunDone(pkgs, name, fuel);
          OrderedTame(Run(pkgs, name, fuel).value, name);
        }
        if Tame(name) {
          assert WalkTo([name], name, name);
          RunEnds(pkgs, name, name, [name], |manifest.Keys|);
        }
      } else {
        assert Run(pkgs, name, 0).Some?;
      }
    }
  }

  // ----- the program -----

  class Resolver {
    const w: World
    var pkgs: seq<string>

    constructor (w: World)
      ensures this.w == w && pkgs == []
    {
      this.w, pkgs := w, [];
    }

    /** `process_package`, given that it comes to an end.  A dependency that fails is passed over. */
    method Process(name: string, ghost fuel: nat) returns (failed: bool)
      requires w.Ordered(pkgs) && w.Run(pkgs, name, fuel).Some?
      modifies this`pkgs
      ensures Some(pkgs) == w.Run(old(pkgs), name, fuel)
      ensures w.Done(old(pkgs), [name], pkgs)
      ensures failed <==> w.Refused(name)
      decreases fuel
    {
      hide World.Ordered;
      w.RunDone(pkgs, name, fuel);
      if name == "" { return true; }
      if name in w.installed { return false; }
      if name in pkgs {
        w.ListedWanted(pkgs, name);
        return false;
      }
      if name !in w.manifest { return true; }
      var deps := w.manifest[name];
      var i := 0;
      while i < |deps|
        invariant 0 <= i <= |deps| && w.Ordered(pkgs)
        invariant w.RunAll(pkgs, deps[i..], fuel - 1) == w.RunAll(old(pkgs), deps, fuel - 1)
      {
        var ignored := Process(deps[i], fuel - 1);
        assert deps[i..][1..] == deps[i + 1..];
        i := i + 1;
      }
      pkgs := pkgs + [name];
      failed := false;
    }

    /** The loop of `install_packages` over the requests. */
    method Resolve(requests: seq<string>) returns (failed: bool)
      requires pkgs == []
      requires forall i :: 0 <= i < |requests| && w.Wanted(requests[i]) && w.Accepted(requests[..i]) ==> w.Tame(requests[i])
      modifies this`pkgs
      ensures failed <==> exists r :: r in requests && (r == "" || (r !in w.installed && r !in w.manifest))
      ensures w.Ordered(pkgs)
      ensures forall i :: 0 <= i < |pkgs| ==> pkgs[i] in w.manifest && pkgs[i] !in w.installed && pkgs[i] != ""
      ensures forall i, d :: 0 <= i < |pkgs| && d in w.manifest[pkgs[i]] ==>
                d in pkgs[..i] || d in w.installed || d !in w.manifest || d == ""
      ensures !failed ==> forall x :: x in pkgs <==> exists r :: r in requests && w.Reach(r, x)
    {
      hide World.Ordered, World.Tame, World.Reach, World.Run;
      Nothing(w);
      var i := 0;
      while i < |requests|
        invariant 0 <= i <= |requests| && w.Ordered(pkgs)
        invariant forall k :: 0 <= k < i ==> !w.Refused(requests[k]) && (w.Wanted(requests[k]) ==> requests[k] in pkgs)
        invariant forall x :: x in pkgs ==> exists r :: r in requests && w.Reach(r, x)
      {
        var r := requests[i];
        w.FinishesIff(pkgs, r);
        ghost var fuel: nat :| w.Run(pkgs, r, fuel).Some?;
        failed := Process(r, fuel);
        w.OrderedMeans(pkgs);
        if failed {
          assert r in requests;
          return;
        }
        i := i + 1;
      }
      forall x, r | r in requests && w.Reach(r, x) ensures x in pkgs {
        w.ReachWanted(r, x);
        w.OrderedClosed(pkgs, r, x);
      }
      w.OrderedMeans(pkgs);
      failed := false;
    }
  }

  lemma Nothing(w: World)
    ensures w.Ordered([])
  {
  }

  // ----- versions and the merged manifest -----

  datatype Version = Version(x: int, y: int, z: int)

  /** `compare_version_strings`: positive when the candidate is newer. */
  function Compare(current: Version, candidate: Version): int {
    if candidate.x > current.x then 1
    else if candidate.x < current.x then -1
    else if candidate.y > current.y then 1
    else if candidate.y < current.y then -1
    else if candidate.z > current.z then 1
    else if candidate.z == current.z then 0
    else -1
  }

  predicate Newer(candidate: Version, current: Version) {
    Compare(current, candidate) > 0
  }

  /** Two triples compare by their first difference, and the comparison is a strict total order. */
  lemma CompareIsOrder(a: Version, b: Version, c: Version)
    ensures Compare(a, b) == 0 <==> a == b
    ensures Newer(a, b) <==> Compare(a, b) < 0
    ensures Newer(a, b) && Newer(b, c) ==> Newer(a, c)
    ensures Newer(a, b) || Newer(b, a) || a == b
    ensures Newer(a, b) <==> a.x > b.x || (a.x == b.x && (a.y > b.y || (a.y == b.y && a.z > b.z)))
  {
  }

  datatype Package = Package(version: Version, dependencies: seq<string>)

  /** A package in the merged manifest remembers the remote it came from. */
  datatype Entry = Entry(package: Package, remote: nat)

  type Manifest = map<string, Package>

  /** `e` is the newest package of that name, from the earliest remote that has it. */
  ghost predicate Chosen(remotes: seq<Manifest>, name: string, e: Entry) {
    && e.remote < |remotes|
    && name in remotes[e.remote]
    && e.package == remotes[e.remote][name]
    && (forall k :: 0 <= k < |remotes| && name in remotes[k] ==> !Newer(remotes[k][name].version, e.package.version))
    && (forall k :: 0 <= k < e.remote && name in remotes[k] ==> Newer(e.package.version, remotes[k][name].version))
  }

  ghost predicate Listed(remotes: seq<Manifest>, name: string) {
    name != "" && exists k :: 0 <= k < |remotes| && name in remotes[k]
  }

  ghost predicate Merged(remotes: seq<Manifest>, out: map<string, Entry>) {
    && (forall name :: name in out <==> Listed(remotes, name))
    && (forall name :: name in out ==> Chosen(remotes, name, out[name]))
  }

  /** What a package has become once remote `last` has been looked at for it, and not before. */
  lemma ChosenStep(remotes: seq<Manifest>, next: Manifest, name: string, e: Entry)
    requires Chosen(remotes, name, e)
    ensures name !in next || !Newer(next[name].version, e.package.version) ==> Chosen(remotes + [next], name, e)
    ensures name in next && Newer(next[name].version, e.package.version) ==>
              Chosen(remotes + [next], name, Entry(next[name], |remotes|))
  {
    var all := remotes + [next];
    assert all[..|remotes|] == remotes && all[|remotes|] == next;
    forall k | 0 <= k < |remotes| ensures all[k] == remotes[k] {}
  }

  lemma ChosenFirst(remotes: seq<Manifest>, next: Manifest, name: string)
    requires name != "" && name in next && !Listed(remotes, name)
    ensures Chosen(remotes + [next], name, Entry(next[name], |remotes|))
  {
    var all := remotes + [next];
    forall k | 0 <= k < |remotes| ensures all[k] == remotes[k] && name !in all[k] {}
  }

  lemma ListedStep(remotes: seq<Manifest>, next: Manifest, name: string)
    ensures Listed(remotes + [next], name) <==> Listed(remotes, name) || (name != "" && name in next)
  {
    var all := remotes + [next];
    assert all[|remotes|] == next;
    forall k | 0 <= k < |remotes| ensures all[k] == remotes[k] {}
  }

  /** One remote; the keys come in any order. */
  method MergeRemote(ghost done: seq<Manifest>, out: map<string, Entry>, next: Manifest, index: nat)
    returns (r: map<string, Entry>)
    requires Merged(done, out) && index == |done|
    ensures Merged(done + [next], r)
  {
    hide Chosen;
    r := out;
    var todo := next.Keys;
    while todo != {}
      invariant todo <= next.Keys
      invariant forall name :: name in r <==> Listed(done, name) || (name != "" && name in next && name !in todo)
      invariant forall name :: name in out && (name !in next || name in todo) ==> name in r && r[name] == out[name]
      invariant forall name :: name in r && name in next && name !in todo ==> Chosen(done + [next], name, r[name])
    {
      var name :| name in todo;
      todo := todo - {name};
      if name != "" {
        if name !in r {
          ChosenFirst(done, next, name);
          r := r[name := Entry(next[name], index)];
        } else {
          assert r[name] == out[name];
          ChosenStep(done, next, name, r[name]);
          if Compare(r[name].package.version, next[name].version) > 0 {
            r := r[name := Entry(next[name], index)];
          }
        }
      }
    }
    forall name ensures name in r <==> Listed(done + [next], name) { ListedStep(done, next, name); }
    forall name | name in r ensures Chosen(done + [next], name, r[name]) {
      if name !in next { ChosenStep(done, next, name, out[name]); }
    }
  }

  /** The loop of `update_stores` over the remotes that answered. */
  method Merge(remotes: seq<Manifest>) returns (out: map<string, Entry>)
    ensures Merged(remotes, out)
  {
    hide Chosen;
    out := map[];
    var i := 0;
    while i < |remotes|
      invariant 0 <= i <= |remotes| && Merged(remotes[..i], out)
    {
      out := MergeRemote(remotes[..i], out, remotes[i], i);
      assert remotes[..i] + [remotes[i]] == remotes[..i + 1];
      i := i + 1;
    }
    assert remotes[..i] == remotes;
  }

  lemma ChosenUnique(remotes: seq<Manifest>, name: string, e: Entry, f: Entry)
    requires Chosen(remotes, name, e) && Chosen(remotes, name, f)
    ensures e == f
  {
    CompareIsOrder(e.package.version, f.package.version, e.package.version);
  }

  /** The remotes decide the merged manifest. */
  lemma MergedUnique(remotes: seq<Manifest>, a: map<string, Entry>, b: map<string, Entry>)
    requires Merged(remotes, a) && Merged(remotes, b)
    ensures a == b
  {
    hide Chosen, Listed;
    forall name | name in a || name in b ensures name in a && name in b && a[name] == b[name] {
      assert Listed(remotes, name);
      ChosenUnique(remotes, name, a[name], b[name]);
    }
  }

  /** Nothing listed in one order of the remotes is newer than what is chosen in another. */
  lemma ChosenNewest(p: seq<Manifest>, q: seq<Manifest>, name: string, e: Entry, f: Entry)
    requires multiset(p) == multiset(q) && Chosen(p, name, e) && Chosen(q, name, f)
    ensures !Newer(e.package.version, f.package.version)
  {
    hide Newer;
    assert p[e.remote] in multiset(q);
    var j :| 0 <= j < |q| && q[j] == p[e.remote];
  }

  lemma ListedPermuted(p: seq<Manifest>, q: seq<Manifest>, name: string)
    requires multiset(p) == multiset(q) && Listed(p, name)
    ensures Listed(q, name)
  {
    var k :| 0 <= k < |p| && name in p[k];
    assert p[k] in multiset(q);
    var j :| 0 <= j < |q| && q[j] == p[k];
  }

  /** The version that is kept does not depend on the order of the remotes. */
  lemma OrderIrrelevant(p: seq<Manifest>, q: seq<Manifest>, a: map<string, Entry>, b: map<string, Entry>)
    requires multiset(p) == multiset(q) && Merged(p, a) && Merged(q, b)
    ensures a.Keys == b.Keys
    ensures forall name :: name in a ==> a[name].package.version == b[name].package.version
  {
    hide Chosen, Listed, Newer;
    forall name | name in a || name in b
      ensures name in a && name in b && a[name].package.version == b[name].package.version
    {
      assert Listed(p, name) || Listed(q, name);
      if Listed(p, name) { ListedPermuted(p, q, name); } else { ListedPermuted(q, p, name); }
      ChosenNewest(p, q, name, a[name], b[name]);
      ChosenNewest(q, p, name, b[name], a[name]);
      CompareIsOrder(a[name].package.version, b[name].package.version, a[name].package.version);
    }
  }
}
