/** services/indexer.py: the depth-capped search for missing transitive dependencies, with one visited
    set shared by all branches. */
module TransitiveMissing {
  import opened Sequences
  import opened PackageIndex

  /** 'perl:any' becomes 'perl'. */
  function StripArch(name: string): string {
    if ':' in name then name[..FirstIndex(name, ':')] else name
  }

  /** The missing dependencies stored with the latest version. */
  function StoredDeps(p: Package): seq<string> {
    if p.latest in p.versions then p.versions[p.latest].depsMissing else []
  }

  class VisitedNames {
    var names: set<string>

    constructor ()
      ensures names == {}
    {
      names := {};
    }
  }

  method CollectTransitiveMissing(
    pkg: string, idx: Packages, known: set<string>, visited: VisitedNames, depth: nat, maxDepth: int)
    returns (result: seq<string>)
    modifies visited
    ensures Dfs(result, visited.names) == Explore(pkg, idx, known, old(visited.names), depth, maxDepth)
    decreases Budget(depth, maxDepth)
  {
    hide StripArch, StoredDeps, ExploreAll, Then;
    if depth > maxDepth || pkg in visited.names {
      return [];
    }
    visited.names := visited.names + {pkg};
    if pkg !in idx {
      return [pkg];
    }
    if idx[pkg].latest == "" {
      return [];
    }
    result := [];
    var deps := StoredDeps(idx[pkg]);
    ghost var start := visited.names;
    assert deps[0..] == deps;
    ThenNothing(ExploreAll(deps, idx, known, start, depth, maxDepth));
    for i := 0 to |deps|
      invariant ExploreAll(deps, idx, known, start, depth, maxDepth)
             == Then(result, ExploreAll(deps[i..], idx, known, visited.names, depth, maxDepth))
    {
      var clean := StripArch(deps[i]);
      ghost var before := result;
      ExploreAllAt(deps, i, idx, known, visited.names, depth, maxDepth);
      if clean !in known {
        result := result + [clean];
      } else {
        var sub := CollectTransitiveMissing(clean, idx, known, visited, depth + 1, maxDepth);
        result := result + sub;
      }
      ThenThen(before, result[|before|..], ExploreAll(deps[i + 1..], idx, known, visited.names, depth, maxDepth));
      assert before + result[|before|..] == result;
    }
    ExploreNone(deps[|deps|..], result, idx, known, visited.names, depth, maxDepth);
  }

  // ----- What the search computes -----

  /** Names found so far and names visited so far. */
  datatype Dfs = Dfs(result: seq<string>, visited: set<string>)

  function Then(found: seq<string>, d: Dfs): Dfs {
    d.(result := found + d.result)
  }

  function Budget(depth: nat, maxDepth: int): nat {
    if depth > maxDepth then 0 else maxDepth + 1 - depth
  }

  function Explore(pkg: string, idx: Packages, known: set<string>, visited: set<string>, depth: nat, maxDepth: int): Dfs
    decreases Budget(depth, maxDepth), 1, 0
  {
    if depth > maxDepth || pkg in visited then Dfs([], visited)
    else if pkg !in idx then Dfs([pkg], visited + {pkg})
    else if idx[pkg].latest == "" then Dfs([], visited + {pkg})
    else ExploreAll(StoredDeps(idx[pkg]), idx, known, visited + {pkg}, depth, maxDepth)
  }

  function ExploreAll(
    deps: seq<string>, idx: Packages, known: set<string>, visited: set<string>, depth: nat, maxDepth: int): Dfs
    requires depth <= maxDepth
    decreases Budget(depth, maxDepth), 0, |deps|
  {
    if deps == [] then Dfs([], visited)
    else if StripArch(deps[0]) !in known then
      Then([StripArch(deps[0])], ExploreAll(deps[1..], idx, known, visited, depth, maxDepth))
    else
      var sub := Explore(StripArch(deps[0]), idx, known, visited, depth + 1, maxDepth);
      Then(sub.result, ExploreAll(deps[1..], idx, known, sub.visited, depth, maxDepth))
  }

  lemma ThenNothing(d: Dfs)
    ensures Then([], d) == d
  {
    assert [] + d.result == d.result;
  }

  lemma ThenThen(a: seq<string>, b: seq<string>, d: Dfs)
    ensures Then(a, Then(b, d)) == Then(a + b, d)
  {
    assert a + (b + d.result) == a + b + d.result;
  }

  lemma ExploreNone(
    deps: seq<string>, found: seq<string>, idx: Packages, known: set<string>, visited: set<string>, depth: nat, maxDepth: int)
    requires deps == [] && depth <= maxDepth
    ensures Then(found, ExploreAll(deps, idx, known, visited, depth, maxDepth)) == Dfs(found, visited)
  {
    assert found + [] == found;
  }

  lemma ExploreAllAt(
    deps: seq<string>, i: nat, idx: Packages, known: set<string>, visited: set<string>, depth: nat, maxDepth: int)
    requires depth <= maxDepth && i < |deps|
    ensures var clean := StripArch(deps[i]);
            var sub := if clean !in known then Dfs([clean], visited) else Explore(clean, idx, known, visited, depth + 1, maxDepth);
            ExploreAll(deps[i..], idx, known, visited, depth, maxDepth)
            == Then(sub.result, ExploreAll(deps[i + 1..], idx, known, sub.visited, depth, maxDepth))
  {
    hide StripArch, Explore, Then;
    assert deps[i..][0] == deps[i] && deps[i..][1..] == deps[i + 1..];
  }

  // ----- The reference: absent names reachable through stored dependencies -----

  function Successors(idx: Packages, pkg: string): set<string> {
    if pkg in idx && idx[pkg].latest != "" then set d | d in StoredDeps(idx[pkg]) :: StripArch(d) else {}
  }

  /** The names a package needs are those recorded as missing with its latest version, without their architecture. */
  lemma SuccessorsIff(idx: Packages, pkg: string, n: string)
    ensures n in Successors(idx, pkg)
            <==> && pkg in idx && idx[pkg].latest != "" && idx[pkg].latest in idx[pkg].versions
                 && exists d :: d in idx[pkg].versions[idx[pkg].latest].depsMissing && NamesWithArch(d, n)
  {
    forall d ensures StripArch(d) == n <==> NamesWithArch(d, n) {
      StripArchIff(d, n);
    }
    hide StripArch, NamesWithArch;
  }

  /** The text is the name, perhaps with a colon and more after it. */
  predicate NamesWithArch(d: string, n: string) {
    ':' !in n && (d == n || n + ":" <= d)
  }

  lemma StripArchIff(d: string, n: string)
    ensures StripArch(d) == n <==> NamesWithArch(d, n)
  {
    assert n + ":" <= d ==> d[|n|] == (n + ":")[|n|] && d[|n|] in d;
    if ':' in d {
      var i := FirstIndex(d, ':');
      var head := d[..i];
      assert ':' !in head && head + ":" == d[..i + 1] && head + ":" <= d;
      if NamesWithArch(d, n) {
        var m := |n|;
        assert i <= m && forall j | 0 <= j < m :: n[j] != ':' && n[j] == (n + ":")[j] == d[j];
        assert d[..m] == n;
      }
    }
  }

  ghost predicate IsPath(idx: Packages, path: seq<string>) {
    path != [] && forall i | 0 < i < |path| :: path[i] in Successors(idx, path[i - 1])
  }

  ghost predicate PathTo(idx: Packages, path: seq<string>, from: string, to: string) {
    IsPath(idx, path) && path[0] == from && path[|path| - 1] == to
  }

  /** `to` is absent from the index and reachable from `from`. */
  ghost predicate MissingFrom(idx: Packages, from: string, to: string) {
    to !in idx && exists path :: PathTo(idx, path, from, to)
  }

  // ----- Soundness: for every cap -----

  lemma StepThenMissing(idx: Packages, pkg: string, next: string, to: string)
    requires next in Successors(idx, pkg) && MissingFrom(idx, next, to)
    ensures MissingFrom(idx, pkg, to)
  {
    var path :| PathTo(idx, path, next, to);
    assert PathTo(idx, [pkg] + path, pkg, to);
  }

  /** Whatever the cap and the names already visited, every name returned is absent and reachable. */
  lemma {:induction false} ExploreSound(
    pkg: string, idx: Packages, visited: set<string>, depth: nat, maxDepth: int, x: string)
    requires x in Explore(pkg, idx, idx.Keys, visited, depth, maxDepth).result
    ensures MissingFrom(idx, pkg, x)
    decreases Budget(depth, maxDepth), 1, 0
  {
    if pkg !in idx {
      assert PathTo(idx, [pkg], pkg, x);
    } else {
      forall d | d in StoredDeps(idx[pkg]) ensures StripArch(d) in Successors(idx, pkg) {}
      ExploreAllSound(pkg, StoredDeps(idx[pkg]), idx, visited + {pkg}, depth, maxDepth, x);
    }
  }

  lemma {:induction false} ExploreAllSound(
    pkg: string, deps: seq<string>, idx: Packages, visited: set<string>, depth: nat, maxDepth: int, x: string)
    requires depth <= maxDepth
    requires forall d | d in deps :: StripArch(d) in Successors(idx, pkg)
    requires x in ExploreAll(deps, idx, idx.Keys, visited, depth, maxDepth).result
    ensures MissingFrom(idx, pkg, x)
    decreases Budget(depth, maxDepth), 0, |deps|
  {
    var clean := StripArch(deps[0]);
    if clean !in idx {
      if x == clean {
        assert PathTo(idx, [clean], clean, x);
        StepThenMissing(idx, pkg, clean, x);
      } else {
        ExploreAllSound(pkg, deps[1..], idx, visited, depth, maxDepth, x);
      }
    } else {
      var sub := Explore(clean, idx, idx.Keys, visited, depth + 1, maxDepth);
      if x in sub.result {
        ExploreSound(clean, idx, visited, depth + 1, maxDepth, x);
        StepThenMissing(idx, pkg, clean, x);
      } else {
        ExploreAllSound(pkg, deps[1..], idx, sub.visited, depth, maxDepth, x);
      }
    }
  }

  // ----- Completeness: when the cap cannot bite -----

  /** Everything `pkg` needs directly is accounted for: known names visited, absent names reported. */
  ghost predicate Covered(idx: Packages, pkg: string, d: Dfs) {
    forall s | s in Successors(idx, pkg) :: if s in idx then s in d.visited else s in d.result
  }

  lemma SmallerLeft(idx: Packages, visited: set<string>, more: set<string>)
    requires visited <= more
    ensures |idx.Keys - more| <= |idx.Keys - visited|
  {
    assert idx.Keys - more <= idx.Keys - visited;
    SubsetSize(idx.Keys - more, idx.Keys - visited);
  }

  lemma SubsetSize<T>(a: set<T>, b: set<T>)
    requires a <= b
    ensures |a| <= |b|
  {
    assert b == a + (b - a);
  }

  /** With at least as many levels left as unvisited packages, the call visits `pkg` and covers every
      package it visits. */
  lemma {:induction false} ExploreCovers(pkg: string, idx: Packages, visited: set<string>, depth: nat, maxDepth: int)
    requires pkg in idx
    requires |idx.Keys - visited| <= maxDepth + 1 - depth
    ensures var d := Explore(pkg, idx, idx.Keys, visited, depth, maxDepth);
            visited <= d.visited && pkg in d.visited
            && forall u | u in d.visited && u !in visited :: Covered(idx, u, d)
    decreases Budget(depth, maxDepth), 1, 0
  {
    if pkg !in visited {
      var left := idx.Keys - (visited + {pkg});
      assert idx.Keys - visited == left + {pkg};
      if idx[pkg].latest != "" {
        ExploreAllCovers(StoredDeps(idx[pkg]), idx, visited + {pkg}, depth, maxDepth);
      }
    }
  }

  lemma {:induction false} ExploreAllCovers(
    deps: seq<string>, idx: Packages, visited: set<string>, depth: nat, maxDepth: int)
    requires depth <= maxDepth
    requires |idx.Keys - visited| <= maxDepth - depth
    ensures var d := ExploreAll(deps, idx, idx.Keys, visited, depth, maxDepth);
            visited <= d.visited
            && (forall u | u in d.visited && u !in visited :: Covered(idx, u, d))
            && forall dep | dep in deps :: if StripArch(dep) in idx then StripArch(dep) in d.visited else StripArch(dep) in d.result
    decreases Budget(depth, maxDepth), 0, |deps|
  {
    if deps != [] {
      var clean := StripArch(deps[0]);
      if clean in idx {
        ExploreCovers(clean, idx, visited, depth + 1, maxDepth);
        var sub := Explore(clean, idx, idx.Keys, visited, depth + 1, maxDepth);
        SmallerLeft(idx, visited, sub.visited);
        ExploreAllCovers(deps[1..], idx, sub.visited, depth, maxDepth);
      } else {
        ExploreAllCovers(deps[1..], idx, visited, depth, maxDepth);
      }
    }
  }

  /** Along a path from a visited package, all known names are visited and an absent end is reported. */
  lemma {:induction false} CoveredPath(idx: Packages, d: Dfs, path: seq<string>, i: nat)
    requires IsPath(idx, path) && i < |path|
    requires path[i] in idx && path[i] in d.visited
    requires forall u | u in d.visited :: Covered(idx, u, d)
    requires path[|path| - 1] !in idx
    ensures path[|path| - 1] in d.result
    decreases |path| - i
  {
    assert path[i + 1] in Successors(idx, path[i]);
    if i + 2 < |path| {
      assert path[i + 2] in Successors(idx, path[i + 1]);
      CoveredPath(idx, d, path, i + 1);
    }
  }

  /** The search from `root` reports exactly the absent names reachable from it. */
  ghost predicate Exact(idx: Packages, root: string, maxDepth: int) {
    forall x :: x in Explore(root, idx, idx.Keys, {}, 0, maxDepth).result <==> MissingFrom(idx, root, x)
  }

  /** A cap of at least the number of packages less one makes the search exact. */
  lemma ExactWhenDeepEnough(idx: Packages, root: string, maxDepth: nat)
    requires |idx| <= maxDepth + 1
    ensures Exact(idx, root, maxDepth)
  {
    var d := Explore(root, idx, idx.Keys, {}, 0, maxDepth);
    forall x ensures x in d.result <==> MissingFrom(idx, root, x) {
      if x in d.result {
        ExploreSound(root, idx, {}, 0, maxDepth, x);
      }
      if MissingFrom(idx, root, x) {
        var path :| PathTo(idx, path, root, x);
        if |path| > 1 {
          assert path[1] in Successors(idx, root);
          assert idx.Keys - {} == idx.Keys;
          ExploreCovers(root, idx, {}, 0, maxDepth);
          CoveredPath(idx, d, path, 0);
        }
      }
    }
  }

  // ----- The bound is tight: a chain one package too long -----

  function Link(i: nat): (name: string)
    ensures |name| == i + 1 && ':' !in name
    ensures forall k | 0 <= k < |name| :: name[k] == 'a'
  {
    if i == 0 then "a" else Link(i - 1) + "a"
  }

  function ChainPackage(i: nat): Package {
    Package(map["1" := Entry("all", None, "", 0, "", "", "validated", "jammy", [Link(i + 1)])], "1", "", "")
  }

  /** Packages Link(0) to Link(n-1), each needing the next; Link(n) is absent. */
  function Chain(n: nat): (idx: Packages)
    ensures forall i: nat | i < n :: Link(i) in idx && idx[Link(i)] == ChainPackage(i)
    ensures forall x | x in idx :: 1 <= |x| <= n
    ensures |idx| == n
  {
    if n == 0 then map[] else Chain(n - 1)[Link(n - 1) := ChainPackage(n - 1)]
  }

  ghost predicate IsChain(idx: Packages, n: nat) {
    forall i: nat | i < n :: Link(i) in idx && idx[Link(i)].latest != "" && StoredDeps(idx[Link(i)]) == [Link(i + 1)]
  }

  lemma ChainIsChain(n: nat)
    ensures IsChain(Chain(n), n) && Link(n) !in Chain(n)
  {
    forall i: nat | i < n ensures StoredDeps(Chain(n)[Link(i)]) == [Link(i + 1)] {
      assert StoredDeps(ChainPackage(i)) == [Link(i + 1)];
    }
  }

  /** A package with one known dependency passes on what that dependency gives. */
  lemma OneDep(idx: Packages, pkg: string, dep: string, visited: set<string>, depth: nat, maxDepth: int)
    requires pkg in idx && idx[pkg].latest != "" && StoredDeps(idx[pkg]) == [dep]
    requires StripArch(dep) == dep && dep in idx
    requires pkg !in visited && depth <= maxDepth
    ensures Explore(pkg, idx, idx.Keys, visited, depth, maxDepth)
         == Explore(dep, idx, idx.Keys, visited + {pkg}, depth + 1, maxDepth)
  {
    var deps, seen := StoredDeps(idx[pkg]), visited + {pkg};
    assert deps[1..] == [];
    var sub := Explore(dep, idx, idx.Keys, seen, depth + 1, maxDepth);
    assert ExploreAll(deps[1..], idx, idx.Keys, sub.visited, depth, maxDepth) == Dfs([], sub.visited);
    assert sub.result + [] == sub.result;
  }

  /** On a chain longer than the levels left, the search stops before the last package. */
  lemma {:induction false} ChainCutOff(idx: Packages, n: nat, i: nat, visited: set<string>, maxDepth: nat)
    requires IsChain(idx, n) && maxDepth + 1 < n && i <= maxDepth + 1
    ensures Explore(Link(i), idx, idx.Keys, visited, i, maxDepth).result == []
    decreases maxDepth + 1 - i
  {
    if i <= maxDepth && Link(i) !in visited {
      assert Link(i + 1) in idx;
      OneDep(idx, Link(i), Link(i + 1), visited, i, maxDepth);
      ChainCutOff(idx, n, i + 1, visited + {Link(i)}, maxDepth);
    }
  }

  lemma {:induction false} ChainReaches(idx: Packages, n: nat, i: nat)
    requires IsChain(idx, n) && Link(n) !in idx && i <= n
    ensures MissingFrom(idx, Link(i), Link(n))
    decreases n - i
  {
    if i == n {
      assert PathTo(idx, [Link(n)], Link(n), Link(n));
    } else {
      assert StoredDeps(idx[Link(i)]) == [Link(i + 1)];
      assert Link(i + 1) in StoredDeps(idx[Link(i)]);
      assert StripArch(Link(i + 1)) in Successors(idx, Link(i));
      ChainReaches(idx, n, i + 1);
      StepThenMissing(idx, Link(i), Link(i + 1), Link(n));
    }
  }

  /** A cap serves every index of n packages exactly when it is at least n - 1. */
  lemma ExactIffDeepEnough(n: nat, maxDepth: nat)
    ensures (forall idx: Packages, root | |idx| == n :: Exact(idx, root, maxDepth)) <==> n <= maxDepth + 1
  {
    if n <= maxDepth + 1 {
      forall idx: Packages, root | |idx| == n ensures Exact(idx, root, maxDepth) {
        ExactWhenDeepEnough(idx, root, maxDepth);
      }
    } else {
      ChainIsChain(n);
      ChainCutOff(Chain(n), n, 0, {}, maxDepth);
      ChainReaches(Chain(n), n, 0);
      assert !Exact(Chain(n), Link(0), maxDepth);
    }
  }

  // ----- The missing names shown for each package -----

  /** The default cap, used by every listing. */
  const MAX_DEPTH: int := 4

  /** Declared missing and still absent. */
  function Direct(idx: Packages, deps: seq<string>): seq<string> {
    if deps == [] then []
    else
      Direct(idx, deps[..|deps| - 1])
      + (var clean := StripArch(deps[|deps| - 1]); if clean in idx then [] else [clean])
  }

  /** What the searches below the known dependencies report, each with a visited set of its own. */
  function Transitive(idx: Packages, deps: seq<string>): seq<string> {
    if deps == [] then []
    else
      Transitive(idx, deps[..|deps| - 1])
      + (var clean := StripArch(deps[|deps| - 1]);
         if clean in idx then Explore(clean, idx, idx.Keys, {}, 0, MAX_DEPTH).result else [])
  }

  method ListMissing(idx: Packages) returns (shown: map<string, seq<string>>)
    ensures shown.Keys == idx.Keys
    ensures forall name | name in idx ::
              shown[name] == Dedup(Direct(idx, StoredDeps(idx[name])) + Transitive(idx, StoredDeps(idx[name])))
  {
    shown := map[];
    var names := idx.Keys;
    while names != {}
      invariant names <= idx.Keys && shown.Keys == idx.Keys - names
      invariant forall name | name in shown ::
                  shown[name] == Dedup(Direct(idx, StoredDeps(idx[name])) + Transitive(idx, StoredDeps(idx[name])))
      decreases |names|
    {
      var name :| name in names;
      names := names - {name};
      var deps := StoredDeps(idx[name]);
      var direct, transitive := [], [];
      for i := 0 to |deps|
        invariant direct == Direct(idx, deps[..i])
      {
        assert deps[..i + 1][..i] == deps[..i];
        if StripArch(deps[i]) !in idx {
          direct := direct + [StripArch(deps[i])];
        }
      }
      for i := 0 to |deps|
        invariant transitive == Transitive(idx, deps[..i])
      {
        assert deps[..i + 1][..i] == deps[..i];
        if StripArch(deps[i]) in idx {
          var visited := new VisitedNames();
          var sub := CollectTransitiveMissing(StripArch(deps[i]), idx, idx.Keys, visited, 0, MAX_DEPTH);
          transitive := transitive + sub;
        }
      }
      assert deps[..|deps|] == deps;
      shown := shown[name := Dedup(direct + transitive)];
    }
  }

  lemma {:induction false} DirectMeaning(idx: Packages, deps: seq<string>, x: string)
    ensures x in Direct(idx, deps) <==> x !in idx && exists d :: d in deps && StripArch(d) == x
  {
    if deps != [] {
      DirectMeaning(idx, deps[..|deps| - 1], x);
      assert deps == deps[..|deps| - 1] + [deps[|deps| - 1]];
    }
  }

  lemma {:induction false} TransitiveMeaning(idx: Packages, deps: seq<string>, x: string)
    ensures x in Transitive(idx, deps)
            <==> exists d :: d in deps && StripArch(d) in idx && x in Explore(StripArch(d), idx, idx.Keys, {}, 0, MAX_DEPTH).result
  {
    if deps != [] {
      TransitiveMeaning(idx, deps[..|deps| - 1], x);
      assert deps == deps[..|deps| - 1] + [deps[|deps| - 1]];
    }
  }

  /** Up to five packages, the list shown is exactly the absent names reachable through some stored
      dependency; beyond that it only never lists a wrong name. No name is shown twice. */
  lemma ShownMeaning(idx: Packages, deps: seq<string>)
    ensures var shown := Dedup(Direct(idx, deps) + Transitive(idx, deps));
            NoDuplicates(shown)
            && (forall x | x in shown :: exists d :: d in deps && MissingFrom(idx, StripArch(d), x))
            && (|idx| <= 5 ==>
                forall x | exists d :: d in deps && MissingFrom(idx, StripArch(d), x) :: x in shown)
  {
    var all := Direct(idx, deps) + Transitive(idx, deps);
    DedupMeaning(all);
    forall x | x in all ensures exists d :: d in deps && MissingFrom(idx, StripArch(d), x) {
      DirectMeaning(idx, deps, x);
      TransitiveMeaning(idx, deps, x);
      if x in Direct(idx, deps) {
        var d :| d in deps && StripArch(d) == x;
        assert PathTo(idx, [x], x, x);
        assert MissingFrom(idx, StripArch(d), x);
      } else {
        var d :| d in deps && StripArch(d) in idx && x in Explore(StripArch(d), idx, idx.Keys, {}, 0, MAX_DEPTH).result;
        ExploreSound(StripArch(d), idx, {}, 0, MAX_DEPTH, x);
      }
    }
    if |idx| <= MAX_DEPTH + 1 {
      forall d, x | d in deps && MissingFrom(idx, StripArch(d), x) ensures x in all {
        DirectMeaning(idx, deps, x);
        TransitiveMeaning(idx, deps, x);
        ExactWhenDeepEnough(idx, StripArch(d), MAX_DEPTH);
        var path :| PathTo(idx, path, StripArch(d), x);
        if |path| > 1 { assert path[1] in Successors(idx, path[0]); }
      }
    }
  }

  // ----- Sharing the visited set hides names that lie well within the cap -----

  function Needing(deps: seq<string>): Package {
    Package(map["1" := Entry("all", None, "", 0, "", "", "validated", "jammy", deps)], "1", "", "")
  }

  /** 'a' needs 'e' directly, but meets it first at the end of a longer branch, where 'f' is cut off. */
  function Detour(): Packages {
    map["a" := Needing(["b", "e"]), "b" := Needing(["c"]), "c" := Needing(["d"]), "d" := Needing(["e"]),
        "e" := Needing(["f"]), "f" := Needing(["z"])]
  }

  /** The shape of Detour(), without its entries. */
  ghost predicate IsDetour(idx: Packages) {
    && idx.Keys == {"a", "b", "c", "d", "e", "f"}
    && (forall n | n in idx :: idx[n].latest != "")
    && StoredDeps(idx["a"]) == ["b", "e"] && StoredDeps(idx["b"]) == ["c"] && StoredDeps(idx["c"]) == ["d"]
    && StoredDeps(idx["d"]) == ["e"] && StoredDeps(idx["e"]) == ["f"] && StoredDeps(idx["f"]) == ["z"]
  }

  lemma DetourReaches(idx: Packages)
    requires IsDetour(idx)
    ensures PathTo(idx, ["a", "e", "f", "z"], "a", "z") && "z" !in idx
  {
    var path := ["a", "e", "f", "z"];
    assert StripArch("e") == "e" && StripArch("f") == "f" && StripArch("z") == "z";
    assert StoredDeps(idx["a"])[1] == "e" && StoredDeps(idx["e"])[0] == "f" && StoredDeps(idx["f"])[0] == "z";
    assert "e" in Successors(idx, "a") && "f" in Successors(idx, "e") && "z" in Successors(idx, "f");
    forall i | 0 < i < |path| ensures path[i] in Successors(idx, path[i - 1]) {
      assert i == 1 || i == 2 || i == 3;
    }
  }

  /** Below 'b' the search walks down to 'e' at the cap, marks it and stops there. */
  lemma DetourLongBranch(idx: Packages)
    requires IsDetour(idx)
    ensures var d := Explore("b", idx, idx.Keys, {"a"}, 1, MAX_DEPTH);
            d.result == [] && "e" in d.visited
  {
    assert StripArch("c") == "c" && StripArch("d") == "d" && StripArch("e") == "e" && StripArch("f") == "f";
    OneDep(idx, "b", "c", {"a"}, 1, MAX_DEPTH);
    OneDep(idx, "c", "d", {"a"} + {"b"}, 2, MAX_DEPTH);
    OneDep(idx, "d", "e", {"a"} + {"b"} + {"c"}, 3, MAX_DEPTH);
    OneDep(idx, "e", "f", {"a"} + {"b"} + {"c"} + {"d"}, 4, MAX_DEPTH);
  }

  /** The absent 'z' is three steps from 'a', below the cap of four, yet it is not reported. */
  lemma SharedVisitedHidesNearName(idx: Packages)
    requires IsDetour(idx)
    ensures MissingFrom(idx, "a", "z")
    ensures Explore("a", idx, idx.Keys, {}, 0, MAX_DEPTH).result == []
  {
    DetourReaches(idx);
    DetourLongBranch(idx);
    assert StripArch("b") == "b" && StripArch("e") == "e";
    var deps := StoredDeps(idx["a"]);
    assert deps[1..] == ["e"] && deps[1..][1..] == [];
    var d := Explore("b", idx, idx.Keys, {"a"}, 1, MAX_DEPTH);
    assert Explore("e", idx, idx.Keys, d.visited, 1, MAX_DEPTH).result == [];
    assert ExploreAll(deps[1..], idx, idx.Keys, d.visited, 0, MAX_DEPTH).result == [];
    assert {} + {"a"} == {"a"};
  }

  lemma DetourExists()
    ensures IsDetour(Detour())
  {
  }
}
