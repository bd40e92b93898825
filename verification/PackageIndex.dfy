/** services/indexer.py: the catalogue kept in index.json, updated package by package and
    rebuilt from all manifests. */
module PackageIndex {
  import opened Sequences
  import opened TextOrder

  datatype Dependency = Dependency(name: string, availableInternally: Option<bool>)

  datatype Manifest = Manifest(
    name: string, version: string, arch: Option<string>, filename: Option<string>,
    sha256: string, sizeBytes: Option<nat>, importedAt: string, importedBy: string,
    status: Option<string>, distribution: Option<string>, dependencies: seq<Dependency>,
    description: Option<string>, section: Option<string>)

  datatype Entry = Entry(
    arch: string, filename: Option<string>, sha256: string, sizeBytes: nat, importedAt: string,
    importedBy: string, status: string, distribution: string, depsMissing: seq<string>)

  datatype Package = Package(versions: map<string, Entry>, latest: string, description: string, section: string)

  type Packages = map<string, Package>

  function GetOr<T>(o: Option<T>, default: T): T {
    if o.Some? then o.value else default
  }

  /** Names of the dependencies recorded as unavailable; an unknown availability counts as available. */
  function UnavailableNames(deps: seq<Dependency>): seq<string> {
    if deps == [] then []
    else
      (if GetOr(deps[0].availableInternally, true) then [] else [deps[0].name]) + UnavailableNames(deps[1..])
  }

  /** Exactly the names with a dependency recorded as unavailable. */
  lemma {:induction false} UnavailableIff(deps: seq<Dependency>, n: string)
    ensures n in UnavailableNames(deps) <==> exists d :: d in deps && d.name == n && d.availableInternally == Some(false)
  {
    if deps != [] {
      UnavailableIff(deps[1..], n);
      assert deps[0] in deps && deps == [deps[0]] + deps[1..];
    }
  }

  /** What an index entry says of its manifest, with a default where the manifest says nothing. */
  ghost predicate Describes(e: Entry, m: Manifest) {
    && e.filename == m.filename && e.sha256 == m.sha256 && e.importedAt == m.importedAt && e.importedBy == m.importedBy
    && e.arch == (if m.arch.Some? then m.arch.value else "unknown")
    && e.sizeBytes == (if m.sizeBytes.Some? then m.sizeBytes.value else 0)
    && e.status == (if m.status.Some? then m.status.value else "validated")
    && e.distribution == (if m.distribution.Some? then m.distribution.value else "jammy")
    && forall n :: n in e.depsMissing <==> exists d :: d in m.dependencies && d.name == n && d.availableInternally == Some(false)
  }

  lemma EntryDescribes(m: Manifest)
    ensures Describes(EntryOf(m), m)
  {
    forall n ensures n in UnavailableNames(m.dependencies)
                     <==> exists d :: d in m.dependencies && d.name == n && d.availableInternally == Some(false) {
      UnavailableIff(m.dependencies, n);
    }
    hide UnavailableNames;
  }

  function EntryOf(m: Manifest): Entry {
    Entry(GetOr(m.arch, "unknown"), m.filename, m.sha256, GetOr(m.sizeBytes, 0), m.importedAt, m.importedBy,
          GetOr(m.status, "validated"), GetOr(m.distribution, "jammy"), UnavailableNames(m.dependencies))
  }

  function Versions(idx: Packages, name: string): map<string, Entry> {
    if name in idx then idx[name].versions else map[]
  }

  function Added(idx: Packages, m: Manifest): Packages {
    var versions := Versions(idx, m.name)[m.version := EntryOf(m)];
    assert m.version in versions;
    idx[m.name := Package(versions, Greatest(versions.Keys), GetOr(m.description, ""), GetOr(m.section, ""))]
  }

  /** An absent or empty version removes the whole package. */
  function Removed(idx: Packages, name: string, version: Option<string>): Packages {
    if name !in idx then idx
    else if version.None? || version.value == "" then idx - {name}
    else
      var versions := idx[name].versions - {version.value};
      if versions == map[] then idx - {name}
      else idx[name := idx[name].(versions := versions, latest := Greatest(versions.Keys))]
  }

  class Index {
    var packages: Packages

    constructor ()
      ensures packages == map[]
    {
      packages := map[];
    }

    method AddToIndex(m: Manifest)
      modifies this
      ensures packages == Added(old(packages), m)
      ensures m.name in packages && packages - {m.name} == old(packages) - {m.name}
      ensures var p := packages[m.name];
              && p.versions.Keys == (if m.name in old(packages) then old(packages)[m.name].versions.Keys else {}) + {m.version}
              && Describes(p.versions[m.version], m)
              && (forall v | v in p.versions && v != m.version :: p.versions[v] == old(packages)[m.name].versions[v])
              && IsGreatest(p.latest, p.versions.Keys)
              && p.description == (if m.description.Some? then m.description.value else "")
              && p.section == (if m.section.Some? then m.section.value else "")
    {
      hide Describes, EntryOf, IsGreatest;
      EntryDescribes(m);
      var info := if m.name in packages then packages[m.name] else Package(map[], "", "", "");
      info := info.(versions := info.versions[m.version := EntryOf(m)]);
      assert m.version in info.versions;
      info := info.(latest := Greatest(info.versions.Keys));
      info := info.(description := GetOr(m.description, ""), section := GetOr(m.section, ""));
      packages := packages[m.name := info];
    }

    method RemoveFromIndex(name: string, version: Option<string>)
      modifies this
      ensures packages == Removed(old(packages), name, version)
      ensures packages - {name} == old(packages) - {name}
      ensures name in packages
              <==> name in old(packages) && version.Some? && version.value != "" && old(packages)[name].versions - {version.value} != map[]
      ensures name in packages ==>
                var p, before := packages[name], old(packages)[name];
                && p.versions == before.versions - {version.value} && IsGreatest(p.latest, p.versions.Keys)
                && p.description == before.description && p.section == before.section
    {
      hide IsGreatest;
      if name !in packages {
        return;
      }
      if version.Some? && version.value != "" {
        var remaining := packages[name].versions - {version.value};
        if remaining == map[] {
          packages := packages - {name};
        } else {
          packages := packages[name := packages[name].(versions := remaining, latest := Greatest(remaining.Keys))];
        }
      } else {
        packages := packages - {name};
      }
    }

    method SyncIndexFromPool(manifests: seq<Manifest>) returns (count: nat)
      modifies this
      ensures packages == Rebuilt(manifests)
      ensures count == |packages|
    {
      packages := map[];
      for i := 0 to |manifests|
        invariant packages == Rebuilt(manifests[..i])
      {
        AddToIndex(manifests[i]);
        assert manifests[..i + 1][..i] == manifests[..i];
      }
      assert manifests[..|manifests|] == manifests;
      count := |packages|;
    }
  }

  // ----- Runs of index operations -----

  datatype Op = Add(m: Manifest) | Remove(name: string, version: Option<string>)

  function Apply(idx: Packages, op: Op): Packages {
    match op
    case Add(m) => Added(idx, m)
    case Remove(name, version) => Removed(idx, name, version)
  }

  /** The index after a run of operations on an empty index. */
  function Run(ops: seq<Op>): Packages {
    if ops == [] then map[] else Apply(Run(ops[..|ops| - 1]), ops[|ops| - 1])
  }

  /** The index rebuilt from scratch out of a list of manifests. */
  function Rebuilt(ms: seq<Manifest>): Packages {
    if ms == [] then map[] else Added(Rebuilt(ms[..|ms| - 1]), ms[|ms| - 1])
  }

  function Adds(ms: seq<Manifest>): seq<Op> {
    seq(|ms|, i requires 0 <= i < |ms| => Add(ms[i]))
  }

  lemma {:induction false} RebuildIsRunOfAdds(ms: seq<Manifest>)
    ensures Rebuilt(ms) == Run(Adds(ms))
  {
    if ms != [] {
      RebuildIsRunOfAdds(ms[..|ms| - 1]);
      assert Adds(ms)[..|ms| - 1] == Adds(ms[..|ms| - 1]);
    }
  }

  /** What the history alone says about one (name, version): the last operation that touched it. */
  function LastWrite(ops: seq<Op>, name: string, version: string): Option<Entry> {
    if ops == [] then None
    else
      match ops[|ops| - 1]
      case Add(m) =>
        if m.name == name && m.version == version then Some(EntryOf(m))
        else LastWrite(ops[..|ops| - 1], name, version)
      case Remove(n, v) =>
        if n == name && (v.None? || v.value == "" || v.value == version) then None
        else LastWrite(ops[..|ops| - 1], name, version)
  }

  function Lookup(idx: Packages, name: string, version: string): Option<Entry> {
    if name in idx && version in idx[name].versions then Some(idx[name].versions[version]) else None
  }

  /** No package without versions, and `latest` is the greatest version key. */
  ghost predicate Consistent(idx: Packages) {
    forall n | n in idx :: idx[n].versions != map[] && IsGreatest(idx[n].latest, idx[n].versions.Keys)
  }

  lemma ApplyMeaning(idx: Packages, op: Op, name: string, version: string)
    requires Consistent(idx)
    ensures Consistent(Apply(idx, op))
    ensures Lookup(Apply(idx, op), name, version) ==
            match op
            case Add(m) => if m.name == name && m.version == version then Some(EntryOf(m)) else Lookup(idx, name, version)
            case Remove(n, v) =>
              if n == name && (v.None? || v.value == "" || v.value == version) then None else Lookup(idx, name, version)
  {
    match op {
      case Add(m) =>
      case Remove(n, v) =>
        if n in idx && v.Some? && v.value != "" {
          var versions := idx[n].versions - {v.value};
          if versions == map[] {
            assert forall w | w in idx[n].versions :: w == v.value || w in versions;
          }
        }
    }
  }

  /** After any run of adds and removes every package has a version, `latest` is the greatest one, and
      each lookup gives what the last operation on that (name, version) left. */
  lemma {:induction false} RunMeaning(ops: seq<Op>)
    ensures Consistent(Run(ops))
    ensures forall n, v :: Lookup(Run(ops), n, v) == LastWrite(ops, n, v)
  {
    if ops != [] {
      var before, op := ops[..|ops| - 1], ops[|ops| - 1];
      RunMeaning(before);
      forall n, v ensures Lookup(Run(ops), n, v) == LastWrite(ops, n, v) {
        ApplyMeaning(Run(before), op, n, v);
      }
      ApplyMeaning(Run(before), op, "", "");
    }
  }

  // ----- Incremental updates against a full rebuild -----

  datatype Shown = Shown(versions: map<string, Entry>, latest: string)

  /** The part of the index that does not depend on which manifest came last. */
  function View(idx: Packages): map<string, Shown> {
    map n | n in idx :: Shown(idx[n].versions, idx[n].latest)
  }

  lemma SameLookupsSameView(a: Packages, b: Packages)
    requires Consistent(a) && Consistent(b)
    requires forall n, v :: Lookup(a, n, v) == Lookup(b, n, v)
    ensures View(a) == View(b)
  {
    forall n ensures n in a <==> n in b {
      if n in a { assert Lookup(a, n, a[n].latest).Some?; }
      if n in b { assert Lookup(b, n, b[n].latest).Some?; }
    }
    forall n | n in a ensures View(a)[n] == View(b)[n] {
      forall v ensures v in a[n].versions <==> v in b[n].versions {
        assert Lookup(a, n, v) == Lookup(b, n, v);
      }
      forall v | v in a[n].versions ensures a[n].versions[v] == b[n].versions[v] {
        assert Lookup(a, n, v) == Lookup(b, n, v);
      }
      assert a[n].versions == b[n].versions;
      GreatestUnique(a[n].versions.Keys);
    }
  }

  /** Manifests for one (name, version) would be stored alike. */
  ghost predicate Agreeing(ms: seq<Manifest>) {
    forall m, m' | m in ms && m' in ms && m.name == m'.name && m.version == m'.version :: EntryOf(m) == EntryOf(m')
  }

  lemma {:induction false} LastWriteOfAdds(ms: seq<Manifest>, n: string, v: string)
    ensures LastWrite(Adds(ms), n, v).None? ==> forall m | m in ms :: !(m.name == n && m.version == v)
    ensures LastWrite(Adds(ms), n, v).Some? ==>
              exists m :: m in ms && m.name == n && m.version == v && LastWrite(Adds(ms), n, v).value == EntryOf(m)
  {
    if ms != [] {
      var before, m := ms[..|ms| - 1], ms[|ms| - 1];
      LastWriteOfAdds(before, n, v);
      assert Adds(ms)[..|ms| - 1] == Adds(before);
      assert ms == before + [m];
    }
  }

  lemma PermutationSameMembers(a: seq<Manifest>, b: seq<Manifest>)
    requires multiset(a) == multiset(b)
    ensures forall m :: m in a <==> m in b
  {
    forall m ensures m in a <==> m in b {
      assert m in multiset(a) <==> m in multiset(b);
    }
  }

  lemma AgreeingOrderIrrelevant(ms: seq<Manifest>, other: seq<Manifest>)
    requires Agreeing(ms) && multiset(other) == multiset(ms)
    ensures View(Rebuilt(other)) == View(Rebuilt(ms))
  {
    PermutationSameMembers(ms, other);
    RebuildIsRunOfAdds(ms); RebuildIsRunOfAdds(other);
    RunMeaning(Adds(ms)); RunMeaning(Adds(other));
    forall n, v ensures Lookup(Rebuilt(ms), n, v) == Lookup(Rebuilt(other), n, v) {
      LastWriteOfAdds(ms, n, v);
      LastWriteOfAdds(other, n, v);
    }
    SameLookupsSameView(Rebuilt(ms), Rebuilt(other));
  }

  /** The i-th manifest added last. */
  function MovedLast(ms: seq<Manifest>, i: nat): seq<Manifest>
    requires i < |ms|
  {
    ms[..i] + ms[i + 1..] + [ms[i]]
  }

  lemma MovedLastShows(ms: seq<Manifest>, i: nat)
    requires i < |ms|
    ensures multiset(MovedLast(ms, i)) == multiset(ms)
    ensures Lookup(Rebuilt(MovedLast(ms, i)), ms[i].name, ms[i].version) == Some(EntryOf(ms[i]))
  {
    assert ms == ms[..i] + [ms[i]] + ms[i + 1..];
    var moved := MovedLast(ms, i);
    assert moved[..|moved| - 1] == ms[..i] + ms[i + 1..];
  }

  lemma ViewGivesLookup(a: Packages, b: Packages, n: string, v: string)
    requires View(a) == View(b)
    ensures Lookup(a, n, v) == Lookup(b, n, v)
  {
    assert n in a <==> n in View(a);
    assert n in b <==> n in View(b);
    if n in a { assert View(a)[n] == View(b)[n]; }
  }

  /** Incremental adds in any order give the versions and `latest` of the full rebuild exactly when no two
      manifests of one (name, version) would be stored differently. */
  lemma OrderIrrelevantIff(ms: seq<Manifest>)
    ensures (forall other: seq<Manifest> | multiset(other) == multiset(ms) :: View(Rebuilt(other)) == View(Rebuilt(ms)))
            <==> Agreeing(ms)
  {
    if Agreeing(ms) {
      forall other: seq<Manifest> | multiset(other) == multiset(ms) ensures View(Rebuilt(other)) == View(Rebuilt(ms)) {
        AgreeingOrderIrrelevant(ms, other);
      }
    } else {
      var m, m' :| m in ms && m' in ms && m.name == m'.name && m.version == m'.version && EntryOf(m) != EntryOf(m');
      var i :| 0 <= i < |ms| && ms[i] == m;
      var j :| 0 <= j < |ms| && ms[j] == m';
      MovedLastShows(ms, i);
      MovedLastShows(ms, j);
      var a, b := Rebuilt(MovedLast(ms, i)), Rebuilt(MovedLast(ms, j));
      if View(a) == View(Rebuilt(ms)) && View(b) == View(Rebuilt(ms)) {
        ViewGivesLookup(a, b, m.name, m.version);
      }
    }
  }

  // ----- Description and section -----

  /** The last manifest of that name added in a run. */
  function LastAdd(ops: seq<Op>, name: string): Option<Manifest> {
    if ops == [] then None
    else if ops[|ops| - 1].Add? && ops[|ops| - 1].m.name == name then Some(ops[|ops| - 1].m)
    else LastAdd(ops[..|ops| - 1], name)
  }

  predicate DescribedBy(p: Package, m: Manifest) {
    p.description == GetOr(m.description, "") && p.section == GetOr(m.section, "")
  }

  /** A package has the description and the section of the manifest of its name that was added last, whatever versions were
      removed since. */
  lemma {:induction false} LastAddDescribes(ops: seq<Op>, name: string)
    ensures name in Run(ops) ==> LastAdd(ops, name).Some? && DescribedBy(Run(ops)[name], LastAdd(ops, name).value)
  {
    if ops != [] {
      LastAddDescribes(ops[..|ops| - 1], name);
    }
  }

  function LastOf(ms: seq<Manifest>, name: string): Option<Manifest> {
    if ms == [] then None
    else if ms[|ms| - 1].name == name then Some(ms[|ms| - 1])
    else LastOf(ms[..|ms| - 1], name)
  }

  lemma {:induction false} RebuiltDescribes(ms: seq<Manifest>, name: string)
    ensures name in Rebuilt(ms) <==> LastOf(ms, name).Some?
    ensures name in Rebuilt(ms) ==> DescribedBy(Rebuilt(ms)[name], LastOf(ms, name).value)
    ensures LastOf(ms, name).Some? ==> LastOf(ms, name).value in ms && LastOf(ms, name).value.name == name
  {
    if ms != [] {
      RebuiltDescribes(ms[..|ms| - 1], name);
    }
  }

  /** Manifests of one name share description and section. */
  ghost predicate SameTexts(ms: seq<Manifest>) {
    forall m, m' | m in ms && m' in ms && m.name == m'.name ::
      GetOr(m.description, "") == GetOr(m'.description, "") && GetOr(m.section, "") == GetOr(m'.section, "")
  }

  lemma SameTextsOrderIrrelevant(ms: seq<Manifest>, other: seq<Manifest>)
    requires Agreeing(ms) && SameTexts(ms) && multiset(other) == multiset(ms)
    ensures Rebuilt(other) == Rebuilt(ms)
  {
    PermutationSameMembers(ms, other);
    AgreeingOrderIrrelevant(ms, other);
    var a, b := Rebuilt(ms), Rebuilt(other);
    hide Rebuilt, Agreeing;
    assert forall n :: n in View(a) <==> n in a;
    assert forall n :: n in View(b) <==> n in b;
    forall n | n in a ensures a[n] == b[n] {
      RebuiltDescribes(ms, n);
      RebuiltDescribes(other, n);
      assert View(a)[n] == View(b)[n];
    }
  }

  lemma MovedLastDescribes(ms: seq<Manifest>, i: nat)
    requires i < |ms|
    ensures multiset(MovedLast(ms, i)) == multiset(ms)
    ensures ms[i].name in Rebuilt(MovedLast(ms, i)) && DescribedBy(Rebuilt(MovedLast(ms, i))[ms[i].name], ms[i])
  {
    MovedLastShows(ms, i);
    RebuiltDescribes(MovedLast(ms, i), ms[i].name);
  }

  /** Every order of the manifests rebuilds the same index. */
  ghost predicate OrderFree(ms: seq<Manifest>) {
    forall other: seq<Manifest> | multiset(other) == multiset(ms) :: Rebuilt(other) == Rebuilt(ms)
  }

  /** Adds in any order give the very index of the rebuild exactly when, besides, manifests of one name share description and
      section. */
  lemma SameIndexIff(ms: seq<Manifest>)
    ensures OrderFree(ms) <==> Agreeing(ms) && SameTexts(ms)
  {
    if Agreeing(ms) && SameTexts(ms) {
      forall other: seq<Manifest> | multiset(other) == multiset(ms) ensures Rebuilt(other) == Rebuilt(ms) {
        SameTextsOrderIrrelevant(ms, other);
      }
    }
    if OrderFree(ms) {
      SameIndexAgreeing(ms);
      SameIndexSameTexts(ms);
    }
  }

  lemma SameIndexAgreeing(ms: seq<Manifest>)
    requires OrderFree(ms)
    ensures Agreeing(ms)
  {
    forall other: seq<Manifest> | multiset(other) == multiset(ms) ensures View(Rebuilt(other)) == View(Rebuilt(ms)) {
      assert Rebuilt(other) == Rebuilt(ms);
    }
    OrderIrrelevantIff(ms);
  }

  lemma SameIndexSameTexts(ms: seq<Manifest>)
    requires OrderFree(ms)
    ensures SameTexts(ms)
  {
    hide Rebuilt, MovedLast;
    forall m, m' | m in ms && m' in ms && m.name == m'.name
      ensures GetOr(m.description, "") == GetOr(m'.description, "") && GetOr(m.section, "") == GetOr(m'.section, "")
    {
      var i :| 0 <= i < |ms| && ms[i] == m;
      var j :| 0 <= j < |ms| && ms[j] == m';
      MovedLastDescribes(ms, i);
      MovedLastDescribes(ms, j);
      assert Rebuilt(MovedLast(ms, i)) == Rebuilt(ms) == Rebuilt(MovedLast(ms, j));
    }
  }
}
