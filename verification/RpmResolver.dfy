/** services/importer_rpm.py: the same search over Requires tokens, where a token leads straight to the row of the
    package that provides it. */
module RpmResolver {
  import opened Sequences
  import opened Text
  import opened TextOrder
  import opened DependencyGraph

  datatype Row = Row(name: string, needs: Option<string>)

  /** A row for each package name, and the row each Requires token resolves to. */
  datatype Catalog = Catalog(rows: map<string, Row>, providers: map<string, Row>)

  datatype Dependency = Dependency(name: string, alreadyInRepo: bool, virtual: Option<string>)

  datatype Resolution =
    | NotFound
    | Resolved(packages: seq<Dependency>, totalDeps: nat, alreadyInRepo: int, toDownload: nat, unresolved: seq<string>)

  /** Candidate package names of a Requires field; capabilities with parentheses are dropped. */
  function Tokens(packageName: string, needs: Option<string>): seq<string> {
    if needs.None? then [] else Candidates(packageName, SplitOn(needs.value, ','))
  }

  function Candidates(packageName: string, parts: seq<string>): seq<string> {
    if parts == [] then []
    else
      var words := Words(parts[0]);
      (if words != [] && words[0] != packageName && IsName(words[0]) then [words[0]] else [])
      + Candidates(packageName, parts[1..])
  }

  /** All rows that carry one name list the same dependencies. */
  ghost predicate RowsAgree(cat: Catalog) {
    forall t, t' | t in cat.providers && t' in cat.providers && cat.providers[t].name == cat.providers[t'].name
      :: cat.providers[t].needs == cat.providers[t'].needs
  }

  ghost function RowFor(cat: Catalog, root: string, name: string): Row
    requires name == root ==> root in cat.rows
    requires name == root || exists t :: t in cat.providers && cat.providers[t].name == name
  {
    if name == root then cat.rows[root]
    else
      var t :| t in cat.providers && cat.providers[t].name == name;
      cat.providers[t]
  }

  ghost function ProvidedNames(cat: Catalog): set<string> {
    set t | t in cat.providers :: cat.providers[t].name
  }

  ghost function GraphOf(cat: Catalog, root: string): Graph
    requires root in cat.rows
  {
    Graph(map n | n in {root} + ProvidedNames(cat) :: Tokens(root, RowFor(cat, root, n).needs),
          t => if t in cat.providers then Some(cat.providers[t].name) else None)
  }

  /** A virtual name is recorded with a token that differs from it and leads to it; any other resolved name was met
      under its own name. */
  ghost predicate VirtualsRight(cat: Catalog, resolved: set<string>, virtuals: map<string, string>) {
    && (forall n | n in virtuals ::
          n in resolved && virtuals[n] != n && virtuals[n] in cat.providers && cat.providers[virtuals[n]].name == n)
    && (forall n | n in resolved && n !in virtuals :: n in cat.providers && cat.providers[n].name == n)
  }

  function Names(ps: seq<Dependency>): seq<string> {
    seq(|ps|, i requires 0 <= i < |ps| => ps[i].name)
  }

  /** What the result says of one resolved name. */
  ghost predicate Listed(cat: Catalog, repo: set<string>, dep: Dependency) {
    && dep.alreadyInRepo == (dep.name in repo)
    && (dep.virtual.Some? ==>
          dep.virtual.value != dep.name && dep.virtual.value in cat.providers && cat.providers[dep.virtual.value].name == dep.name)
    && (dep.virtual.None? ==> dep.name in cat.providers && cat.providers[dep.name].name == dep.name)
  }

  method ResolveDepsOnline(cat: Catalog, repo: set<string>, packageName: string, maxDepth: int) returns (r: Resolution)
    ensures r.NotFound? <==> packageName !in cat.rows
    ensures r.Resolved? ==>
              && r.totalDeps == |r.packages| && r.alreadyInRepo + r.toDownload == r.totalDeps
              && r.totalDeps == |Elements(Names(r.packages))| && r.alreadyInRepo == |Elements(Names(r.packages)) * repo|
              && (forall dep | dep in r.packages :: Listed(cat, repo, dep))
    ensures r.Resolved? && RowsAgree(cat) ==>
              var g, k := GraphOf(cat, packageName), if maxDepth < 0 then 0 else maxDepth;
              && Names(r.packages) == Sorted(Within(g, packageName, k) - {packageName})
              && r.unresolved == Sorted(Dangling(g, Met(g, packageName, k)))
  {
    hide *;
    if packageName !in cat.rows {
      return NotFound;
    }
    var resolvedNames, unresolved, virtuals := SearchLevels(cat, packageName, maxDepth);
    var packages, toDownload := ListPackages(cat, repo, resolvedNames, virtuals);
    SortedCounts(resolvedNames, repo);
    assert |Names(packages)| == |packages| by { NamesLength(packages); }
    r := Resolved(packages, |packages|, |packages| - toDownload, toDownload, Sorted(unresolved));
  }

  method ListPackages(cat: Catalog, repo: set<string>, resolvedNames: set<string>, virtuals: map<string, string>)
    returns (packages: seq<Dependency>, toDownload: nat)
    requires VirtualsRight(cat, resolvedNames, virtuals)
    ensures Names(packages) == Sorted(resolvedNames) && toDownload == |resolvedNames - repo|
    ensures forall dep | dep in packages :: Listed(cat, repo, dep)
  {
    hide *;
    var names := Sorted(resolvedNames);
    packages, toDownload := [], 0;
    NothingListed(names, repo);
    for i := 0 to |names|
      invariant Names(packages) == names[..i] && toDownload == |Elements(names[..i]) - repo|
      invariant forall dep | dep in packages :: Listed(cat, repo, dep)
    {
      var dep := Dependency(names[i], names[i] in repo, if names[i] in virtuals then Some(virtuals[names[i]]) else None);
      ResolvedIsListed(cat, repo, resolvedNames, virtuals, dep);
      OneMoreListed(names, i, repo, packages, dep);
      packages := packages + [dep];
      if !dep.alreadyInRepo {
        toDownload := toDownload + 1;
      }
    }
    AllListed(names, resolvedNames);
  }

  lemma NothingListed(names: seq<string>, repo: set<string>)
    ensures Names([]) == names[..0] == [] && |Elements(names[..0]) - repo| == 0
  {
    assert Elements(names[..0]) - repo == {};
  }

  lemma AllListed(names: seq<string>, resolved: set<string>)
    requires forall n :: n in names <==> n in resolved
    ensures names[..|names|] == names && Elements(names[..|names|]) == resolved
  {
  }

  lemma NamesLength(ps: seq<Dependency>)
    ensures |Names(ps)| == |ps|
  {
  }

  lemma OneMoreListed(names: seq<string>, i: nat, repo: set<string>, packages: seq<Dependency>, dep: Dependency)
    requires StrictlySorted(names) && i < |names| && Names(packages) == names[..i] && dep.name == names[i]
    ensures Names(packages + [dep]) == names[..i + 1]
    ensures |Elements(names[..i + 1]) - repo| == |Elements(names[..i]) - repo| + if names[i] in repo then 0 else 1
  {
    hide *;
    NewInOrder(names, i);
    NamesMore(packages, dep);
    ElementsMore(names, i);
    CountedApart(Elements(names[..i]), names[i], repo);
  }

  lemma NamesMore(packages: seq<Dependency>, dep: Dependency)
    ensures Names(packages + [dep]) == Names(packages) + [dep.name]
  {
  }

  lemma ElementsMore(names: seq<string>, i: nat)
    requires i < |names|
    ensures names[..i + 1] == names[..i] + [names[i]] && Elements(names[..i + 1]) == Elements(names[..i]) + {names[i]}
  {
    assert names[..i + 1] == names[..i] + [names[i]];
  }

  lemma NewInOrder(names: seq<string>, i: nat)
    requires StrictlySorted(names) && i < |names|
    ensures names[i] !in Elements(names[..i])
  {
    forall j | 0 <= j < i ensures names[j] != names[i] { Trichotomy(names[j], names[i]); }
    hide Less;
  }

  lemma CountedApart(names: set<string>, n: string, repo: set<string>)
    requires n !in names
    ensures |names + {n} - repo| == |names - repo| + if n in repo then 0 else 1
  {
    if n in repo { assert names + {n} - repo == names - repo; } else { assert names + {n} - repo == names - repo + {n}; }
  }

  /** A sorted list has each name once, on one side of the repository or the other. */
  lemma SortedCounts(names: set<string>, repo: set<string>)
    ensures |Sorted(names)| == |names| == |names * repo| + |names - repo| && Elements(Sorted(names)) == names
  {
    var r := Sorted(names);
    forall i, j | 0 <= i < j < |r| ensures r[i] != r[j] { Trichotomy(r[i], r[j]); }
    NoDuplicatesSize(r);
    assert Elements(r) == names;
    assert names == names * repo + (names - repo);
  }

  predicate BeginsWith(part: string, word: string) {
    Words(part) != [] && Words(part)[0] == word
  }

  /** The tokens of a field are the first words of its parts that are names, other than the package's own. */
  lemma TokensIff(packageName: string, needs: Option<string>, t: string)
    ensures t in Tokens(packageName, needs)
            <==> && needs.Some? && t != packageName && IsName(t)
                 && exists part :: part in SplitOn(needs.value, ',') && BeginsWith(part, t)
  {
    if needs.Some? { CandidatesIff(packageName, SplitOn(needs.value, ','), t); }
  }

  lemma {:induction false} CandidatesIff(packageName: string, parts: seq<string>, t: string)
    ensures t in Candidates(packageName, parts)
            <==> t != packageName && IsName(t) && exists part :: part in parts && BeginsWith(part, t)
  {
    hide Words, IsName;
    if parts != [] {
      CandidatesIff(packageName, parts[1..], t);
      assert parts[0] in parts && parts == [parts[0]] + parts[1..];
      assert forall part :: part in parts <==> part == parts[0] || part in parts[1..];
    }
  }

  lemma ResolvedIsListed(cat: Catalog, repo: set<string>, resolved: set<string>, virtuals: map<string, string>, dep: Dependency)
    requires VirtualsRight(cat, resolved, virtuals) && dep.name in resolved && dep.alreadyInRepo == (dep.name in repo)
    requires dep.virtual == if dep.name in virtuals then Some(virtuals[dep.name]) else None
    ensures Listed(cat, repo, dep)
  {
  }

  // ----- The search -----

  datatype Search = Search(found: Found, virtuals: map<string, string>, next: seq<Row>)

  function MeetToken(cat: Catalog, root: string, s: Search, token: string): Search {
    if token in s.found.seen then s
    else if token !in cat.providers then s.(found := Meet(root, s.found, token, None))
    else
      var row := cat.providers[token];
      var s' := s.(found := Meet(root, s.found, token, Some(row.name)));
      if row.name == root || row.name in s.found.resolved then s'
      else s'.(next := s.next + [row], virtuals := if row.name != token then s.virtuals[row.name := token] else s.virtuals)
  }

  function MeetTokens(cat: Catalog, root: string, s: Search, tokens: seq<string>): Search {
    if tokens == [] then s
    else MeetToken(cat, root, MeetTokens(cat, root, s, tokens[..|tokens| - 1]), tokens[|tokens| - 1])
  }

  function ExpandRows(cat: Catalog, root: string, s: Search, rows: seq<Row>): Search {
    if rows == [] then s
    else MeetTokens(cat, root, ExpandRows(cat, root, s, rows[..|rows| - 1]), Tokens(root, rows[|rows| - 1].needs))
  }

  method SearchLevels(cat: Catalog, packageName: string, maxDepth: int)
    returns (resolvedNames: set<string>, unresolved: set<string>, virtuals: map<string, string>)
    requires packageName in cat.rows
    ensures VirtualsRight(cat, resolvedNames, virtuals)
    ensures RowsAgree(cat) ==>
              var g, k := GraphOf(cat, packageName), if maxDepth < 0 then 0 else maxDepth;
              && resolvedNames == Within(g, packageName, k) - {packageName}
              && unresolved == Dangling(g, Met(g, packageName, k))
  {
    hide *;
    ghost var k := if maxDepth < 0 then 0 else maxDepth;
    var seenTokens: set<string>;
    resolvedNames, unresolved, seenTokens, virtuals := {}, {}, {}, map[];
    var frontierRows := [cat.rows[packageName]];
    var depth := 0;
    FirstLevel(cat, packageName);
    while frontierRows != [] && depth < maxDepth
      invariant 0 <= depth <= k
      invariant BetweenLevels(cat, packageName, depth, Search(Found(seenTokens, resolvedNames, unresolved), virtuals, frontierRows))
      decreases maxDepth - depth
    {
      NextLevel(cat, packageName, depth, Search(Found(seenTokens, resolvedNames, unresolved), virtuals, frontierRows));
      seenTokens, resolvedNames, unresolved, virtuals, frontierRows :=
        ExpandLevel(cat, packageName, seenTokens, resolvedNames, unresolved, virtuals, frontierRows);
      depth := depth + 1;
    }
    LastLevel(cat, packageName, depth, k, Search(Found(seenTokens, resolvedNames, unresolved), virtuals, frontierRows));
  }

  method ExpandLevel(
    cat: Catalog, packageName: string, seen0: set<string>, resolved0: set<string>, unresolved0: set<string>,
    virtuals0: map<string, string>, frontierRows: seq<Row>)
    returns (seenTokens: set<string>, resolvedNames: set<string>, unresolved: set<string>, virtuals: map<string, string>,
             nextFrontier: seq<Row>)
    ensures Search(Found(seenTokens, resolvedNames, unresolved), virtuals, nextFrontier)
         == ExpandRows(cat, packageName, Search(Found(seen0, resolved0, unresolved0), virtuals0, []), frontierRows)
  {
    hide Tokens;
    seenTokens, resolvedNames, unresolved, virtuals, nextFrontier := seen0, resolved0, unresolved0, virtuals0, [];
    ghost var start := Search(Found(seen0, resolved0, unresolved0), virtuals0, []);
    for i := 0 to |frontierRows|
      invariant Search(Found(seenTokens, resolvedNames, unresolved), virtuals, nextFrontier)
             == ExpandRows(cat, packageName, start, frontierRows[..i])
    {
      assert frontierRows[..i + 1][..i] == frontierRows[..i];
      var tokens := Tokens(packageName, frontierRows[i].needs);
      ghost var before := Search(Found(seenTokens, resolvedNames, unresolved), virtuals, nextFrontier);
      for j := 0 to |tokens|
        invariant Search(Found(seenTokens, resolvedNames, unresolved), virtuals, nextFrontier)
               == MeetTokens(cat, packageName, before, tokens[..j])
      {
        var token := tokens[j];
        assert tokens[..j + 1][..j] == tokens[..j];
        if token in seenTokens {
          continue;
        }
        seenTokens := seenTokens + {token};
        if token !in cat.providers {
          unresolved := unresolved + {token};
          continue;
        }
        var depRow := cat.providers[token];
        if depRow.name == packageName || depRow.name in resolvedNames {
          assert depRow.name in resolvedNames ==> resolvedNames + {depRow.name} == resolvedNames;
          continue;
        }
        resolvedNames := resolvedNames + {depRow.name};
        if depRow.name != token {
          virtuals := virtuals[depRow.name := token];
        }
        nextFrontier := nextFrontier + [depRow];
      }
      assert tokens[..|tokens|] == tokens;
    }
    assert frontierRows[..|frontierRows|] == frontierRows;
  }

  // ----- What a level amounts to -----

  ghost function RowNames(rows: seq<Row>): set<string> {
    set r | r in rows :: r.name
  }

  ghost function RowTokens(root: string, rows: seq<Row>): set<string> {
    set r, t | r in rows && t in Tokens(root, r.needs) :: t
  }

  /** Every row was reached through a token. */
  ghost predicate Reached(cat: Catalog, rows: seq<Row>) {
    forall r | r in rows :: r in cat.providers.Values
  }

  /** From s to s': some tokens met, and the rows of the names they added collected. */
  ghost predicate Advance(cat: Catalog, root: string, s: Search, s': Search, tokens: set<string>)
    requires root in cat.rows
  {
    && Settled(GraphOf(cat, root), root, s'.found)
    && s'.found.seen == s.found.seen + tokens
    && s.found.resolved <= s'.found.resolved
    && RowNames(s'.next) == RowNames(s.next) + (s'.found.resolved - s.found.resolved)
    && Reached(cat, s'.next)
    && VirtualsRight(cat, s'.found.resolved, s'.virtuals)
  }

  ghost predicate Ready(cat: Catalog, root: string, s: Search)
    requires root in cat.rows
  {
    Settled(GraphOf(cat, root), root, s.found) && Reached(cat, s.next) && VirtualsRight(cat, s.found.resolved, s.virtuals)
  }

  lemma ResolveInGraph(cat: Catalog, root: string, token: string)
    requires root in cat.rows
    ensures GraphOf(cat, root).resolve(token) == if token in cat.providers then Some(cat.providers[token].name) else None
  {
  }

  lemma VirtualsStay(cat: Catalog, resolved: set<string>, virtuals: map<string, string>, token: string)
    requires VirtualsRight(cat, resolved, virtuals) && token in cat.providers && cat.providers[token].name !in resolved
    ensures var name := cat.providers[token].name;
            VirtualsRight(cat, resolved + {name}, if name != token then virtuals[name := token] else virtuals)
  {
  }

  lemma MeetTokenMeaning(cat: Catalog, root: string, s: Search, token: string)
    requires root in cat.rows && Ready(cat, root, s)
    ensures Advance(cat, root, s, MeetToken(cat, root, s, token), {token})
  {
    hide GraphOf, Settled, VirtualsRight, RowNames;
    var s' := MeetToken(cat, root, s, token);
    ResolveInGraph(cat, root, token);
    if token in s.found.seen {
      assert s'.found.seen == s.found.seen + {token};
    } else {
      MeetSettled(GraphOf(cat, root), root, s.found, token);
      if token in cat.providers && cat.providers[token].name != root && cat.providers[token].name !in s.found.resolved {
        var row := cat.providers[token];
        RowNamesAppend(s.next, [row]);
        VirtualsStay(cat, s.found.resolved, s.virtuals, token);
        assert row in cat.providers.Values;
        assert s'.found.resolved - s.found.resolved == {row.name};
      } else {
        assert s'.found.resolved == s.found.resolved;
        assert s'.found.resolved - s.found.resolved == {};
      }
    }
  }

  lemma RowNamesAppend(a: seq<Row>, b: seq<Row>)
    ensures RowNames(a + b) == RowNames(a) + RowNames(b)
    ensures forall r: Row :: RowNames([r]) == {r.name}
  {
  }

  lemma AdvanceTwice(cat: Catalog, root: string, s: Search, s1: Search, s2: Search, a: set<string>, b: set<string>)
    requires root in cat.rows && Advance(cat, root, s, s1, a) && Advance(cat, root, s1, s2, b)
    ensures Advance(cat, root, s, s2, a + b)
  {
    hide Settled, Reached, VirtualsRight, RowNames, GraphOf;
    assert (s1.found.resolved - s.found.resolved) + (s2.found.resolved - s1.found.resolved) == s2.found.resolved - s.found.resolved;
  }

  lemma {:induction false} MeetTokensMeaning(cat: Catalog, root: string, s: Search, tokens: seq<string>)
    requires root in cat.rows && Ready(cat, root, s)
    ensures Advance(cat, root, s, MeetTokens(cat, root, s, tokens), Elements(tokens))
  {
    hide Settled, Reached, VirtualsRight, RowNames, GraphOf, MeetToken;
    if tokens == [] {
      assert Elements(tokens) == {};
    } else {
      var front, last := tokens[..|tokens| - 1], tokens[|tokens| - 1];
      var mid := MeetTokens(cat, root, s, front);
      MeetTokensMeaning(cat, root, s, front);
      MeetTokenMeaning(cat, root, mid, last);
      AdvanceTwice(cat, root, s, mid, MeetTokens(cat, root, s, tokens), Elements(front), {last});
      assert Elements(tokens) == Elements(front) + {last};
    }
  }

  lemma {:induction false} ExpandRowsMeaning(cat: Catalog, root: string, s: Search, rows: seq<Row>)
    requires root in cat.rows && Ready(cat, root, s)
    ensures Advance(cat, root, s, ExpandRows(cat, root, s, rows), RowTokens(root, rows))
  {
    hide Settled, Reached, VirtualsRight, RowNames, GraphOf, MeetTokens;
    if rows == [] {
      assert RowTokens(root, rows) == {};
    } else {
      var front, last := rows[..|rows| - 1], rows[|rows| - 1];
      var mid, tokens := ExpandRows(cat, root, s, front), Tokens(root, last.needs);
      ExpandRowsMeaning(cat, root, s, front);
      MeetTokensMeaning(cat, root, mid, tokens);
      AdvanceTwice(cat, root, s, mid, ExpandRows(cat, root, s, rows), RowTokens(root, front), Elements(tokens));
      RowTokensOne(root, rows);
    }
  }

  lemma RowTokensOne(root: string, rows: seq<Row>)
    requires rows != []
    ensures RowTokens(root, rows) == RowTokens(root, rows[..|rows| - 1]) + Elements(Tokens(root, rows[|rows| - 1].needs))
  {
    hide Tokens;
    assert rows == rows[..|rows| - 1] + [rows[|rows| - 1]];
  }

  /** When rows of one name agree, the tokens of the rows found are those of their names. */
  lemma AgreeingRows(cat: Catalog, root: string, rows: seq<Row>)
    requires root in cat.rows && RowsAgree(cat) && Reached(cat, rows) && root !in RowNames(rows)
    ensures RowNames(rows) <= GraphOf(cat, root).rows.Keys
    ensures RowTokens(root, rows) == TokensOf(GraphOf(cat, root), RowNames(rows))
  {
    hide Tokens;
    var g := GraphOf(cat, root);
    forall r | r in rows ensures r.name in g.rows && g.rows[r.name] == Tokens(root, r.needs) {
      var t :| t in cat.providers && cat.providers[t] == r;
      assert r.name in RowNames(rows) && r.name in ProvidedNames(cat);
    }
    forall t | t in TokensOf(g, RowNames(rows)) ensures t in RowTokens(root, rows) {
      var n :| n in RowNames(rows) && n in g.rows && t in g.rows[n];
      var r :| r in rows && r.name == n;
    }
    forall t | t in RowTokens(root, rows) ensures t in TokensOf(g, RowNames(rows)) {
      var r :| r in rows && t in Tokens(root, r.needs);
      assert r.name in RowNames(rows);
    }
  }

  ghost predicate BetweenLevels(cat: Catalog, root: string, d: nat, s: Search)
    requires root in cat.rows
  {
    && Settled(GraphOf(cat, root), root, s.found)
    && VirtualsRight(cat, s.found.resolved, s.virtuals)
    && (RowsAgree(cat) ==> AtLevel(GraphOf(cat, root), root, d, s.found, RowTokens(root, s.next)))
  }

  lemma FirstLevel(cat: Catalog, root: string)
    requires root in cat.rows
    ensures BetweenLevels(cat, root, 0, Search(Found({}, {}, {}), map[], [cat.rows[root]]))
  {
    hide Tokens;
    var g, row := GraphOf(cat, root), cat.rows[root];
    LevelZero(g, root);
    assert g.rows[root] == Tokens(root, row.needs);
    assert TokensOf(g, {root}) == RowTokens(root, [row]);
  }

  lemma NextLevel(cat: Catalog, root: string, d: nat, s: Search)
    requires root in cat.rows && BetweenLevels(cat, root, d, s)
    ensures BetweenLevels(cat, root, d + 1, ExpandRows(cat, root, s.(next := []), s.next))
  {
    hide GraphOf, VirtualsRight, ExpandRows, RowTokens, Images, Dangling, TokensOf, Within, Met, RowsAgree, Reached;
    var g, s' := GraphOf(cat, root), ExpandRows(cat, root, s.(next := []), s.next);
    NothingReached(cat);
    ExpandRowsMeaning(cat, root, s.(next := []), s.next);
    if RowsAgree(cat) {
      assert RowNames(s'.next) == s'.found.resolved - s.found.resolved;
      AgreeingRows(cat, root, s'.next);
      assert RowNames(s'.next) == (s'.found.resolved - s.found.resolved) * g.rows.Keys;
      hide AtLevel;
      LevelUp(g, root, d, s.found, RowTokens(root, s.next), s'.found, RowNames(s'.next));
    }
  }

  lemma NothingReached(cat: Catalog)
    ensures Reached(cat, []) && RowNames([]) == {}
  {
  }

  lemma LastLevel(cat: Catalog, root: string, d: nat, k: nat, s: Search)
    requires root in cat.rows && BetweenLevels(cat, root, d, s)
    requires d == k || (d < k && s.next == [])
    ensures VirtualsRight(cat, s.found.resolved, s.virtuals)
    ensures RowsAgree(cat) ==>
              && s.found.resolved == Within(GraphOf(cat, root), root, k) - {root}
              && s.found.unresolved == Dangling(GraphOf(cat, root), Met(GraphOf(cat, root), root, k))
  {
    if s.next == [] { assert RowTokens(root, s.next) == {}; }
    if RowsAgree(cat) {
      hide AtLevel, GraphOf, RowTokens;
      SearchDone(GraphOf(cat, root), root, d, k, s.found, RowTokens(root, s.next));
    }
  }
}
