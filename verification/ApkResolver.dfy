/** services/importer_apk.py: resolution of the dependency tree of an Alpine package through capability
    tokens, each token looked up once. */
module ApkResolver {
  import opened Sequences
  import opened Text
  import opened TextOrder
  import opened DependencyGraph
  import FileNames

  /** An index row. */
  datatype Row = Row(version: string, depends: Option<string>)

  /** The index as the resolver sees it: a row for each package name, a provider for each capability. */
  datatype Catalog = Catalog(rows: map<string, Row>, providers: map<string, string>)

  datatype Dependency = Dependency(name: string, version: Option<string>, alreadyInRepo: bool)

  datatype Resolution =
    | NotFound
    | Resolved(packages: seq<Dependency>, totalDeps: nat, alreadyInRepo: nat, toDownload: int, unresolved: seq<string>)

  /** Dependency tokens; a leading '!' marks a conflict, which is not one. */
  function Tokens(depends: Option<string>): seq<string> {
    if depends.None? then [] else NoConflicts(Words(depends.value))
  }

  function NoConflicts(words: seq<string>): seq<string> {
    if words == [] then []
    else (if StartsWith(words[0], "!") then [] else [words[0]]) + NoConflicts(words[1..])
  }

  /** Capabilities go to their provider, paths to nothing, names lose their version constraint. */
  function ResolveToken(providers: map<string, string>, token: string): Option<string> {
    if StartsWith(token, "so:") || StartsWith(token, "cmd:") || StartsWith(token, "pc:") then
      if token in providers && providers[token] != "" then Some(providers[token]) else None
    else if StartsWith(token, "/") then None
    else
      var name := CutAt(CutAt(CutAt(CutAt(token, '='), '>'), '<'), '~');
      if name == "" then None else Some(name)
  }

  /** The tokens of a field are its words that are no conflicts. */
  lemma TokensIff(depends: Option<string>, t: string)
    ensures t in Tokens(depends) <==> depends.Some? && t in Words(depends.value) && !("!" <= t)
  {
    hide Words;
    if depends.Some? { NoConflictsIff(Words(depends.value), t); }
  }

  lemma {:induction false} NoConflictsIff(words: seq<string>, t: string)
    ensures t in NoConflicts(words) <==> t in words && !("!" <= t)
  {
    if words != [] {
      NoConflictsIff(words[1..], t);
      assert StartsWith(words[0], "!") <==> "!" <= words[0];
    }
  }

  predicate IsCapability(token: string) {
    "so:" <= token || "cmd:" <= token || "pc:" <= token
  }

  /** A name followed by a version constraint stands for that name, a capability for its provider, a path for nothing. */
  lemma ResolveTokenMeaning(providers: map<string, string>, name: string, rest: string)
    requires name != "" && forall c | c in name :: c !in "=><~"
    requires rest == "" || rest[0] in "=><~"
    ensures var token := name + rest;
            ResolveToken(providers, token)
            == if IsCapability(token) then (if token in providers && providers[token] != "" then Some(providers[token]) else None)
               else if "/" <= token then None else Some(name)
  {
    hide CutAt, StartsWith;
    var token := name + rest;
    PrefixIs(token, "so:");
    PrefixIs(token, "cmd:");
    PrefixIs(token, "pc:");
    PrefixIs(token, "/");
    BareName(name, rest);
  }

  lemma PrefixIs(s: string, prefix: string)
    ensures StartsWith(s, prefix) <==> prefix <= s
  {
  }

  lemma BareName(name: string, rest: string)
    requires forall c | c in name :: c !in "=><~"
    requires rest == "" || rest[0] in "=><~"
    ensures CutAt(CutAt(CutAt(CutAt(name + rest, '='), '>'), '<'), '~') == name
  {
    hide CutAt;
    CutAfter(name, rest, '=');
    var r1 := CutAt(rest, '=');
    CutAfter(name, r1, '>');
    var r2 := CutAt(r1, '>');
    CutAfter(name, r2, '<');
    var r3 := CutAt(r2, '<');
    CutAfter(name, r3, '~');
    var r4 := CutAt(r3, '~');
    assert (r1 != "" ==> r1[0] == rest[0] && r1[0] in r1) && (r2 != "" ==> r2[0] == r1[0] && r2[0] in r2);
    assert r3 != "" ==> r3[0] == r2[0] == '~';
    assert r4 == "";
    assert name + "" == name;
  }

  /** `any(POOL_DIR.glob(f"{name}-*.apk"))`. */
  predicate InPool(pool: set<string>, name: string) {
    FileNames.Found(pool, name, ".apk")
  }

  ghost function GraphOf(cat: Catalog): Graph {
    Graph(map n | n in cat.rows :: Tokens(cat.rows[n].depends), t => ResolveToken(cat.providers, t))
  }

  function Describe(cat: Catalog, pool: set<string>, name: string): Dependency {
    Dependency(name, if name in cat.rows then Some(cat.rows[name].version) else None, InPool(pool, name))
  }

  function CountInRepo(ps: seq<Dependency>): nat {
    if ps == [] then 0
    else CountInRepo(ps[..|ps| - 1]) + if ps[|ps| - 1].alreadyInRepo then 1 else 0
  }

  method ResolveDepsOnline(cat: Catalog, pool: set<string>, packageName: string, maxDepth: int) returns (r: Resolution)
    ensures r.NotFound? <==> packageName !in cat.rows
    ensures r.Resolved? ==>
              var g, k := GraphOf(cat), if maxDepth < 0 then 0 else maxDepth;
              var names := Sorted(Within(g, packageName, k) - {packageName});
              && r.packages == seq(|names|, i requires 0 <= i < |names| => Describe(cat, pool, names[i]))
              && r.unresolved == Sorted(Dangling(g, Met(g, packageName, k)))
              && r.totalDeps == |names| && r.alreadyInRepo == CountInRepo(r.packages)
              && r.toDownload == r.totalDeps - r.alreadyInRepo
    ensures r.Resolved? ==> forall dep | dep in r.packages :: Right(cat, pool, dep)
  {
    hide Describe, Sorted, GraphOf, Right;
    if packageName !in cat.rows {
      return NotFound;
    }
    var resolvedNames, unresolved := SearchLevels(cat, packageName, maxDepth);
    var names := Sorted(resolvedNames);
    var packages, inRepo := [], 0;
    for i := 0 to |names|
      invariant packages == seq(i, j requires 0 <= j < i => Describe(cat, pool, names[j]))
      invariant inRepo == CountInRepo(packages)
      invariant forall dep | dep in packages :: Right(cat, pool, dep)
    {
      var dep := Describe(cat, pool, names[i]);
      DescribeIsRight(cat, pool, names[i]);
      assert (packages + [dep])[..i] == packages;
      packages := packages + [dep];
      if dep.alreadyInRepo {
        inRepo := inRepo + 1;
      }
    }
    r := Resolved(packages, |packages|, inRepo, |packages| - inRepo, Sorted(unresolved));
  }

  /** The entry gives the version of the package's row, and says whether some file of the pool begins with its name. */
  ghost predicate Right(cat: Catalog, pool: set<string>, dep: Dependency) {
    && (dep.version.Some? <==> dep.name in cat.rows)
    && (dep.name in cat.rows ==> dep.version == Some(cat.rows[dep.name].version))
    && (dep.alreadyInRepo <==> exists f :: f in pool && |dep.name| + 5 <= |f| && dep.name + "-" <= f && f[|f| - 4..] == ".apk")
  }

  lemma DescribeIsRight(cat: Catalog, pool: set<string>, name: string)
    ensures Right(cat, pool, Describe(cat, pool, name))
  {
    forall f | f in pool && |name| + 5 <= |f| ensures StartsWith(f, name + "-") <==> name + "-" <= f {}
  }

  // ----- The search -----

  /** The sets filled so far and the rows collected for the next level. A row is represented by the name it was looked
      up with. */
  datatype Search = Search(found: Found, next: seq<string>)

  function MeetToken(cat: Catalog, root: string, s: Search, token: string): Search {
    if token in s.found.seen then s
    else
      var name := ResolveToken(cat.providers, token);
      Search(Meet(root, s.found, token, name),
             if name.Some? && name.value != root && name.value !in s.found.resolved && name.value in cat.rows
             then s.next + [name.value] else s.next)
  }

  function MeetTokens(cat: Catalog, root: string, s: Search, tokens: seq<string>): Search {
    if tokens == [] then s
    else MeetToken(cat, root, MeetTokens(cat, root, s, tokens[..|tokens| - 1]), tokens[|tokens| - 1])
  }

  function ExpandRows(cat: Catalog, root: string, s: Search, rows: seq<string>): Search
    requires Elements(rows) <= cat.rows.Keys
  {
    if rows == [] then s
    else
      var last := rows[|rows| - 1];
      assert last in Elements(rows) && Elements(rows[..|rows| - 1]) <= Elements(rows);
      MeetTokens(cat, root, ExpandRows(cat, root, s, rows[..|rows| - 1]), Tokens(cat.rows[last].depends))
  }

  method SearchLevels(cat: Catalog, packageName: string, maxDepth: int)
    returns (resolvedNames: set<string>, unresolved: set<string>)
    requires packageName in cat.rows
    ensures var g, k := GraphOf(cat), if maxDepth < 0 then 0 else maxDepth;
            && resolvedNames == Within(g, packageName, k) - {packageName}
            && unresolved == Dangling(g, Met(g, packageName, k))
  {
    hide *;
    ghost var g, k := GraphOf(cat), if maxDepth < 0 then 0 else maxDepth;
    var seenTokens: set<string>;
    resolvedNames, unresolved, seenTokens := {}, {}, {};
    var frontierRows := [packageName];
    var depth := 0;
    FirstLevel(cat, packageName);
    while frontierRows != [] && depth < maxDepth
      invariant 0 <= depth <= k
      invariant BetweenLevels(cat, packageName, depth, Found(seenTokens, resolvedNames, unresolved), frontierRows)
      decreases maxDepth - depth
    {
      NextLevel(cat, packageName, depth, Found(seenTokens, resolvedNames, unresolved), frontierRows);
      seenTokens, resolvedNames, unresolved, frontierRows :=
        ExpandLevel(cat, packageName, seenTokens, resolvedNames, unresolved, frontierRows);
      depth := depth + 1;
    }
    LastLevel(cat, packageName, depth, k, Found(seenTokens, resolvedNames, unresolved), frontierRows);
  }

  ghost predicate BetweenLevels(cat: Catalog, root: string, d: nat, f: Found, frontierRows: seq<string>) {
    Elements(frontierRows) <= cat.rows.Keys
    && AtLevel(GraphOf(cat), root, d, f, TokensOf(GraphOf(cat), Elements(frontierRows)))
  }

  lemma FirstLevel(cat: Catalog, root: string)
    requires root in cat.rows
    ensures BetweenLevels(cat, root, 0, Found({}, {}, {}), [root])
  {
    LevelZero(GraphOf(cat), root);
    assert Elements([root]) == {root};
  }

  lemma NextLevel(cat: Catalog, root: string, d: nat, f: Found, rows: seq<string>)
    requires BetweenLevels(cat, root, d, f, rows)
    ensures Elements(rows) <= cat.rows.Keys
    ensures var s := ExpandRows(cat, root, Search(f, []), rows);
            BetweenLevels(cat, root, d + 1, s.found, s.next)
  {
    var g, s := GraphOf(cat), ExpandRows(cat, root, Search(f, []), rows);
    ExpandRowsMeaning(cat, root, Search(f, []), rows);
    assert Elements(s.next) == (s.found.resolved - f.resolved) * g.rows.Keys;
    LevelUp(g, root, d, f, TokensOf(g, Elements(rows)), s.found, Elements(s.next));
  }

  lemma LastLevel(cat: Catalog, root: string, d: nat, k: nat, f: Found, rows: seq<string>)
    requires BetweenLevels(cat, root, d, f, rows)
    requires d == k || (d < k && rows == [])
    ensures f.resolved == Within(GraphOf(cat), root, k) - {root}
    ensures f.unresolved == Dangling(GraphOf(cat), Met(GraphOf(cat), root, k))
  {
    var g := GraphOf(cat);
    if rows == [] { NoNamesNoTokens(g, Elements(rows)); }
    SearchDone(g, root, d, k, f, TokensOf(g, Elements(rows)));
  }

  /** One level: every token of the frontier rows not met before is resolved. */
  method ExpandLevel(
    cat: Catalog, packageName: string, seen0: set<string>, resolved0: set<string>, unresolved0: set<string>,
    frontierRows: seq<string>)
    returns (seenTokens: set<string>, resolvedNames: set<string>, unresolved: set<string>, nextFrontier: seq<string>)
    requires Elements(frontierRows) <= cat.rows.Keys
    ensures Search(Found(seenTokens, resolvedNames, unresolved), nextFrontier)
         == ExpandRows(cat, packageName, Search(Found(seen0, resolved0, unresolved0), []), frontierRows)
  {
    hide ResolveToken, Tokens;
    seenTokens, resolvedNames, unresolved, nextFrontier := seen0, resolved0, unresolved0, [];
    ghost var start := Search(Found(seen0, resolved0, unresolved0), []);
    for i := 0 to |frontierRows|
      invariant Elements(frontierRows[..i]) <= cat.rows.Keys
      invariant Search(Found(seenTokens, resolvedNames, unresolved), nextFrontier)
             == ExpandRows(cat, packageName, start, frontierRows[..i])
    {
      assert frontierRows[i] in Elements(frontierRows);
      assert frontierRows[..i + 1][..i] == frontierRows[..i];
      var tokens := Tokens(cat.rows[frontierRows[i]].depends);
      ghost var before := Search(Found(seenTokens, resolvedNames, unresolved), nextFrontier);
      for j := 0 to |tokens|
        invariant Search(Found(seenTokens, resolvedNames, unresolved), nextFrontier)
               == MeetTokens(cat, packageName, before, tokens[..j])
      {
        var token := tokens[j];
        assert tokens[..j + 1][..j] == tokens[..j];
        if token in seenTokens {
          continue;
        }
        seenTokens := seenTokens + {token};
        var realName := ResolveToken(cat.providers, token);
        if realName.None? {
          unresolved := unresolved + {token};
          continue;
        }
        if realName.value == packageName || realName.value in resolvedNames {
          assert realName.value in resolvedNames ==> resolvedNames + {realName.value} == resolvedNames;
          continue;
        }
        resolvedNames := resolvedNames + {realName.value};
        if realName.value in cat.rows {
          nextFrontier := nextFrontier + [realName.value];
        }
      }
      assert tokens[..|tokens|] == tokens;
      assert Elements(frontierRows[..i + 1]) <= Elements(frontierRows);
    }
    assert frontierRows[..|frontierRows|] == frontierRows;
  }

  // ----- What a level amounts to -----

  /** From s to s': some tokens met, and the rows of the names they added collected. */
  ghost predicate Advance(cat: Catalog, root: string, s: Search, s': Search, tokens: set<string>) {
    && Settled(GraphOf(cat), root, s'.found)
    && s'.found.seen == s.found.seen + tokens
    && s.found.resolved <= s'.found.resolved
    && Elements(s'.next) == Elements(s.next) + (s'.found.resolved - s.found.resolved) * cat.rows.Keys
  }

  lemma MeetTokenMeaning(cat: Catalog, root: string, s: Search, token: string)
    requires Settled(GraphOf(cat), root, s.found)
    ensures Advance(cat, root, s, MeetToken(cat, root, s, token), {token})
  {
    var g, s' := GraphOf(cat), MeetToken(cat, root, s, token);
    assert g.resolve(token) == ResolveToken(cat.providers, token);
    if token !in s.found.seen {
      MeetSettled(g, root, s.found, token);
      if s'.next != s.next {
        var name := g.resolve(token).value;
        assert Elements(s'.next) == Elements(s.next) + {name};
        assert s'.found.resolved - s.found.resolved == {name};
      }
    }
  }

  lemma AdvanceTwice(cat: Catalog, root: string, s: Search, s1: Search, s2: Search, a: set<string>, b: set<string>)
    requires Advance(cat, root, s, s1, a) && Advance(cat, root, s1, s2, b)
    ensures Advance(cat, root, s, s2, a + b)
  {
    assert (s1.found.resolved - s.found.resolved) + (s2.found.resolved - s1.found.resolved) == s2.found.resolved - s.found.resolved;
  }

  lemma {:induction false} MeetTokensMeaning(cat: Catalog, root: string, s: Search, tokens: seq<string>)
    requires Settled(GraphOf(cat), root, s.found)
    ensures Advance(cat, root, s, MeetTokens(cat, root, s, tokens), Elements(tokens))
  {
    if tokens == [] {
      assert Elements(tokens) == {};
    } else {
      var front, last := tokens[..|tokens| - 1], tokens[|tokens| - 1];
      var mid := MeetTokens(cat, root, s, front);
      MeetTokensMeaning(cat, root, s, front);
      MeetTokenMeaning(cat, root, mid, last);
      AdvanceTwice(cat, root, s, mid, MeetTokens(cat, root, s, tokens), Elements(front), {last});
      assert Elements(tokens) == Elements(front) + {last};
    }
  }

  lemma {:induction false} ExpandRowsMeaning(cat: Catalog, root: string, s: Search, rows: seq<string>)
    requires Elements(rows) <= cat.rows.Keys
    requires Settled(GraphOf(cat), root, s.found)
    ensures Advance(cat, root, s, ExpandRows(cat, root, s, rows), TokensOf(GraphOf(cat), Elements(rows)))
  {
    var g := GraphOf(cat);
    if rows == [] {
      NoNamesNoTokens(g, Elements(rows));
    } else {
      var front, last := rows[..|rows| - 1], rows[|rows| - 1];
      assert last in Elements(rows) && Elements(front) <= Elements(rows);
      var mid, tokens := ExpandRows(cat, root, s, front), Tokens(cat.rows[last].depends);
      ExpandRowsMeaning(cat, root, s, front);
      MeetTokensMeaning(cat, root, mid, tokens);
      AdvanceTwice(cat, root, s, mid, ExpandRows(cat, root, s, rows), TokensOf(g, Elements(front)), Elements(tokens));
      ExpandOne(g, rows);
    }
  }
}
