/** services/importer_apt.py: the dependency tree of a Debian package, explored at most eight levels deep, and its split
    into packages to download and packages already published. */
module AptImport {
  import opened Sequences
  import opened Text
  import opened TextOrder
  import opened DependencyGraph

  const MAX_DEPTH: nat := 8

  /** The Depends field of the row each name resolves to in the target distribution. */
  type Rows = map<string, Option<string>>

  /** "curl (>= 7.0) | wget" names curl, "perl:any" names perl. */
  function NameOf(part: string): string {
    CutAt(Strip(CutAt(CutAt(Strip(part), ' '), '|')), ':')
  }

  function ParseDepField(depends: string): seq<string> {
    ValidNames(SplitOn(depends, ','))
  }

  function ValidNames(parts: seq<string>): seq<string> {
    if parts == [] then []
    else (if IsName(NameOf(parts[0])) then [NameOf(parts[0])] else []) + ValidNames(parts[1..])
  }

  function DepsOf(rows: Rows, name: string): seq<string> {
    if name !in rows || rows[name].None? || rows[name].value == "" then [] else ParseDepField(rows[name].value)
  }

  /** The dependencies of a name are the valid names of the parts of its row's field. */
  lemma DepsIff(rows: Rows, name: string, n: string)
    ensures n in DepsOf(rows, name)
            <==> && name in rows && rows[name].Some? && rows[name].value != "" && IsName(n)
                 && exists part :: part in SplitOn(rows[name].value, ',') && NameOf(part) == n
  {
    hide NameOf, IsName;
    if name in rows && rows[name].Some? { ValidNamesIff(SplitOn(rows[name].value, ','), n); }
  }

  lemma {:induction false} ValidNamesIff(parts: seq<string>, n: string)
    ensures n in ValidNames(parts) <==> IsName(n) && exists part :: part in parts && NameOf(part) == n
  {
    hide NameOf, IsName;
    if parts != [] {
      ValidNamesIff(parts[1..], n);
      assert parts[0] in parts && parts == [parts[0]] + parts[1..];
    }
  }

  /** A part gives the name it begins with: a version constraint, an alternative or an architecture after it is left out. */
  lemma NameOfIs(name: string, rest: string)
    requires IsName(name) && (rest == "" || rest[0] in " |:")
    ensures NameOf(name + rest) == name && NameOf(" " + name + rest) == name
  {
    NameIsSolid(name);
    StripAfter(name, rest);
    var r0 :| r0 <= rest && Strip(name + rest) == name + r0;
    assert Strip(" " + name + rest) == name + r0 by {
      assert (" " + name + rest)[1..] == name + rest;
    }
    hide Strip, CutAt, IsName;
    CutAfter(name, r0, ' ');
    var r1 := CutAt(r0, ' ');
    CutAfter(name, r1, '|');
    var r2 := CutAt(r1, '|');
    StripAfter(name, r2);
    var r3 :| r3 <= r2 && Strip(name + r2) == name + r3;
    CutAfter(name, r3, ':');
    var r4 := CutAt(r3, ':');
    assert (r1 != "" ==> r1[0] == rest[0] && r1[0] in r1) && (r2 != "" ==> r2[0] == r1[0] && r2[0] in r2);
    assert r3 != "" ==> r3[0] == r2[0] == ':';
    assert r4 == "";
    assert name + "" == name;
  }

  lemma NameIsSolid(name: string)
    requires IsName(name)
    ensures name != "" && !IsSpace(name[0]) && !IsSpace(name[|name| - 1]) && ' ' !in name && '|' !in name && ':' !in name
  {
  }

  ghost function GraphOf(rows: Rows): Graph {
    Graph(map n | n in rows :: DepsOf(rows, n), t => Some(t))
  }

  /** `list(POOL_HIER.rglob(f"{dep}_*.deb"))` finds a file. */
  predicate Published(poolMain: set<string>, dep: string) {
    exists f | f in poolMain :: |dep| + 5 <= |f| && StartsWith(f, dep + "_") && EndsWith(f, ".deb")
  }

  lemma PublishedIff(poolMain: set<string>, dep: string)
    ensures Published(poolMain, dep)
            <==> exists f :: f in poolMain && |dep| + 5 <= |f| && dep + "_" <= f && f[|f| - 4..] == ".deb"
  {
    forall f | f in poolMain && |dep| + 5 <= |f| ensures StartsWith(f, dep + "_") <==> dep + "_" <= f {}
  }

  function Select(names: seq<string>, poolMain: set<string>, published: bool): seq<string> {
    if names == [] then []
    else
      var last := names[|names| - 1];
      Select(names[..|names| - 1], poolMain, published) + if Published(poolMain, last) == published then [last] else []
  }

  /** The names of the tree, then the names still to download and those already published. */
  method PlanImport(rows: Rows, poolMain: set<string>, packageName: string)
    returns (depNames: set<string>, toDownload: seq<string>, skipped: seq<string>)
    ensures depNames == Within(GraphOf(rows), packageName, 8)
    ensures toDownload == Select(Sorted(depNames), poolMain, false)
    ensures skipped == Select(Sorted(depNames), poolMain, true)
  {
    hide *;
    depNames := {packageName};
    var frontier := [packageName];
    var depth: nat := 0;
    EightLevels();
    FirstLevel(rows, packageName);
    while frontier != [] && depth < MAX_DEPTH
      invariant depth <= MAX_DEPTH
      invariant BetweenLevels(rows, packageName, depth, Tree(depNames, frontier))
      decreases MAX_DEPTH - depth
    {
      NextLevel(rows, packageName, depth, Tree(depNames, frontier));
      depNames, frontier := ExpandLevel(rows, depNames, frontier);
      depth := depth + 1;
    }
    LastLevel(rows, packageName, depth, MAX_DEPTH, Tree(depNames, frontier));
    toDownload, skipped := Split(depNames, poolMain);
  }

  lemma EightLevels()
    ensures MAX_DEPTH == 8
  {
  }

  method Split(depNames: set<string>, poolMain: set<string>) returns (toDownload: seq<string>, skipped: seq<string>)
    ensures toDownload == Select(Sorted(depNames), poolMain, false)
    ensures skipped == Select(Sorted(depNames), poolMain, true)
  {
    hide Published;
    toDownload, skipped := [], [];
    var names := Sorted(depNames);
    for i := 0 to |names|
      invariant toDownload == Select(names[..i], poolMain, false)
      invariant skipped == Select(names[..i], poolMain, true)
    {
      assert names[..i + 1][..i] == names[..i];
      if Published(poolMain, names[i]) {
        skipped := skipped + [names[i]];
      } else {
        toDownload := toDownload + [names[i]];
      }
    }
    assert names[..|names|] == names;
  }

  /** A selection of a sorted list is sorted and holds exactly the names on its side of the test. */
  lemma {:induction false} SelectMeaning(names: seq<string>, poolMain: set<string>, published: bool)
    requires StrictlySorted(names)
    ensures StrictlySorted(Select(names, poolMain, published))
    ensures forall n :: n in Select(names, poolMain, published) <==> n in names && Published(poolMain, n) == published
  {
    hide Published;
    if names != [] {
      var front, last := names[..|names| - 1], names[|names| - 1];
      SelectMeaning(front, poolMain, published);
      assert names == front + [last];
      assert forall n | n in front :: Less(n, last);
    }
  }

  /** The two lists of a plan are sorted, disjoint and together make up the tree; only published names are skipped. */
  lemma SplitIsPartition(depNames: set<string>, poolMain: set<string>)
    ensures var toDownload, skipped := Select(Sorted(depNames), poolMain, false), Select(Sorted(depNames), poolMain, true);
            && StrictlySorted(toDownload) && StrictlySorted(skipped)
            && Elements(toDownload) !! Elements(skipped)
            && Elements(toDownload) + Elements(skipped) == depNames
            && forall n :: n in skipped <==> n in depNames && Published(poolMain, n)
  {
    hide Published;
    SelectMeaning(Sorted(depNames), poolMain, false);
    SelectMeaning(Sorted(depNames), poolMain, true);
  }

  // ----- The search -----

  datatype Tree = Tree(names: set<string>, frontier: seq<string>)

  function AddName(t: Tree, name: string): Tree {
    if name in t.names then t else Tree(t.names + {name}, t.frontier + [name])
  }

  function AddNames(t: Tree, names: seq<string>): Tree {
    if names == [] then t else AddName(AddNames(t, names[..|names| - 1]), names[|names| - 1])
  }

  function ExpandNames(rows: Rows, t: Tree, pkgs: seq<string>): Tree {
    if pkgs == [] then t else AddNames(ExpandNames(rows, t, pkgs[..|pkgs| - 1]), DepsOf(rows, pkgs[|pkgs| - 1]))
  }

  method ExpandLevel(rows: Rows, depNames0: set<string>, frontier: seq<string>)
    returns (depNames: set<string>, nextFrontier: seq<string>)
    ensures Tree(depNames, nextFrontier) == ExpandNames(rows, Tree(depNames0, []), frontier)
  {
    hide ParseDepField;
    depNames, nextFrontier := depNames0, [];
    for i := 0 to |frontier|
      invariant Tree(depNames, nextFrontier) == ExpandNames(rows, Tree(depNames0, []), frontier[..i])
    {
      assert frontier[..i + 1][..i] == frontier[..i];
      if frontier[i] !in rows || rows[frontier[i]].None? || rows[frontier[i]].value == "" {
        continue;
      }
      var deps := ParseDepField(rows[frontier[i]].value);
      ghost var before := Tree(depNames, nextFrontier);
      for j := 0 to |deps|
        invariant Tree(depNames, nextFrontier) == AddNames(before, deps[..j])
      {
        assert deps[..j + 1][..j] == deps[..j];
        if deps[j] !in depNames {
          depNames := depNames + {deps[j]};
          nextFrontier := nextFrontier + [deps[j]];
        }
      }
      assert deps[..|deps|] == deps;
    }
    assert frontier[..|frontier|] == frontier;
  }

  lemma {:induction false} AddNamesMeaning(t: Tree, names: seq<string>)
    ensures var t' := AddNames(t, names);
            t'.names == t.names + Elements(names)
            && Elements(t'.frontier) == Elements(t.frontier) + (t'.names - t.names)
  {
    if names == [] {
      assert Elements(names) == {};
    } else {
      var front, last := names[..|names| - 1], names[|names| - 1];
      AddNamesMeaning(t, front);
      var mid, t' := AddNames(t, front), AddNames(t, names);
      assert Elements(names) == Elements(front) + {last};
      if last in mid.names {
        assert t'.names == t.names + Elements(names);
      } else {
        assert Elements(t'.frontier) == Elements(mid.frontier) + {last};
      }
    }
  }

  lemma {:induction false} ExpandNamesMeaning(rows: Rows, t: Tree, pkgs: seq<string>)
    ensures var t' := ExpandNames(rows, t, pkgs);
            t'.names == t.names + TokensOf(GraphOf(rows), Elements(pkgs))
            && Elements(t'.frontier) == Elements(t.frontier) + (t'.names - t.names)
  {
    hide DepsOf;
    var g := GraphOf(rows);
    if pkgs == [] {
      NoNamesNoTokens(g, Elements(pkgs));
    } else {
      var front, last := pkgs[..|pkgs| - 1], pkgs[|pkgs| - 1];
      ExpandNamesMeaning(rows, t, front);
      AddNamesMeaning(ExpandNames(rows, t, front), DepsOf(rows, last));
      DepsAreTokens(rows, last);
      assert Elements(pkgs) == Elements(front) + {last};
      TokensOfUnion(g, Elements(front), {last});
    }
  }

  lemma DepsAreTokens(rows: Rows, name: string)
    ensures TokensOf(GraphOf(rows), {name}) == Elements(DepsOf(rows, name))
  {
    hide ParseDepField;
    var g, deps := GraphOf(rows), DepsOf(rows, name);
    if name in rows {
      assert g.rows[name] == deps;
    } else {
      assert deps == [] && TokensOf(g, {name}) == {};
    }
    assert forall t :: t in TokensOf(g, {name}) <==> t in deps;
  }

  lemma TokensOfUnion(g: Graph, a: set<string>, b: set<string>)
    ensures TokensOf(g, a + b) == TokensOf(g, a) + TokensOf(g, b)
  {
  }

  lemma NamesAreTheirOwnImages(rows: Rows, tokens: set<string>)
    ensures Images(GraphOf(rows), tokens) == tokens
  {
    var g := GraphOf(rows);
    forall t | t in tokens ensures t in Images(g, tokens) {
      assert g.resolve(t) == Some(t) && g.resolve(t).value == t;
    }
  }

  /** The names found are those of d levels, and the frontier leads to the rest of the next one. */
  ghost predicate BetweenLevels(rows: Rows, root: string, d: nat, t: Tree) {
    var g := GraphOf(rows);
    t.names == Within(g, root, d) && t.names + TokensOf(g, Elements(t.frontier)) == Within(g, root, d + 1)
  }

  lemma FirstLevel(rows: Rows, root: string)
    ensures BetweenLevels(rows, root, 0, Tree({root}, [root]))
  {
    assert Elements([root]) == {root};
    NamesAreTheirOwnImages(rows, TokensOf(GraphOf(rows), {root}));
  }

  lemma NextLevel(rows: Rows, root: string, d: nat, t: Tree)
    requires BetweenLevels(rows, root, d, t)
    ensures BetweenLevels(rows, root, d + 1, ExpandNames(rows, Tree(t.names, []), t.frontier))
  {
    var g, t' := GraphOf(rows), ExpandNames(rows, Tree(t.names, []), t.frontier);
    hide GraphOf, TokensOf, Images, ExpandNames;
    ExpandNamesMeaning(rows, Tree(t.names, []), t.frontier);
    var old', new' := Within(g, root, d), Within(g, root, d + 1) - Within(g, root, d);
    assert old' + new' == Within(g, root, d + 1);
    TokensOfUnion(g, old', new');
    NamesAreTheirOwnImages(rows, TokensOf(g, old'));
    NamesAreTheirOwnImages(rows, TokensOf(g, Within(g, root, d + 1)));
    assert Elements(t'.frontier) == new';
  }

  lemma LastLevel(rows: Rows, root: string, d: nat, k: nat, t: Tree)
    requires BetweenLevels(rows, root, d, t) && d <= k && (d == k || t.frontier == [])
    ensures t.names == Within(GraphOf(rows), root, k)
  {
    var g := GraphOf(rows);
    if d < k {
      NoNamesNoTokens(g, Elements(t.frontier));
      Fixpoint(g, root, d, k);
    }
  }
}
