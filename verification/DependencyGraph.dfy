/** The reference for the level-by-level dependency searches: names reachable in a bounded number of
    token-resolution steps. */
module DependencyGraph {
  import opened Sequences

  /** `rows` gives the dependency tokens of each indexed name; `resolve` the name a token stands for. */
  datatype Graph = Graph(rows: map<string, seq<string>>, resolve: string -> Option<string>)

  ghost function TokensOf(g: Graph, names: set<string>): set<string> {
    set n, t | n in names && n in g.rows && t in g.rows[n] :: t
  }

  ghost function Images(g: Graph, tokens: set<string>): set<string> {
    set t | t in tokens && g.resolve(t).Some? :: g.resolve(t).value
  }

  ghost function Dangling(g: Graph, tokens: set<string>): set<string> {
    set t | t in tokens && g.resolve(t).None?
  }

  /** Names reachable from `root` in at most k steps. */
  ghost function Within(g: Graph, root: string, k: nat): set<string> {
    if k == 0 then {root}
    else Within(g, root, k - 1) + Images(g, TokensOf(g, Within(g, root, k - 1)))
  }

  /** Tokens met when the names within k - 1 steps are expanded. */
  ghost function Met(g: Graph, root: string, k: nat): set<string> {
    if k == 0 then {} else TokensOf(g, Within(g, root, k - 1))
  }

  // ----- The same notion by paths -----

  ghost predicate Step(g: Graph, a: string, b: string) {
    a in g.rows && exists t :: t in g.rows[a] && g.resolve(t) == Some(b)
  }

  ghost predicate PathTo(g: Graph, path: seq<string>, from: string, to: string) {
    path != [] && path[0] == from && path[|path| - 1] == to
    && forall i | 0 < i < |path| :: Step(g, path[i - 1], path[i])
  }

  lemma {:induction false} WithinIffPath(g: Graph, root: string, k: nat, n: string)
    ensures n in Within(g, root, k) <==> exists path :: PathTo(g, path, root, n) && |path| <= k + 1
  {
    if n in Within(g, root, k) {
      PathOfWithin(g, root, k, n);
    }
    forall path | PathTo(g, path, root, n) && |path| <= k + 1 ensures n in Within(g, root, k) {
      PathIsWithin(g, root, k, path);
    }
  }

  lemma {:induction false} PathOfWithin(g: Graph, root: string, k: nat, n: string)
    requires n in Within(g, root, k)
    ensures exists path :: PathTo(g, path, root, n) && |path| <= k + 1
  {
    if k == 0 {
      assert PathTo(g, [root], root, n);
    } else if n in Within(g, root, k - 1) {
      PathOfWithin(g, root, k - 1, n);
    } else {
      var m := StepBefore(g, Within(g, root, k - 1), n);
      PathOfWithin(g, root, k - 1, m);
      var path :| PathTo(g, path, root, m) && |path| <= k;
      hide Step;
      assert PathTo(g, path + [n], root, n);
    }
  }

  lemma StepBefore(g: Graph, names: set<string>, n: string) returns (m: string)
    requires n in Images(g, TokensOf(g, names))
    ensures m in names && Step(g, m, n)
  {
    var t :| t in TokensOf(g, names) && g.resolve(t) == Some(n);
    m :| m in names && m in g.rows && t in g.rows[m];
  }

  lemma {:induction false} PathIsWithin(g: Graph, root: string, k: nat, path: seq<string>)
    requires path != [] && PathTo(g, path, root, path[|path| - 1]) && |path| <= k + 1
    ensures path[|path| - 1] in Within(g, root, k)
  {
    if |path| > 1 {
      var m := path[|path| - 2];
      assert Step(g, m, path[|path| - 1]);
      assert PathTo(g, path[..|path| - 1], root, m);
      PathIsWithin(g, root, k - 1, path[..|path| - 1]);
    } else {
      RootWithin(g, root, k);
    }
  }

  lemma {:induction false} RootWithin(g: Graph, root: string, k: nat)
    ensures root in Within(g, root, k)
  {
    if k > 0 { RootWithin(g, root, k - 1); }
  }

  // ----- What the level-by-level loops rely on -----

  /** Names within k + 1 steps are the root and the images of all tokens of names within k steps. */
  lemma {:induction false} NextLevel(g: Graph, root: string, k: nat)
    ensures Within(g, root, k + 1) == {root} + Images(g, TokensOf(g, Within(g, root, k)))
  {
    if k > 0 {
      NextLevel(g, root, k - 1);
      assert TokensOf(g, Within(g, root, k - 1)) <= TokensOf(g, Within(g, root, k));
    }
  }

  /** Once a level brings no new name, no later one does. */
  lemma {:induction false} Fixpoint(g: Graph, root: string, d: nat, k: nat)
    requires Within(g, root, d + 1) == Within(g, root, d) && d <= k
    ensures Within(g, root, k) == Within(g, root, d)
    decreases k
  {
    hide Images, TokensOf;
    if d < k { Fixpoint(g, root, d, k - 1); }
  }

  /** A search stopped at level d with no row left to expand already has what k levels give. */
  lemma EarlyStop(g: Graph, root: string, d: nat, k: nat, seen: set<string>)
    requires d <= k && seen == Met(g, root, d)
    requires d == k || TokensOf(g, Within(g, root, d)) == seen
    ensures Within(g, root, k) == Within(g, root, d) && Met(g, root, k) == seen
  {
    if d < k {
      NextLevel(g, root, d);
      if d > 0 { NextLevel(g, root, d - 1); }
      Fixpoint(g, root, d, k);
      Fixpoint(g, root, d, k - 1);
    }
  }

  /** One finished level: the rows found for the new names carry the tokens still to be met. */
  lemma LevelDone(g: Graph, root: string, d: nat, resolved: set<string>, rows: set<string>)
    requires {root} + resolved == {root} + Images(g, TokensOf(g, Within(g, root, d)))
    requires rows == ((resolved - Within(g, root, d)) * g.rows.Keys)
    ensures {root} + resolved == Within(g, root, d + 1)
    ensures TokensOf(g, Within(g, root, d + 1)) == Met(g, root, d + 1) + TokensOf(g, rows)
  {
    NextLevel(g, root, d);
    RootWithin(g, root, d);
  }

  // ----- The state of a search between two levels -----

  datatype Found = Found(seen: set<string>, resolved: set<string>, unresolved: set<string>)

  /** What is resolved and what is not follows from the tokens seen. */
  ghost predicate Settled(g: Graph, root: string, f: Found) {
    f.resolved == Images(g, f.seen) - {root} && f.unresolved == Dangling(g, f.seen)
  }

  /** A token met for the first time. */
  function Meet(root: string, f: Found, token: string, name: Option<string>): Found {
    if name.None? then f.(seen := f.seen + {token}, unresolved := f.unresolved + {token})
    else if name.value == root then f.(seen := f.seen + {token})
    else f.(seen := f.seen + {token}, resolved := f.resolved + {name.value})
  }

  lemma MeetSettled(g: Graph, root: string, f: Found, token: string)
    requires Settled(g, root, f)
    ensures Settled(g, root, Meet(root, f, token, g.resolve(token)))
  {
    var f' := Meet(root, f, token, g.resolve(token));
    if g.resolve(token).Some? {
      assert Images(g, f'.seen) == Images(g, f.seen) + {g.resolve(token).value};
      assert Dangling(g, f'.seen) == Dangling(g, f.seen);
    } else {
      assert Images(g, f'.seen) == Images(g, f.seen);
      assert Dangling(g, f'.seen) == Dangling(g, f.seen) + {token};
    }
  }

  /** After d levels, with the tokens `pending` in the rows still to be expanded. */
  ghost predicate AtLevel(g: Graph, root: string, d: nat, f: Found, pending: set<string>) {
    && Settled(g, root, f)
    && {root} + f.resolved == Within(g, root, d)
    && f.seen == Met(g, root, d)
    && TokensOf(g, Within(g, root, d)) == f.seen + pending
  }

  lemma LevelZero(g: Graph, root: string)
    ensures AtLevel(g, root, 0, Found({}, {}, {}), TokensOf(g, {root}))
  {
  }

  lemma LevelUp(g: Graph, root: string, d: nat, f: Found, pending: set<string>, f': Found, rows: set<string>)
    requires AtLevel(g, root, d, f, pending)
    requires f'.seen == f.seen + pending && Settled(g, root, f')
    requires rows == (f'.resolved - f.resolved) * g.rows.Keys
    ensures AtLevel(g, root, d + 1, f', TokensOf(g, rows))
  {
    assert {root} + f'.resolved == {root} + Images(g, f'.seen);
    assert (f'.resolved - Within(g, root, d)) * g.rows.Keys == rows;
    LevelDone(g, root, d, f'.resolved, rows);
  }

  lemma SearchDone(g: Graph, root: string, d: nat, k: nat, f: Found, pending: set<string>)
    requires AtLevel(g, root, d, f, pending)
    requires d <= k && (d == k || pending == {})
    ensures f.resolved == Within(g, root, k) - {root} && f.unresolved == Dangling(g, Met(g, root, k))
  {
    EarlyStop(g, root, d, k, f.seen);
    assert root !in f.resolved;
  }

  lemma NoNamesNoTokens(g: Graph, names: set<string>)
    requires names == {}
    ensures TokensOf(g, names) == {}
  {
  }

  lemma ExpandOne(g: Graph, names: seq<string>)
    requires names != [] && names[|names| - 1] in g.rows
    ensures TokensOf(g, Elements(names)) == TokensOf(g, Elements(names[..|names| - 1])) + Elements(g.rows[names[|names| - 1]])
  {
    assert Elements(names) == Elements(names[..|names| - 1]) + {names[|names| - 1]};
  }
}
