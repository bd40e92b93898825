/** Python compares `str` values code point by code point, a proper prefix coming first.
    That order decides `latest` in the package index, the order of day files in the audit
    log, the split lists of an import and the purge of revoked tokens. */
module TextOrder {

  predicate Less(a: string, b: string) {
    if b == "" then false
    else if a == "" then true
    else if a[0] != b[0] then a[0] < b[0]
    else Less(a[1..], b[1..])
  }

  lemma {:induction false} Trichotomy(a: string, b: string)
    ensures Less(a, b) || a == b || Less(b, a)
    ensures !(Less(a, b) && Less(b, a))
    ensures a == b ==> !Less(a, b)
  {
    if a != "" && b != "" && a[0] == b[0] {
      Trichotomy(a[1..], b[1..]);
      assert a == [a[0]] + a[1..] && b == [b[0]] + b[1..];
    }
  }

  lemma {:induction false} Transitive(a: string, b: string, c: string)
    requires Less(a, b) && Less(b, c)
    ensures Less(a, c)
  {
    if a != "" && a[0] == b[0] && b[0] == c[0] {
      Transitive(a[1..], b[1..], c[1..]);
    }
  }

  /** A common prefix does not decide the order. */
  lemma {:induction false} PrefixCancels(p: string, a: string, b: string)
    ensures Less(p + a, p + b) == Less(a, b)
  {
    if p == "" {
      assert p + a == a && p + b == b;
    } else {
      PrefixCancels(p[1..], a, b);
      assert (p + a)[1..] == p[1..] + a && (p + b)[1..] == p[1..] + b;
    }
  }

  /** Two different heads of the same length decide the order. */
  lemma {:induction false} HeadDecides(x: string, y: string, a: string, b: string)
    requires |x| == |y| && x != y
    ensures Less(x + a, y + b) == Less(x, y)
  {
    if x != "" {
      assert (x + a)[0] == x[0] && (y + b)[0] == y[0];
      assert (x + a)[1..] == x[1..] + a && (y + b)[1..] == y[1..] + b;
      if x[0] == y[0] {
        assert x == [x[0]] + x[1..] && y == [y[0]] + y[1..];
        HeadDecides(x[1..], y[1..], a, b);
      }
    }
  }

  predicate IsGreatest(m: string, s: set<string>) {
    m in s && forall x | x in s :: x == m || Less(x, m)
  }

  lemma {:induction false} GreatestExists(s: set<string>)
    requires s != {}
    ensures exists m :: IsGreatest(m, s)
  {
    var x :| x in s;
    var rest := s - {x};
    if rest == {} {
      assert s == {x};
      assert IsGreatest(x, s);
    } else {
      GreatestExists(rest);
      var m :| IsGreatest(m, rest);
      Trichotomy(x, m);
      if Less(m, x) {
        forall y | y in s ensures y == x || Less(y, x) {
          if y != x && y != m { Transitive(y, m, x); }
        }
        assert IsGreatest(x, s);
      } else {
        assert IsGreatest(m, s);
      }
    }
  }

  lemma GreatestUnique(s: set<string>)
    ensures forall m, m' :: IsGreatest(m, s) && IsGreatest(m', s) ==> m == m'
  {
    forall m, m' | IsGreatest(m, s) && IsGreatest(m', s) ensures m == m' {
      Trichotomy(m, m');
    }
  }

  /** `sorted(s)[-1]`. */
  function Greatest(s: set<string>): (m: string)
    requires s != {}
    ensures IsGreatest(m, s)
  {
    GreatestExists(s);
    GreatestUnique(s);
    var m :| m in s && IsGreatest(m, s);
    m
  }

  ghost predicate StrictlySorted(s: seq<string>) {
    forall i, j | 0 <= i < j < |s| :: Less(s[i], s[j])
  }

  /** `sorted(s)`. */
  function Sorted(s: set<string>): (r: seq<string>)
    ensures StrictlySorted(r)
    ensures forall x :: x in r <==> x in s
  {
    if s == {} then []
    else
      var m := Greatest(s);
      Sorted(s - {m}) + [m]
  }

  /** A strictly sorted list is determined by its elements. */
  lemma {:induction false} SortedUnique(r: seq<string>, s: set<string>)
    requires StrictlySorted(r) && forall x :: x in r <==> x in s
    ensures r == Sorted(s)
  {
    assert |r| > 0 ==> r[0] in r;
    if s != {} {
      var m := Greatest(s);
      assert m in r;
      var n := |r| - 1;
      assert r[n] in s;
      if r[n] != m {
        var i :| 0 <= i < |r| && r[i] == m;
        assert Less(r[i], r[n]) && Less(r[n], m);
        Trichotomy(m, r[n]);
      }
      forall x ensures x in r[..n] <==> x in s - {m} {
        if x in r[..n] {
          var i :| 0 <= i < n && r[i] == x;
          Trichotomy(x, m);
        }
        if x in s - {m} {
          var i :| 0 <= i < |r| && r[i] == x;
        }
      }
      SortedUnique(r[..n], s - {m});
      assert r == r[..n] + [m];
    }
  }
}
