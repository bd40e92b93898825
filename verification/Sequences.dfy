/** Small list facts shared by several components. */
module Sequences {

  datatype Option<+T> = None | Some(value: T)

  ghost predicate NoDuplicates<T(!new)>(s: seq<T>) {
    forall i, j | 0 <= i < j < |s| :: s[i] != s[j]
  }

  function Elements<T>(s: seq<T>): set<T> {
    set x | x in s
  }

  /** Position of the first occurrence of x. */
  function FirstIndex<T(==)>(s: seq<T>, x: T): (i: nat)
    requires x in s
    ensures i < |s| && s[i] == x && forall j | 0 <= j < i :: s[j] != x
  {
    if s[0] == x then 0 else FirstIndex(s[1..], x) + 1
  }

  /** `list(dict.fromkeys(s))`: duplicates dropped, first occurrences kept in order. */
  function Dedup<T(==)>(s: seq<T>): seq<T> {
    if s == [] then []
    else
      var d := Dedup(s[..|s| - 1]);
      if s[|s| - 1] in d then d else d + [s[|s| - 1]]
  }

  lemma {:induction false} DedupMeaning<T(!new)>(s: seq<T>)
    ensures forall x :: x in Dedup(s) <==> x in s
    ensures NoDuplicates(Dedup(s))
    ensures forall i, j | 0 <= i < j < |Dedup(s)| :: FirstIndex(s, Dedup(s)[i]) < FirstIndex(s, Dedup(s)[j])
  {
    if s != [] {
      var t, x := s[..|s| - 1], s[|s| - 1];
      DedupMeaning(t);
      assert s == t + [x];
      forall y | y in t ensures FirstIndex(s, y) == FirstIndex(t, y) {
        FirstIndexExtend(t, x, y);
      }
      if x !in t {
        assert FirstIndex(s, x) >= |t| by {
          assert forall i | 0 <= i < |t| :: s[i] == t[i] && t[i] in t;
        }
      }
      hide FirstIndex;
    }
  }

  lemma FirstIndexExtend<T>(t: seq<T>, x: T, y: T)
    requires y in t
    ensures FirstIndex(t + [x], y) == FirstIndex(t, y)
  {
    var i, j := FirstIndex(t, y), FirstIndex(t + [x], y);
    assert (t + [x])[i] == y;
    assert forall k | 0 <= k < i :: (t + [x])[k] == t[k];
  }

  lemma NoDuplicatesSize<T(!new)>(s: seq<T>)
    requires NoDuplicates(s)
    ensures |Elements(s)| == |s|
  {
    if s == [] {
      assert Elements(s) == {};
    } else {
      var t, x := s[..|s| - 1], s[|s| - 1];
      NoDuplicatesSize(t);
      assert Elements(s) == Elements(t) + {x};
      assert x !in Elements(t);
    }
  }
}
