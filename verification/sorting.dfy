/**
 * Comparison sorting as Go's `sort.Slice` promises it: the result is a
 * permutation of the input, ordered by a "less" function. `sort.Slice` is
 * not stable, so nothing is promised about the relative order of elements
 * that compare equal; the insertion sort below is one admissible outcome.
 */
module Sorting {

  /**
   * What `sort.Slice` needs of its less function: irreflexive, transitive,
   * and with "not less" transitive too (incomparability is an equivalence).
   */
  ghost predicate StrictWeakOrder<T(!new)>(lt: (T, T) -> bool) {
    && (forall a :: !lt(a, a))
    && (forall a, b, c :: lt(a, b) && lt(b, c) ==> lt(a, c))
    && (forall a, b, c :: !lt(a, b) && !lt(b, c) ==> !lt(a, c))
  }

  /** No element is less than an element before it. */
  predicate SortedBy<T>(s: seq<T>, lt: (T, T) -> bool) {
    forall i, j :: 0 <= i < j < |s| ==> !lt(s[j], s[i])
  }

  /** A head that no later element is less than extends a sorted sequence. */
  lemma ConsSorted<T>(h: T, s: seq<T>, lt: (T, T) -> bool)
    requires SortedBy(s, lt)
    requires forall e :: e in s ==> !lt(e, h)
    ensures SortedBy([h] + s, lt)
  {
    var r := [h] + s;
    forall i, j | 0 <= i < j < |r|
      ensures !lt(r[j], r[i])
    {
      if i > 0 {
        assert r[i] == s[i - 1] && r[j] == s[j - 1];
      } else {
        assert r[j] in s;
      }
    }
  }

  lemma InsertFront<T(!new)>(x: T, s: seq<T>, lt: (T, T) -> bool)
    requires StrictWeakOrder(lt) && SortedBy(s, lt)
    requires |s| > 0 && !lt(s[0], x)
    ensures SortedBy([x] + s, lt)
  {
    forall e | e in s
      ensures !lt(e, x)
    {
      var j :| 0 <= j < |s| && s[j] == e;
      if j > 0 {
        assert !lt(s[j], s[0]);
      }
    }
    ConsSorted(x, s, lt);
  }

  lemma InsertBehind<T(!new)>(x: T, s: seq<T>, tail: seq<T>, lt: (T, T) -> bool)
    requires StrictWeakOrder(lt) && SortedBy(s, lt)
    requires |s| > 0 && lt(s[0], x)
    requires SortedBy(tail, lt) && multiset(tail) == multiset(s[1..]) + multiset{x}
    ensures SortedBy([s[0]] + tail, lt)
  {
    forall e | e in tail
      ensures !lt(e, s[0])
    {
      assert e in multiset(tail);
      if e != x {
        assert e in multiset(s[1..]);
        var j :| 0 <= j < |s[1..]| && s[1..][j] == e;
        assert s[j + 1] == e;
      }
    }
    ConsSorted(s[0], tail, lt);
  }

  /** Insert `x` into the sorted `s` before the first element not less than `x`. */
  function Insert<T(!new)>(x: T, s: seq<T>, lt: (T, T) -> bool): (r: seq<T>)
    requires StrictWeakOrder(lt) && SortedBy(s, lt)
    ensures SortedBy(r, lt)
    ensures multiset(r) == multiset(s) + multiset{x}
    ensures |r| == |s| + 1
  {
    if |s| == 0 then [x]
    else if !lt(s[0], x) then
      InsertFront(x, s, lt);
      [x] + s
    else
      assert s == [s[0]] + s[1..];
      var tail := Insert(x, s[1..], lt);
      InsertBehind(x, s, tail, lt);
      [s[0]] + tail
  }

  /** Insertion sort: a sorted permutation of `s`. */
  function Sort<T(!new)>(s: seq<T>, lt: (T, T) -> bool): (r: seq<T>)
    requires StrictWeakOrder(lt)
    ensures SortedBy(r, lt)
    ensures multiset(r) == multiset(s)
    ensures |r| == |s|
  {
    if |s| == 0 then []
    else
      assert s == [s[0]] + s[1..];
      Insert(s[0], Sort(s[1..], lt), lt)
  }
}
