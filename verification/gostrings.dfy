/**
 * Splitting and joining as Go's `strings.Split`/`bytes.Split` and
 * `strings.Join`/`bytes.Join` do them, generic over the element type so
 * that both strings (sequences of characters) and byte slices share one
 * definition.
 */
module GoStrings {
  import opened Results

  /** `sep` occurs in `s` starting at position `k`. */
  predicate OccursAt<T(==)>(s: seq<T>, sep: seq<T>, k: int) {
    0 <= k && k + |sep| <= |s| && s[k..k + |sep|] == sep
  }

  predicate Contains<T(==)>(s: seq<T>, sep: seq<T>) {
    exists k | 0 <= k <= |s| - |sep| :: OccursAt(s, sep, k)
  }

  lemma OccursShift<T>(s: seq<T>, sep: seq<T>)
    requires |s| > 0
    ensures forall k :: 0 <= k ==> (OccursAt(s[1..], sep, k) <==> OccursAt(s, sep, k + 1))
    ensures forall k :: 1 <= k ==> (OccursAt(s, sep, k) <==> OccursAt(s[1..], sep, k - 1))
  {
    forall k | 0 <= k
      ensures OccursAt(s[1..], sep, k) <==> OccursAt(s, sep, k + 1)
    {
      if 0 <= k && k + |sep| <= |s| - 1 {
        assert s[1..][k..k + |sep|] == s[k + 1..k + 1 + |sep|];
      }
    }
    forall k | 1 <= k
      ensures OccursAt(s, sep, k) <==> OccursAt(s[1..], sep, k - 1)
    {
      if k + |sep| <= |s| {
        assert s[1..][k - 1..k - 1 + |sep|] == s[k..k + |sep|];
      }
    }
  }

  /** strings.Index: the first position at which `sep` occurs in `s`. */
  function Index<T(==)>(s: seq<T>, sep: seq<T>): (r: Option<nat>)
    ensures r.Some? ==> OccursAt(s, sep, r.value)
    ensures r.Some? ==> forall k :: 0 <= k < r.value ==> !OccursAt(s, sep, k)
    ensures r.None? ==> forall k :: !OccursAt(s, sep, k)
    decreases |s|
  {
    if |s| < |sep| then None
    else if s[..|sep|] == sep then Some(0)
    else
      OccursShift(s, sep);
      match Index(s[1..], sep)
      case None => None
      case Some(m) => Some(m + 1)
  }

  /** Go's explode: one piece per element (`strings.Split` with an empty separator). */
  function Explode<T>(s: seq<T>): (r: seq<seq<T>>)
    ensures |r| == |s|
    ensures forall i :: 0 <= i < |r| ==> r[i] == [s[i]]
  {
    seq(|s|, i requires 0 <= i < |s| => [s[i]])
  }

  /**
   * strings.Split(s, sep) with no limit: the pieces of `s` between the
   * successive, non-overlapping, leftmost occurrences of `sep`.
   */
  function Split<T(==)>(s: seq<T>, sep: seq<T>): (r: seq<seq<T>>)
    ensures |sep| > 0 ==> |r| > 0
    decreases |s|
  {
    if |sep| == 0 then Explode(s)
    else
      match Index(s, sep)
      case None => [s]
      case Some(m) =>
        [s[..m]] + Split(s[m + |sep|..], sep)
  }

  /** No piece of a split holds the separator. */
  lemma {:induction false} SplitPiecesLack<T>(s: seq<T>, sep: seq<T>)
    requires |sep| > 0
    ensures forall i :: 0 <= i < |Split(s, sep)| ==> !Contains(Split(s, sep)[i], sep)
    decreases |s|
  {
    match Index(s, sep)
    case None =>
      SplitNone(s, sep);
    case Some(m) =>
      SplitAtFirst(s, sep, m);
      PrefixBeforeFirst(s, sep, m);
      SplitPiecesLack(s[m + |sep|..], sep);
  }

  lemma PrefixBeforeFirst<T>(s: seq<T>, sep: seq<T>, m: nat)
    requires m <= |s| && |sep| > 0
    requires forall k :: 0 <= k < m ==> !OccursAt(s, sep, k)
    ensures !Contains(s[..m], sep)
  {
    forall k | OccursAt(s[..m], sep, k)
      ensures false
    {
      assert s[k..k + |sep|] == s[..m][k..k + |sep|];
      assert OccursAt(s, sep, k);
    }
  }

  /** strings.Join: the pieces with `sep` between consecutive ones. */
  function Join<T>(parts: seq<seq<T>>, sep: seq<T>): seq<T> {
    if |parts| == 0 then []
    else if |parts| == 1 then parts[0]
    else parts[0] + sep + Join(parts[1..], sep)
  }

  /** Concatenation of all pieces. */
  function Concat<T>(parts: seq<seq<T>>): seq<T> {
    if |parts| == 0 then [] else parts[0] + Concat(parts[1..])
  }

  /** Joining the pieces of a split restores the input. */
  lemma {:induction false} JoinSplit<T>(s: seq<T>, sep: seq<T>)
    requires |sep| > 0
    ensures Join(Split(s, sep), sep) == s
    decreases |s|
  {
    match Index(s, sep)
    case None =>
    case Some(m) =>
      var rest := s[m + |sep|..];
      JoinSplit(rest, sep);
      var pieces := Split(s, sep);
      assert pieces == [s[..m]] + Split(rest, sep);
      assert pieces[1..] == Split(rest, sep);
      assert s == s[..m] + sep + rest;
  }

  lemma ContainsSingle<T>(s: seq<T>, c: T)
    ensures Contains(s, [c]) <==> c in s
  {
    if c in s {
      var k :| 0 <= k < |s| && s[k] == c;
      assert s[k..k + 1] == [c];
      assert OccursAt(s, [c], k);
    }
    if Contains(s, [c]) {
      var k :| 0 <= k <= |s| - 1 && OccursAt(s, [c], k);
      assert s[k..k + 1] == [c];
      assert s[k] == c;
    }
  }

  /** No piece of a split on a one-element separator holds that element. */
  lemma SplitSingleLacks<T>(s: seq<T>, c: T)
    ensures forall i :: 0 <= i < |Split(s, [c])| ==> c !in Split(s, [c])[i]
  {
    var pieces := Split(s, [c]);
    SplitPiecesLack(s, [c]);
    forall i | 0 <= i < |pieces|
      ensures c !in pieces[i]
    {
      ContainsSingle(pieces[i], c);
    }
  }

  /** A split yields more than one piece exactly when the separator occurs. */
  lemma SplitCount<T>(s: seq<T>, sep: seq<T>)
    requires |sep| > 0
    ensures |Split(s, sep)| > 1 <==> Contains(s, sep)
  {
    IndexContains(s, sep);
    match Index(s, sep)
    case None =>
      SplitNone(s, sep);
    case Some(m) =>
      SplitAtFirst(s, sep, m);
  }

  /** Index finds an occurrence exactly when there is one. */
  lemma IndexContains<T>(s: seq<T>, sep: seq<T>)
    ensures Index(s, sep).Some? <==> Contains(s, sep)
  {
    if Index(s, sep).Some? {
      assert OccursAt(s, sep, Index(s, sep).value);
    }
  }

  /** Without an occurrence of the separator, the split is the input alone. */
  lemma SplitNone<T>(s: seq<T>, sep: seq<T>)
    requires |sep| > 0 && Index(s, sep).None?
    ensures Split(s, sep) == [s]
  {
  }

  lemma SplitSingleCount<T>(s: seq<T>, c: T)
    ensures |Split(s, [c])| > 1 <==> c in s
  {
    ContainsSingle(s, c);
    if c in s {
      var pieces := Split(s, [c]);
      var m := Index(s, [c]).value;
      assert pieces == [s[..m]] + Split(s[m + 1..], [c]);
    }
  }

  lemma IndexSingleAt<T>(s: seq<T>, c: T, k: nat)
    requires k < |s| && s[k] == c && c !in s[..k]
    ensures Index(s, [c]) == Some(k)
  {
    assert s[k..k + 1] == [c];
    NoOccurrenceBefore(s, c, k);
    FirstOccurrence(s, [c], k, Index(s, [c]));
  }

  lemma NoOccurrenceBefore<T>(s: seq<T>, c: T, k: nat)
    requires k <= |s| && c !in s[..k]
    ensures forall j :: 0 <= j < k ==> !OccursAt(s, [c], j)
  {
    forall j | 0 <= j < k
      ensures !OccursAt(s, [c], j)
    {
      assert s[j] == s[..k][j];
      assert s[j..j + 1] == [s[j]];
    }
  }

  /** A text without `c` has no occurrence of it. */
  lemma IndexAbsent<T>(s: seq<T>, c: T)
    requires c !in s
    ensures Index(s, [c]).None?
  {
    ContainsSingle(s, c);
    IndexContains(s, [c]);
  }

  /** Any answer meeting Index's contract is the first occurrence, when there is one. */
  lemma FirstOccurrence<T>(s: seq<T>, sep: seq<T>, k: nat, r: Option<nat>)
    requires r.Some? ==> OccursAt(s, sep, r.value)
    requires r.Some? ==> forall i :: 0 <= i < r.value ==> !OccursAt(s, sep, i)
    requires r.None? ==> forall i :: !OccursAt(s, sep, i)
    requires OccursAt(s, sep, k) && forall i :: 0 <= i < k ==> !OccursAt(s, sep, i)
    ensures r == Some(k)
  {
  }

  /**
   * With a one-element separator that occurs in none of the pieces,
   * splitting the joined pieces gives them back.
   */
  lemma {:induction false} SplitJoin<T>(parts: seq<seq<T>>, c: T)
    requires |parts| > 0
    requires forall i :: 0 <= i < |parts| ==> c !in parts[i]
    ensures Split(Join(parts, [c]), [c]) == parts
  {
    var head := parts[0];
    IndexAbsent(head, c);
    SplitNone(head, [c]);
    if |parts| > 1 {
      var rest := Join(parts[1..], [c]);
      assert Join(parts, [c]) == head + [c] + rest;
      SplitAroundFirst(head, c, rest);
      SplitJoin(parts[1..], c);
      assert parts == [head] + parts[1..];
    }
  }

  /**
   * Splitting on a one-element separator cuts at every occurrence: a text
   * made of `a`, the separator and `b` splits into the pieces of `a`
   * followed by the pieces of `b`.
   */
  lemma {:induction false} SplitAround<T>(a: seq<T>, c: T, b: seq<T>)
    ensures Split(a + [c] + b, [c]) == Split(a, [c]) + Split(b, [c])
    decreases |a|
  {
    var idx := Index(a, [c]);
    if idx.None? {
      SplitAroundFirst(a, c, b);
    } else {
      var m := idx.value;
      assert m < |a| by {
        SplitAroundLater(a, c, b, m);
      }
      var rest := a[m + 1..];
      assert Split(a + [c] + b, [c]) == [a[..m]] + Split(rest + [c] + b, [c]) by {
        SplitAroundLater(a, c, b, m);
      }
      assert Split(rest + [c] + b, [c]) == Split(rest, [c]) + Split(b, [c]) by {
        SplitAround(rest, c, b);
      }
      assert Split(a, [c]) == [a[..m]] + Split(rest, [c]) by {
        SplitAtFirst(a, [c], m);
      }
      Regroup(Split(a + [c] + b, [c]), Split(rest + [c] + b, [c]), Split(a, [c]), a[..m], Split(rest, [c]), Split(b, [c]));
    }
  }

  lemma Regroup<T>(whole: seq<T>, later: seq<T>, left: seq<T>, x: T, p: seq<T>, q: seq<T>)
    requires whole == [x] + later && later == p + q && left == [x] + p
    ensures whole == left + q
  {
  }

  /** The separator after `a` is its first occurrence when `a` lacks it. */
  lemma SplitAroundFirst<T>(a: seq<T>, c: T, b: seq<T>)
    requires Index(a, [c]).None?
    ensures Split(a + [c] + b, [c]) == Split(a, [c]) + Split(b, [c])
  {
    var s := a + [c] + b;
    assert s[..|a|] == a && s[|a|] == c;
    ContainsSingle(a, c);
    IndexSingleAt(s, c, |a|);
    SplitAtFirst(s, [c], |a|);
    assert s[|a| + 1..] == b;
  }

  /** When `a` holds the separator, the split of the whole text starts with the same first piece as the split of `a`. */
  lemma SplitAroundLater<T>(a: seq<T>, c: T, b: seq<T>, m: nat)
    requires Index(a, [c]) == Some(m)
    ensures m < |a|
    ensures Split(a + [c] + b, [c]) == [a[..m]] + Split(a[m + 1..] + [c] + b, [c])
  {
    IndexSingleFacts(a, c, m);
    var tail := [c] + b;
    var s := a + tail;
    assert a + [c] + b == s;
    ExtendKeepsIndex(a, tail, c, m);
    SplitAtFirst(s, [c], m);
    assert s[..m] == a[..m];
    SliceOfAppend(a, tail, m + 1);
    assert a[m + 1..] + [c] + b == a[m + 1..] + tail;
  }

  lemma SliceOfAppend<T>(a: seq<T>, tail: seq<T>, k: nat)
    requires k <= |a|
    ensures (a + tail)[k..] == a[k..] + tail
  {
  }

  /** The first occurrence of a one-element separator: the element is there and not before. */
  lemma IndexSingleFacts<T>(a: seq<T>, c: T, m: nat)
    requires Index(a, [c]) == Some(m)
    ensures m < |a| && a[m] == c && c !in a[..m]
  {
    assert a[m..m + 1] == [c];
    PrefixBeforeFirst(a, [c], m);
    ContainsSingle(a[..m], c);
  }

  /** Appending to a text keeps its first occurrence of the separator. */
  lemma ExtendKeepsIndex<T>(a: seq<T>, tail: seq<T>, c: T, m: nat)
    requires m < |a| && a[m] == c && c !in a[..m]
    ensures Index(a + tail, [c]) == Some(m)
  {
    var s := a + tail;
    assert s[..m] == a[..m];
    IndexSingleAt(s, c, m);
  }

  /** The pieces that are not empty, in order. */
  function NonEmpty<T>(parts: seq<seq<T>>): (r: seq<seq<T>>)
    ensures forall i :: 0 <= i < |r| ==> |r[i]| > 0
    ensures |r| <= |parts|
  {
    if |parts| == 0 then []
    else if |parts[0]| == 0 then NonEmpty(parts[1..])
    else [parts[0]] + NonEmpty(parts[1..])
  }

  /** Dropping empty pieces commutes with concatenating piece lists. */
  lemma {:induction false} NonEmptyAppend<T>(x: seq<seq<T>>, y: seq<seq<T>>)
    ensures NonEmpty(x + y) == NonEmpty(x) + NonEmpty(y)
    decreases |x|
  {
    if |x| == 0 {
      assert x + y == y;
    } else {
      assert (x + y)[0] == x[0];
      assert (x + y)[1..] == x[1..] + y;
      NonEmptyAppend(x[1..], y);
    }
  }

  /** A list without empty pieces is its own NonEmpty. */
  lemma NonEmptyKeepsAll<T>(parts: seq<seq<T>>)
    requires forall i :: 0 <= i < |parts| ==> |parts[i]| > 0
    ensures NonEmpty(parts) == parts
  {
    if |parts| > 0 {
      NonEmptyKeepsAll(parts[1..]);
    }
  }

  /** `s` without any occurrence of `c`. */
  function Without<T(==)>(s: seq<T>, c: T): (r: seq<T>)
    ensures c !in r
  {
    if |s| == 0 then [] else (if s[0] == c then [] else [s[0]]) + Without(s[1..], c)
  }

  lemma ConcatNonEmpty<T>(parts: seq<seq<T>>)
    ensures Concat(NonEmpty(parts)) == Concat(parts)
  {
  }

  lemma WithoutAppend<T>(a: seq<T>, b: seq<T>, c: T)
    ensures Without(a + b, c) == Without(a, c) + Without(b, c)
  {
    if |a| > 0 {
      assert (a + b)[1..] == a[1..] + b;
      WithoutAppend(a[1..], b, c);
    } else {
      assert a + b == b;
    }
  }

  /** Splitting at the first occurrence of the separator. */
  lemma {:induction false} SplitAtFirst<T>(s: seq<T>, sep: seq<T>, m: nat)
    requires |sep| > 0 && Index(s, sep) == Some(m)
    ensures m + |sep| <= |s|
    ensures Split(s, sep) == [s[..m]] + Split(s[m + |sep|..], sep)
  {
  }

  lemma ConcatCons<T>(x: seq<T>, parts: seq<seq<T>>)
    ensures Concat([x] + parts) == x + Concat(parts)
  {
    assert ([x] + parts)[1..] == parts;
  }

  /**
   * Splitting on a one-element separator loses exactly the separators:
   * the pieces, concatenated, are the input with every separator removed.
   */
  lemma {:induction false} ConcatSplitSingle<T>(s: seq<T>, c: T)
    ensures Concat(Split(s, [c])) == Without(s, c)
    decreases |s|
  {
    var idx := Index(s, [c]);
    if idx.None? {
      SplitNone(s, [c]);
      WithoutAbsent(s, c);
    } else {
      var m := idx.value;
      IndexSingleFacts(s, c, m);
      ConcatSplitSingle(s[m + 1..], c);
      ConcatSplitAt(s, c, m);
      WithoutAt(s, c, m);
    }
  }

  /** The pieces after the first separator concatenate to the rest of the split. */
  lemma ConcatSplitAt<T>(s: seq<T>, c: T, m: nat)
    requires Index(s, [c]) == Some(m)
    ensures m < |s|
    ensures Concat(Split(s, [c])) == s[..m] + Concat(Split(s[m + 1..], [c]))
  {
    IndexSingleFacts(s, c, m);
    SplitAtFirst(s, [c], m);
    ConcatCons(s[..m], Split(s[m + 1..], [c]));
  }

  /** Removing `c` from a text whose first `c` is at `m`. */
  lemma WithoutAt<T>(s: seq<T>, c: T, m: nat)
    requires m < |s| && s[m] == c && c !in s[..m]
    ensures Without(s, c) == s[..m] + Without(s[m + 1..], c)
  {
    var head, rest := s[..m], s[m + 1..];
    assert s == head + ([c] + rest);
    WithoutAbsentIn(head, c);
    WithoutCons(c, rest);
    WithoutAppend(head, [c] + rest, c);
  }

  lemma WithoutCons<T>(c: T, rest: seq<T>)
    ensures Without([c] + rest, c) == Without(rest, c)
  {
    assert ([c] + rest)[1..] == rest;
  }

  lemma WithoutAbsent<T>(s: seq<T>, c: T)
    requires !Contains(s, [c])
    ensures Without(s, c) == s
  {
    ContainsSingle(s, c);
    WithoutAbsentIn(s, c);
  }

  lemma WithoutAbsentIn<T>(s: seq<T>, c: T)
    requires c !in s
    ensures Without(s, c) == s
  {
    if |s| > 0 {
      WithoutAbsentIn(s[1..], c);
    }
  }
}
