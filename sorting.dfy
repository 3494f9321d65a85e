/** Sorting as numpy and pandas use it: `np.sort`, `np.unique`, `sort_values`,
    `argsort()[:k]` and the sorted keys of `groupby`. The library sorts are not stable,
    so every contract here states sortedness and permutation only, never the order
    of ties; `Sort` below is one admissible order. */
module Sorting {
  import opened Sequences

  /** `le` is a total preorder: any two values compare, and comparisons chain. */
  ghost predicate TotalPreorder<T(!new)>(le: (T, T) -> bool) {
    && (forall a, b :: le(a, b) || le(b, a))
    && (forall a, b, c :: le(a, b) && le(b, c) ==> le(a, c))
  }

  /** `le` never relates two different values both ways. */
  ghost predicate Antisymmetric<T(!new)>(le: (T, T) -> bool) {
    forall a, b :: le(a, b) && le(b, a) ==> a == b
  }

  predicate SortedBy<T>(s: seq<T>, le: (T, T) -> bool) {
    forall i, j :: 0 <= i < j < |s| ==> le(s[i], s[j])
  }

  /** A subsequence of a sorted sequence is sorted. */
  lemma {:induction false} SubsequenceSorted<T>(a: seq<T>, b: seq<T>, le: (T, T) -> bool)
    requires IsSubsequence(a, b) && SortedBy(b, le)
    ensures SortedBy(a, le)
    decreases |b|
  {
    if a != [] && b != [] {
      if a[0] == b[0] {
        SubsequenceSorted(a[1..], b[1..], le);
        SubsequenceElements(a[1..], b[1..]);
        forall j | 0 < j < |a| ensures le(a[0], a[j]) {
          assert a[j] in a[1..];
          var k :| 0 <= k < |b[1..]| && b[1..][k] == a[j];
          assert b[k + 1] == a[j];
        }
      } else {
        SubsequenceSorted(a, b[1..], le);
      }
    }
  }

  /** An element that comes before every element of a sorted sequence can be put
      in front of it. */
  lemma SortedCons<T>(y: T, s: seq<T>, le: (T, T) -> bool)
    requires SortedBy(s, le) && forall z :: z in s ==> le(y, z)
    ensures SortedBy([y] + s, le)
  {
    var r := [y] + s;
    forall i, j | 0 <= i < j < |r| ensures le(r[i], r[j]) {
      assert r[j] == s[j - 1] && s[j - 1] in s;
      if i > 0 {
        assert r[i] == s[i - 1];
      }
    }
  }

  /** The head of a sorted sequence comes before `x` (when `x` does not come
      before it) and before every later element, so it comes before anything made
      of `x` and the later elements. */
  lemma HeadBeforeRest<T(!new)>(x: T, s: seq<T>, rest: seq<T>, le: (T, T) -> bool)
    requires TotalPreorder(le) && s != [] && SortedBy(s, le) && !le(x, s[0])
    requires multiset(rest) == multiset(s[1..]) + multiset{x}
    ensures forall z :: z in rest ==> le(s[0], z)
  {
    forall z | z in rest ensures le(s[0], z) {
      assert z in multiset(rest);
      if z != x {
        assert z in multiset(s[1..]);
        var j :| 0 <= j < |s[1..]| && s[1..][j] == z;
        assert s[j + 1] == z;
      }
    }
  }

  /** A value in front of a sorted sequence it does not exceed. */
  lemma SortedFront<T(!new)>(x: T, s: seq<T>, le: (T, T) -> bool)
    requires TotalPreorder(le) && SortedBy(s, le) && s != [] && le(x, s[0])
    ensures SortedBy([x] + s, le)
  {
    forall z | z in s ensures le(x, z) {
      var j :| 0 <= j < |s| && s[j] == z;
      if j > 0 {
        assert le(s[0], s[j]);
      }
    }
    SortedCons(x, s, le);
  }

  function Insert<T(!new)>(x: T, s: seq<T>, le: (T, T) -> bool): (r: seq<T>)
    requires TotalPreorder(le) && SortedBy(s, le)
    ensures multiset(r) == multiset(s) + multiset{x}
    ensures SortedBy(r, le)
  {
    if s == [] then [x]
    else if le(x, s[0]) then
      SortedFront(x, s, le);
      [x] + s
    else
      assert s == [s[0]] + s[1..];
      var rest := Insert(x, s[1..], le);
      HeadBeforeRest(x, s, rest, le);
      SortedCons(s[0], rest, le);
      [s[0]] + rest
  }

  /** Insertion sort: a sorted permutation of `s`. */
  function Sort<T(!new)>(s: seq<T>, le: (T, T) -> bool): (r: seq<T>)
    requires TotalPreorder(le)
    ensures SortedBy(r, le)
    ensures multiset(r) == multiset(s)
    ensures |r| == |s|
  {
    if s == [] then []
    else
      assert s == [s[0]] + s[1..];
      var r := Insert(s[0], Sort(s[1..], le), le);
      assert |r| == |multiset(r)|;
      r
  }

  /** `np.unique` / `np.sort(s.unique())`: the distinct elements of `s`, sorted. */
  function SortUnique<T(==,!new)>(s: seq<T>, le: (T, T) -> bool): (r: seq<T>)
    requires TotalPreorder(le)
    ensures SortedBy(r, le) && Distinct(r)
    ensures forall x :: x in r <==> x in s
  {
    var d := Dedup(s);
    var r := Sort(d, le);
    DistinctOccursOnce(d);
    OccursOnceDistinct(r);
    assert forall x :: x in r <==> x in multiset(d);
    r
  }

  predicate IntLe(a: int, b: int) {
    a <= b
  }

  lemma IntLeIsTotalPreorder()
    ensures TotalPreorder(IntLe)
  {
  }

  /** The distinct integers of `s` in strictly increasing order (`np.unique`, and the
      keys of a `groupby`). */
  function UniqueSorted(s: seq<int>): (r: seq<int>)
    ensures forall i, j :: 0 <= i < j < |r| ==> r[i] < r[j]
    ensures forall x :: x in r <==> x in s
  {
    IntLeIsTotalPreorder();
    SortUnique(s, IntLe)
  }

  /** Orders values by a real-valued key, smallest first. */
  function Ascending<T>(key: T -> real): (T, T) -> bool {
    (a: T, b: T) => key(a) <= key(b)
  }

  /** Orders values by a real-valued key, largest first. */
  function Descending<T>(key: T -> real): (T, T) -> bool {
    (a: T, b: T) => key(a) >= key(b)
  }

  lemma AscendingIsTotalPreorder<T(!new)>(key: T -> real)
    ensures TotalPreorder(Ascending(key))
  {
  }

  lemma DescendingIsTotalPreorder<T(!new)>(key: T -> real)
    ensures TotalPreorder(Descending(key))
  {
  }

  function Min(a: int, b: int): int {
    if a <= b then a else b
  }

  /** A prefix of a sorted sequence is part of it, and comes before everything
      outside it. */
  lemma SortedPrefix<T>(s: seq<T>, le: (T, T) -> bool, n: nat)
    requires n <= |s| && SortedBy(s, le)
    ensures multiset(s[..n]) <= multiset(s)
    ensures forall x, y :: x in s && x !in s[..n] && y in s[..n] ==> le(y, x)
  {
    assert s == s[..n] + s[n..];
    assert multiset(s) == multiset(s[..n]) + multiset(s[n..]);
    forall x, y | x in s && x !in s[..n] && y in s[..n] ensures le(y, x) {
      var i :| 0 <= i < |s| && s[i] == x;
      var j :| 0 <= j < n && s[..n][j] == y;
      assert i >= n;
      assert le(s[j], s[i]);
    }
  }

  /** The first `k` items when sorted by the total preorder `le`. */
  function TopWith<T(!new)>(items: seq<T>, le: (T, T) -> bool, k: nat): (r: seq<T>)
    requires TotalPreorder(le)
    ensures |r| == Min(k, |items|)
    ensures multiset(r) <= multiset(items)
    ensures forall i :: 0 <= i < |r| ==> r[i] in items
    ensures forall i, j :: 0 <= i < j < |r| ==> le(r[i], r[j])
    ensures forall x, y :: x in items && x !in r && y in r ==> le(y, x)
  {
    var s := Sort(items, le);
    var n := Min(k, |items|);
    SortedPrefix(s, le, n);
    assert forall x :: x in items <==> x in s by {
      assert forall x :: x in items <==> x in multiset(s);
    }
    var r := s[..n];
    assert forall i :: 0 <= i < |r| ==> r[i] in items by {
      forall i | 0 <= i < |r| ensures r[i] in items {
        assert r[i] in multiset(r);
      }
    }
    r
  }

  /** `items[argsort(keys)][:k]`: the first `k` items when ordered by increasing key. */
  function TopBy<T(!new)>(items: seq<T>, key: T -> real, k: nat): (r: seq<T>)
    ensures |r| == Min(k, |items|)
    ensures multiset(r) <= multiset(items)
    ensures forall i :: 0 <= i < |r| ==> r[i] in items
    ensures forall i, j :: 0 <= i < j < |r| ==> key(r[i]) <= key(r[j])
    ensures forall x, y :: x in items && x !in r && y in r ==> key(y) <= key(x)
  {
    AscendingIsTotalPreorder(key);
    var r := TopWith(items, Ascending(key), k);
    AscendingTop(items, key, r);
    r
  }

  /** `items[argsort(-scores)][:k]`: the `k` items with the highest score, highest
      first. */
  function TopByDescending<T(!new)>(items: seq<T>, score: T -> real, k: nat): (r: seq<T>)
    ensures |r| == Min(k, |items|)
    ensures multiset(r) <= multiset(items)
    ensures forall i :: 0 <= i < |r| ==> r[i] in items
    ensures forall i, j :: 0 <= i < j < |r| ==> score(r[i]) >= score(r[j])
    ensures forall x, y :: x in items && x !in r && y in r ==> score(y) >= score(x)
  {
    DescendingIsTotalPreorder(score);
    var r := TopWith(items, Descending(score), k);
    DescendingTop(items, score, r);
    r
  }

  /** The order facts of `TopWith` under `Ascending(key)`, in terms of the key. */
  lemma AscendingTop<T>(items: seq<T>, key: T -> real, r: seq<T>)
    requires forall i, j :: 0 <= i < j < |r| ==> Ascending(key)(r[i], r[j])
    requires forall x, y :: x in items && x !in r && y in r ==> Ascending(key)(y, x)
    ensures forall i, j :: 0 <= i < j < |r| ==> key(r[i]) <= key(r[j])
    ensures forall x, y :: x in items && x !in r && y in r ==> key(y) <= key(x)
  {
  }

  /** The order facts of `TopWith` under `Descending(score)`, in terms of the score. */
  lemma DescendingTop<T>(items: seq<T>, score: T -> real, r: seq<T>)
    requires forall i, j :: 0 <= i < j < |r| ==> Descending(score)(r[i], r[j])
    requires forall x, y :: x in items && x !in r && y in r ==> Descending(score)(y, x)
    ensures forall i, j :: 0 <= i < j < |r| ==> score(r[i]) >= score(r[j])
    ensures forall x, y :: x in items && x !in r && y in r ==> score(y) >= score(x)
  {
  }

  /** Code-point lexicographic order on strings, as Python and `np.sort` compare them:
      a proper prefix comes first. */
  predicate LexLe(a: string, b: string)
    decreases |a|
  {
    if a == [] then true
    else if b == [] then false
    else if a[0] != b[0] then a[0] < b[0]
    else LexLe(a[1..], b[1..])
  }

  lemma {:induction false} LexLeTotal(a: string, b: string)
    ensures LexLe(a, b) || LexLe(b, a)
    decreases |a|
  {
    if a != [] && b != [] && a[0] == b[0] {
      LexLeTotal(a[1..], b[1..]);
    }
  }

  lemma {:induction false} LexLeTransitive(a: string, b: string, c: string)
    requires LexLe(a, b) && LexLe(b, c)
    ensures LexLe(a, c)
    decreases |a|
  {
    if a != [] && b != [] && c != [] && a[0] == b[0] && b[0] == c[0] {
      LexLeTransitive(a[1..], b[1..], c[1..]);
    }
  }

  lemma {:induction false} LexLeAntisymmetric(a: string, b: string)
    requires LexLe(a, b) && LexLe(b, a)
    ensures a == b
    decreases |a|
  {
    if a != [] && b != [] {
      LexLeAntisymmetric(a[1..], b[1..]);
      assert a == [a[0]] + a[1..] && b == [b[0]] + b[1..];
    }
  }

  lemma LexLeIsTotalOrder()
    ensures TotalPreorder(LexLe) && Antisymmetric(LexLe)
  {
    forall a, b ensures LexLe(a, b) || LexLe(b, a) {
      LexLeTotal(a, b);
    }
    forall a, b, c | LexLe(a, b) && LexLe(b, c) ensures LexLe(a, c) {
      LexLeTransitive(a, b, c);
    }
    forall a, b | LexLe(a, b) && LexLe(b, a) ensures a == b {
      LexLeAntisymmetric(a, b);
    }
  }
}
