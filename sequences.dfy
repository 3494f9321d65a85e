/** Order-preserving selection, de-duplication and the subsequence relation: the
    boolean-mask indexing (`s[mask]`, `isin`) and `unique()` that every part of the
    system is built from. */
module Sequences {

  /** `a` can be obtained from `b` by deleting elements (relative order kept). */
  predicate IsSubsequence<T(==)>(a: seq<T>, b: seq<T>)
    decreases |b|
  {
    if a == [] then true
    else if b == [] then false
    else if a[0] == b[0] then IsSubsequence(a[1..], b[1..])
    else IsSubsequence(a, b[1..])
  }

  /** No element occurs twice. */
  predicate Distinct<T(==)>(s: seq<T>) {
    forall i, j :: 0 <= i < j < |s| ==> s[i] != s[j]
  }

  /** The set of elements of a sequence. */
  function Elements<T>(s: seq<T>): set<T> {
    set x | x in s
  }

  /** Boolean-mask selection: the elements of `s` satisfying `p`, in their original order. */
  function Filter<T(==,!new)>(s: seq<T>, p: T -> bool): (r: seq<T>)
    ensures |r| <= |s|
    ensures forall x :: x in r <==> x in s && p(x)
    ensures forall x :: multiset(r)[x] == if p(x) then multiset(s)[x] else 0
    ensures IsSubsequence(r, s)
  {
    if s == [] then []
    else
      var rest := Filter(s[1..], p);
      assert s == [s[0]] + s[1..];
      if p(s[0]) then [s[0]] + rest
      else
        SubsequenceOfTail(rest, s);
        rest
  }

  lemma {:induction false} SubsequenceDropHead<T>(a: seq<T>, b: seq<T>)
    requires a != [] && IsSubsequence(a, b)
    ensures IsSubsequence(a[1..], b)
    decreases |a| + |b|
  {
    if a[0] == b[0] {
      SubsequenceOfTail(a[1..], b);
    } else {
      SubsequenceDropHead(a, b[1..]);
      SubsequenceOfTail(a[1..], b);
    }
  }

  /** A subsequence of the tail of `b` is a subsequence of `b`. */
  lemma {:induction false} SubsequenceOfTail<T>(a: seq<T>, b: seq<T>)
    requires b != [] && IsSubsequence(a, b[1..])
    ensures IsSubsequence(a, b)
    decreases |a| + |b|
  {
    if a != [] && a[0] == b[0] {
      SubsequenceDropHead(a, b[1..]);
    }
  }

  /** Every element of a subsequence of `b` is an element of `b`. */
  lemma {:induction false} SubsequenceElements<T>(a: seq<T>, b: seq<T>)
    requires IsSubsequence(a, b)
    ensures forall x :: x in a ==> x in b
    decreases |b|
  {
    if a != [] && b != [] {
      if a[0] == b[0] {
        SubsequenceElements(a[1..], b[1..]);
        forall x | x in a ensures x in b {
          if x != a[0] { assert x in a[1..]; }
        }
      } else {
        SubsequenceElements(a, b[1..]);
      }
    }
  }

  /** `x` occurs in `s` before the first occurrence of `y`. */
  predicate OccursBefore<T(==)>(s: seq<T>, x: T, y: T) {
    exists a :: 0 <= a < |s| && s[a] == x && y !in s[..a]
  }

  /** Stable de-duplication (`unique()`, `drop_duplicates()`): the first occurrence of
      every element is kept, so the elements come in the order of their first
      occurrences. */
  function Dedup<T(==,!new)>(s: seq<T>): (r: seq<T>)
    ensures Distinct(r)
    ensures forall x :: x in r <==> x in s
    ensures |r| <= |s|
    ensures forall i, j :: 0 <= i < j < |r| ==> OccursBefore(s, r[i], r[j])
  {
    if s == [] then []
    else
      var init, last := s[..|s| - 1], s[|s| - 1];
      var d := Dedup(init);
      assert s == init + [last];
      assert forall x :: x in s <==> x in init || x == last;
      var r := if last in d then d else d + [last];
      forall i, j | 0 <= i < j < |r| ensures OccursBefore(s, r[i], r[j]) {
        if j < |d| {
          OccursBeforeSnoc(init, d[i], d[j], last);
        } else {
          OccursBeforeLast(init, d[i], last);
        }
      }
      r
  }

  /** Appending an element keeps an earlier first occurrence earlier. */
  lemma OccursBeforeSnoc<T>(s: seq<T>, x: T, y: T, z: T)
    requires OccursBefore(s, x, y)
    ensures OccursBefore(s + [z], x, y)
  {
    var a :| 0 <= a < |s| && s[a] == x && y !in s[..a];
    assert (s + [z])[..a] == s[..a];
    assert (s + [z])[a] == x;
  }

  /** An element of `s` occurs before a new element appended to it. */
  lemma OccursBeforeLast<T>(s: seq<T>, x: T, z: T)
    requires x in s && z !in s
    ensures OccursBefore(s + [z], x, z)
  {
    var a :| 0 <= a < |s| && s[a] == x;
    assert (s + [z])[..a] == s[..a];
    assert (s + [z])[a] == x;
  }

  /** In a sequence without duplicates every element occurs once. */
  lemma {:induction false} DistinctOccursOnce<T>(s: seq<T>)
    requires Distinct(s)
    ensures forall x :: multiset(s)[x] <= 1
  {
    if s != [] {
      var init := s[..|s| - 1];
      DistinctOccursOnce(init);
      assert s == init + [s[|s| - 1]];
      assert s[|s| - 1] !in init;
    }
  }

  /** A sequence in which every element occurs at most once has no duplicates. */
  lemma OccursOnceDistinct<T>(s: seq<T>)
    requires forall x :: multiset(s)[x] <= 1
    ensures Distinct(s)
  {
    forall i, j | 0 <= i < j < |s| ensures s[i] != s[j] {
      var x := s[i];
      assert s == s[..i] + [s[i]] + s[i + 1..j] + [s[j]] + s[j + 1..];
      assert multiset(s)[x] == multiset(s[..i])[x] + 1 + multiset(s[i + 1..j])[x]
        + (if s[j] == x then 1 else 0) + multiset(s[j + 1..])[x];
    }
  }

  /** The elements of a sequence without duplicates are as many as its positions. */
  lemma {:induction false} DistinctCardinality<T>(s: seq<T>)
    requires Distinct(s)
    ensures |Elements(s)| == |s|
  {
    if s != [] {
      var init := s[..|s| - 1];
      DistinctCardinality(init);
      assert Elements(s) == Elements(init) + {s[|s| - 1]} by {
        assert s == init + [s[|s| - 1]];
      }
      assert s[|s| - 1] !in Elements(init);
    }
  }

  /** A sequence has at least as many positions as distinct elements. */
  lemma {:induction false} ElementsCardinality<T>(s: seq<T>)
    ensures |Elements(s)| <= |s|
  {
    if s != [] {
      var init := s[..|s| - 1];
      ElementsCardinality(init);
      assert Elements(s) == Elements(init) + {s[|s| - 1]} by {
        assert s == init + [s[|s| - 1]];
      }
    }
  }

  /** A subset has at most as many elements as its superset. */
  lemma SubsetCardinality<T>(a: set<T>, b: set<T>)
    requires a <= b
    ensures |a| <= |b|
  {
    assert b == a + (b - a);
  }

  /** Filtering twice is filtering once by the conjunction. */
  lemma {:induction false} FilterFilter<T(!new)>(s: seq<T>, p: T -> bool, q: T -> bool, pq: T -> bool)
    requires forall x :: pq(x) == (p(x) && q(x))
    ensures Filter(Filter(s, p), q) == Filter(s, pq)
  {
    if s != [] {
      FilterFilter(s[1..], p, q, pq);
    }
  }

  /** `f` applied to every element (a column computed row by row). */
  function MapSeq<T, U>(s: seq<T>, f: T -> U): (r: seq<U>)
    ensures |r| == |s|
    ensures forall k :: 0 <= k < |s| ==> r[k] == f(s[k])
  {
    seq(|s|, k requires 0 <= k < |s| => f(s[k]))
  }

  /** `s` without position `i`. */
  function Delete<T>(s: seq<T>, i: int): (r: seq<T>)
    requires 0 <= i < |s|
    ensures |r| == |s| - 1
  {
    s[..i] + s[i + 1..]
  }

  /** Deleting position `i` removes one occurrence of its element. */
  lemma MultisetRemove<T>(s: seq<T>, i: int)
    requires 0 <= i < |s|
    ensures multiset(Delete(s, i)) == multiset(s) - multiset{s[i]}
  {
    assert s == s[..i] + [s[i]] + s[i + 1..];
  }

  /** Deleting a position commutes with `MapSeq`. */
  lemma MapSeqDelete<T, U>(s: seq<T>, i: int, f: T -> U)
    requires 0 <= i < |s|
    ensures MapSeq(Delete(s, i), f) == Delete(MapSeq(s, f), i)
  {
    var l, r := MapSeq(Delete(s, i), f), Delete(MapSeq(s, f), i);
    forall k | 0 <= k < |l| ensures l[k] == r[k] {
      if k < i {
        assert Delete(s, i)[k] == s[k];
      } else {
        assert Delete(s, i)[k] == s[k + 1];
      }
    }
  }

  /** Applying `f` to two permutations of each other gives two permutations of each
      other. */
  lemma {:induction false} MapSeqPermutation<T, U>(a: seq<T>, b: seq<T>, f: T -> U)
    requires multiset(a) == multiset(b)
    ensures multiset(MapSeq(a, f)) == multiset(MapSeq(b, f))
    decreases |a|
  {
    if a == [] {
      assert |b| == |multiset(b)| == 0;
    } else {
      var x := a[0];
      assert x in multiset(b);
      var i :| 0 <= i < |b| && b[i] == x;
      MultisetRemove(a, 0);
      MultisetRemove(b, i);
      MapSeqPermutation(Delete(a, 0), Delete(b, i), f);
      MapSeqDelete(a, 0, f);
      MapSeqDelete(b, i, f);
      var ma, mb := MapSeq(a, f), MapSeq(b, f);
      MultisetRemove(ma, 0);
      MultisetRemove(mb, i);
      var A, B := multiset(ma), multiset(mb);
      assert A - multiset{f(x)} == B - multiset{f(x)};
      assert f(x) in A && f(x) in B by {
        assert ma[0] == f(x) == mb[i];
      }
      RemoveAddBack(A, f(x));
      RemoveAddBack(B, f(x));
    }
  }

  /** Applying `f` to a sub-multiset gives a sub-multiset. */
  lemma {:induction false} MapSeqSubMultiset<T, U>(a: seq<T>, b: seq<T>, f: T -> U)
    requires multiset(a) <= multiset(b)
    ensures multiset(MapSeq(a, f)) <= multiset(MapSeq(b, f))
    decreases |a|
  {
    if a != [] {
      var x := a[0];
      assert x in multiset(b);
      var i :| 0 <= i < |b| && b[i] == x;
      MultisetRemove(a, 0);
      MultisetRemove(b, i);
      MapSeqSubMultiset(Delete(a, 0), Delete(b, i), f);
      MapSeqDelete(a, 0, f);
      MapSeqDelete(b, i, f);
      var ma, mb := MapSeq(a, f), MapSeq(b, f);
      MultisetRemove(ma, 0);
      MultisetRemove(mb, i);
      assert ma[0] == f(x) == mb[i];
      SubMultisetAddBack(multiset(ma), multiset(mb), f(x));
    }
  }

  /** Two multisets that both hold `v` and are ordered once one `v` is removed from
      each are ordered. */
  lemma SubMultisetAddBack<T>(A: multiset<T>, B: multiset<T>, v: T)
    requires v in A && v in B && A - multiset{v} <= B - multiset{v}
    ensures A <= B
  {
    assert forall y :: A[y] <= B[y] by {
      forall y ensures A[y] <= B[y] {
        assert (A - multiset{v})[y] <= (B - multiset{v})[y];
      }
    }
  }

  /** Filtering two permutations of each other gives two permutations of each other. */
  lemma FilterPermutation<T(!new)>(a: seq<T>, b: seq<T>, p: T -> bool)
    requires multiset(a) == multiset(b)
    ensures multiset(Filter(a, p)) == multiset(Filter(b, p))
  {
    assert forall x :: multiset(Filter(a, p))[x] == multiset(Filter(b, p))[x];
  }

  /** Removing an occurrence of an element and adding it back changes nothing. */
  lemma RemoveAddBack<T>(A: multiset<T>, v: T)
    requires v in A
    ensures (A - multiset{v}) + multiset{v} == A
  {
    assert forall y :: ((A - multiset{v}) + multiset{v})[y] == A[y];
  }
}
