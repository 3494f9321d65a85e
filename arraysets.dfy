/** numpy's set routine on integer id arrays, and the left fold over it that both the
    recommender and the offline evaluation use to pool a group's candidates. */
module ArraySets {
  import opened Sequences
  import opened Sorting

  /** `np.intersect1d(a, b)`: the values occurring in both arrays, sorted, each once. */
  function Intersect1d(a: seq<int>, b: seq<int>): (r: seq<int>)
    ensures forall x :: x in r <==> x in a && x in b
    ensures forall i, j :: 0 <= i < j < |r| ==> r[i] < r[j]
  {
    UniqueSorted(Filter(a, x => x in b))
  }

  /** `x` occurs in every one of the arrays. */
  predicate InEvery(x: int, lists: seq<seq<int>>) {
    forall i :: 0 <= i < |lists| ==> x in lists[i]
  }

  /** The loop inside `functools.reduce`: the accumulator is intersected with each
      remaining array in turn. */
  function IntersectAll(acc: seq<int>, rest: seq<seq<int>>): (r: seq<int>)
    ensures forall x :: x in r <==> x in acc && InEvery(x, rest)
    ensures rest == [] ==> r == acc
    ensures rest != [] ==> forall i, j :: 0 <= i < j < |r| ==> r[i] < r[j]
    decreases |rest|
  {
    if rest == [] then acc
    else
      var r := IntersectAll(Intersect1d(acc, rest[0]), rest[1..]);
      assert forall x :: InEvery(x, rest) <==> x in rest[0] && InEvery(x, rest[1..]) by {
        forall x ensures InEvery(x, rest) <==> x in rest[0] && InEvery(x, rest[1..]) {
          assert forall i :: 0 < i < |rest| ==> rest[i] == rest[1..][i - 1];
        }
      }
      r
  }

  /** `functools.reduce(np.intersect1d, lists)`: a single array comes back as it is
      (neither sorted nor de-duplicated); two or more come back sorted and without
      duplicates. An empty list of arrays raises in the source. */
  function ReduceIntersect(lists: seq<seq<int>>): (r: seq<int>)
    requires |lists| > 0
    ensures forall x :: x in r <==> InEvery(x, lists)
    ensures |lists| == 1 ==> r == lists[0]
    ensures |lists| > 1 ==> forall i, j :: 0 <= i < j < |r| ==> r[i] < r[j]
  {
    var r := IntersectAll(lists[0], lists[1..]);
    assert forall x :: InEvery(x, lists) <==> x in lists[0] && InEvery(x, lists[1..]) by {
      forall x ensures InEvery(x, lists) <==> x in lists[0] && InEvery(x, lists[1..]) {
        assert forall i :: 0 < i < |lists| ==> lists[i] == lists[1..][i - 1];
      }
    }
    r
  }
}
