/** Offline evaluation of group recommendations (evaluation.py): pooling each group's
    candidates, asking the recommender for every group, and scoring the lists by
    mean average precision and NDCG per grouping. The recommender itself and the
    NDCG arithmetic are parameters. */
module Evaluation {
  import opened Wrappers
  import opened Sequences
  import opened Sorting
  import opened ArraySets

  /** One row of the recommender data: a test user with a label per grouping column,
      their test history (`movieId`, `rating`), the unwatched list computed from
      training data, and one recommended list per grouping already evaluated (the
      `{group}_rec` columns, keyed here by the grouping column's name). */
  datatype UserRecord = UserRecord(
    userId: int,
    labels: map<string, int>,
    movieIds: seq<int>,
    ratings: seq<real>,
    unwatched: seq<int>,
    recs: map<string, seq<int>>)

  /** The row belongs to group `key` of grouping `g`. */
  predicate InGroup(r: UserRecord, g: string, key: int) {
    g in r.labels && r.labels[g] == key
  }

  /** Every row has a label for every grouping in `groups`. */
  predicate Labelled(data: seq<UserRecord>, groups: seq<string>) {
    forall r, g :: r in data && g in groups ==> g in r.labels
  }

  /** The row without its recommendation columns. */
  function Base(r: UserRecord): UserRecord {
    r.(recs := map[])
  }

  /** `agg({'userId': list})` for one group: its members in row order. */
  function MemberIds(data: seq<UserRecord>, g: string, key: int): seq<int> {
    if data == [] then []
    else (if InGroup(data[0], g, key) then [data[0].userId] else []) + MemberIds(data[1..], g, key)
  }

  /** The members' `unwatched` arrays, in row order. */
  function MemberLists(data: seq<UserRecord>, g: string, key: int): seq<seq<int>> {
    if data == [] then []
    else (if InGroup(data[0], g, key) then [data[0].unwatched] else []) + MemberLists(data[1..], g, key)
  }

  /** The member list of a group holds exactly the ids of the rows labelled with it. */
  lemma {:induction false} MemberIdsSpec(data: seq<UserRecord>, g: string, key: int)
    ensures forall u :: u in MemberIds(data, g, key) <==>
      exists r :: r in data && InGroup(r, g, key) && r.userId == u
  {
    if data != [] {
      MemberIdsSpec(data[1..], g, key);
      assert forall r :: r in data <==> r == data[0] || r in data[1..] by {
        assert data == [data[0]] + data[1..];
      }
    }
  }

  /** The arrays pooled for a group are exactly the unwatched arrays of its rows. */
  lemma {:induction false} MemberListsSpec(data: seq<UserRecord>, g: string, key: int)
    ensures forall l :: l in MemberLists(data, g, key) <==>
      exists r :: r in data && InGroup(r, g, key) && r.unwatched == l
  {
    if data != [] {
      MemberListsSpec(data[1..], g, key);
      assert forall r :: r in data <==> r == data[0] || r in data[1..] by {
        assert data == [data[0]] + data[1..];
      }
    }
  }

  /** The groups of grouping `g` only depend on the rows without their
      recommendation columns. */
  lemma {:induction false} MembersIgnoreRecs(a: seq<UserRecord>, b: seq<UserRecord>, g: string, key: int)
    requires |a| == |b| && forall k :: 0 <= k < |a| ==> Base(a[k]) == Base(b[k])
    ensures MemberIds(a, g, key) == MemberIds(b, g, key)
    ensures MemberLists(a, g, key) == MemberLists(b, g, key)
  {
    if a != [] {
      assert a[0].labels == Base(a[0]).labels == Base(b[0]).labels == b[0].labels;
      assert a[0].userId == b[0].userId && a[0].unwatched == b[0].unwatched;
      MembersIgnoreRecs(a[1..], b[1..], g, key);
    }
  }

  /** `reduce(np.intersect1d, x)` over the members' unwatched arrays: the group's
      candidate pool. Every group has a member, since its key is some row's label. */
  function GroupPool(data: seq<UserRecord>, g: string, key: int): seq<int> {
    var lists := MemberLists(data, g, key);
    if lists == [] then [] else ReduceIntersect(lists)
  }

  /** A group's pool holds exactly the ids in every member's unwatched array. */
  lemma GroupPoolSpec(data: seq<UserRecord>, g: string, key: int)
    requires exists r :: r in data && InGroup(r, g, key)
    ensures forall x :: x in GroupPool(data, g, key) <==>
      forall r :: r in data && InGroup(r, g, key) ==> x in r.unwatched
  {
    var lists := MemberLists(data, g, key);
    MemberListsSpec(data, g, key);
    var r0 :| r0 in data && InGroup(r0, g, key);
    assert r0.unwatched in lists;
    var pool := ReduceIntersect(lists);
    forall x ensures x in pool <==> forall r :: r in data && InGroup(r, g, key) ==> x in r.unwatched {
      if x in pool {
        forall r | r in data && InGroup(r, g, key) ensures x in r.unwatched {
          assert r.unwatched in lists;
          var k :| 0 <= k < |lists| && lists[k] == r.unwatched;
        }
      } else {
        var k :| 0 <= k < |lists| && x !in lists[k];
        assert lists[k] in lists;
      }
    }
  }

  /** The keys of `groupby(by=g)`: every label of grouping `g`, in increasing order. */
  function GroupKeys(data: seq<UserRecord>, g: string): (keys: seq<int>)
    requires forall r :: r in data ==> g in r.labels
    ensures forall key :: key in keys <==> exists r :: r in data && InGroup(r, g, key)
  {
    var column := seq(|data|, k requires 0 <= k < |data| => data[k].labels[g]);
    var keys := UniqueSorted(column);
    assert forall key :: key in column <==> exists r :: r in data && InGroup(r, g, key) by {
      forall key ensures key in column <==> exists r :: r in data && InGroup(r, g, key) {
        if key in column {
          var k :| 0 <= k < |column| && column[k] == key;
          assert data[k] in data;
        } else {
          forall r | r in data ensures !InGroup(r, g, key) {
            var k :| 0 <= k < |data| && data[k] == r;
            assert column[k] == r.labels[g];
          }
        }
      }
    }
    keys
  }

  /** The recommendation `make_recommendations` gives group `key` of grouping `g`,
      from the group's key, its members and its pool. */
  function GroupRec(makeRec: (int, seq<int>, seq<int>) -> seq<int>, data: seq<UserRecord>,
                    g: string, key: int): seq<int>
  {
    makeRec(key, MemberIds(data, g, key), GroupPool(data, g, key))
  }

  /** The recommendation columns of row `r` after the groupings `groups` have each
      been merged in, in order; a repeated grouping overwrites its column. */
  function RecsFor(makeRec: (int, seq<int>, seq<int>) -> seq<int>, data: seq<UserRecord>,
                   r: UserRecord, groups: seq<string>): (recs: map<string, seq<int>>)
    decreases |groups|
  {
    if groups == [] then r.recs
    else
      var g := groups[|groups| - 1];
      var before := RecsFor(makeRec, data, r, groups[..|groups| - 1]);
      if g in r.labels then before[g := GroupRec(makeRec, data, g, r.labels[g])] else before
  }

  /** After the merges row `r` carries, for every grouping, its own group's
      recommendation, and its other columns as they were. */
  lemma {:induction false} RecsForGroups(makeRec: (int, seq<int>, seq<int>) -> seq<int>,
                                         data: seq<UserRecord>, r: UserRecord, groups: seq<string>)
    requires forall g :: g in groups ==> g in r.labels
    ensures RecsFor(makeRec, data, r, groups).Keys == r.recs.Keys + set g | g in groups
    ensures forall g :: g in groups ==>
      RecsFor(makeRec, data, r, groups)[g] == GroupRec(makeRec, data, g, r.labels[g])
    ensures forall c :: c in r.recs && c !in groups ==> RecsFor(makeRec, data, r, groups)[c] == r.recs[c]
    decreases |groups|
  {
    if groups != [] {
      var init := groups[..|groups| - 1];
      assert groups == init + [groups[|groups| - 1]];
      RecsForGroups(makeRec, data, r, init);
    }
  }

  /** One iteration of `generate_recommendations`: the `group_unwatched` table of
      grouping `g` (one recommendation per key), merged back into every row. */
  function MergeGrouping(makeRec: (int, seq<int>, seq<int>) -> seq<int>, rows: seq<UserRecord>,
                         g: string): (merged: seq<UserRecord>)
    requires forall r :: r in rows ==> g in r.labels
    ensures |merged| == |rows|
    ensures forall k :: 0 <= k < |rows| ==>
      merged[k] == rows[k].(recs := rows[k].recs[g := GroupRec(makeRec, rows, g, rows[k].labels[g])])
  {
    var keys := GroupKeys(rows, g);
    var recOf := map key | key in keys :: GroupRec(makeRec, rows, g, key);
    assert forall k :: 0 <= k < |rows| ==> rows[k].labels[g] in recOf by {
      forall k | 0 <= k < |rows| ensures rows[k].labels[g] in recOf {
        assert rows[k] in rows;
      }
    }
    seq(|rows|, k requires 0 <= k < |rows| => rows[k].(recs := rows[k].recs[g := recOf[rows[k].labels[g]]]))
  }

  /** A group's recommendation does not depend on the recommendation columns. */
  lemma GroupRecIgnoresRecs(makeRec: (int, seq<int>, seq<int>) -> seq<int>,
                            a: seq<UserRecord>, b: seq<UserRecord>, g: string, key: int)
    requires |a| == |b| && forall k :: 0 <= k < |a| ==> Base(a[k]) == Base(b[k])
    ensures GroupRec(makeRec, a, g, key) == GroupRec(makeRec, b, g, key)
  {
    MembersIgnoreRecs(a, b, g, key);
  }

  /** Recommendation columns after the groupings `prefix + [g]`. */
  lemma RecsForSnoc(makeRec: (int, seq<int>, seq<int>) -> seq<int>, data: seq<UserRecord>,
                    r: UserRecord, prefix: seq<string>, g: string)
    requires g in r.labels
    ensures RecsFor(makeRec, data, r, prefix + [g]) ==
      RecsFor(makeRec, data, r, prefix)[g := GroupRec(makeRec, data, g, r.labels[g])]
  {
    var s := prefix + [g];
    assert s[..|s| - 1] == prefix;
  }

  /** One row of a merge: the row gains its group's recommendation for `g`. */
  lemma MergeGroupingRow(makeRec: (int, seq<int>, seq<int>) -> seq<int>, data: seq<UserRecord>,
                         rows: seq<UserRecord>, prefix: seq<string>, g: string, k: nat)
    requires k < |data| == |rows|
    requires forall j :: 0 <= j < |data| ==> Base(rows[j]) == Base(data[j])
    requires forall r :: r in rows ==> g in r.labels
    requires rows[k] == data[k].(recs := RecsFor(makeRec, data, data[k], prefix))
    ensures MergeGrouping(makeRec, rows, g)[k] == data[k].(recs := RecsFor(makeRec, data, data[k], prefix + [g]))
  {
    assert rows[k] in rows;
    RecsForSnoc(makeRec, data, data[k], prefix, g);
    GroupRecIgnoresRecs(makeRec, rows, data, g, data[k].labels[g]);
  }

  /** Merging one more grouping extends every row's recommendation columns by it. */
  lemma MergeGroupingStep(makeRec: (int, seq<int>, seq<int>) -> seq<int>, data: seq<UserRecord>,
                          rows: seq<UserRecord>, groups: seq<string>, i: nat)
    requires i < |groups| && |rows| == |data|
    requires forall k :: 0 <= k < |data| ==>
      rows[k] == data[k].(recs := RecsFor(makeRec, data, data[k], groups[..i]))
    requires forall r :: r in data ==> groups[i] in r.labels
    ensures forall r :: r in rows ==> groups[i] in r.labels
    ensures forall k :: 0 <= k < |data| ==>
      MergeGrouping(makeRec, rows, groups[i])[k] == data[k].(recs := RecsFor(makeRec, data, data[k], groups[..i + 1]))
  {
    var g := groups[i];
    RowsBase(makeRec, data, rows, groups[..i]);
    forall r | r in rows ensures g in r.labels {
      var k :| 0 <= k < |rows| && rows[k] == r;
      assert data[k] in data;
    }
    assert groups[..i + 1] == groups[..i] + [g];
    forall k | 0 <= k < |data|
      ensures MergeGrouping(makeRec, rows, g)[k] == data[k].(recs := RecsFor(makeRec, data, data[k], groups[..i] + [g]))
    {
      MergeGroupingRow(makeRec, data, rows, groups[..i], g, k);
    }
  }

  /** Rows that differ from `data` only in their recommendation columns. */
  lemma RowsBase(makeRec: (int, seq<int>, seq<int>) -> seq<int>, data: seq<UserRecord>,
                 rows: seq<UserRecord>, prefix: seq<string>)
    requires |rows| == |data|
    requires forall k :: 0 <= k < |data| ==> rows[k] == data[k].(recs := RecsFor(makeRec, data, data[k], prefix))
    ensures forall j :: 0 <= j < |data| ==> Base(rows[j]) == Base(data[j]) && rows[j].labels == data[j].labels
  {
    forall j | 0 <= j < |data| ensures Base(rows[j]) == Base(data[j]) && rows[j].labels == data[j].labels {
      BaseOfUpdate(data[j], RecsFor(makeRec, data, data[j], prefix));
    }
  }

  lemma BaseOfUpdate(r: UserRecord, recs: map<string, seq<int>>)
    ensures Base(r.(recs := recs)) == Base(r)
    ensures r.(recs := recs).labels == r.labels
  {
  }

  /** `generate_recommendations`: for each grouping in turn, pool every group's
      unwatched arrays, ask `makeRec` for the group, and merge the group's list into
      each member's row. Every row has a label for every grouping, so the inner merge
      keeps every row, in order. */
  method GenerateRecommendations(makeRec: (int, seq<int>, seq<int>) -> seq<int>,
                                 data: seq<UserRecord>, groups: seq<string>)
    returns (out: seq<UserRecord>)
    requires Labelled(data, groups)
    ensures |out| == |data|
    ensures forall k :: 0 <= k < |data| ==> Base(out[k]) == Base(data[k])
    ensures forall k :: 0 <= k < |data| ==> out[k].recs.Keys == data[k].recs.Keys + set g | g in groups
    ensures forall k, g :: 0 <= k < |data| && g in groups ==>
      out[k].recs[g] == GroupRec(makeRec, data, g, data[k].labels[g])
    ensures forall k, c :: 0 <= k < |data| && c in data[k].recs && c !in groups ==>
      out[k].recs[c] == data[k].recs[c]
  {
    out := data;
    var i := 0;
    while i < |groups|
      invariant 0 <= i <= |groups|
      invariant |out| == |data|
      invariant forall k :: 0 <= k < |data| ==>
        out[k] == data[k].(recs := RecsFor(makeRec, data, data[k], groups[..i]))
    {
      assert groups[i] in groups;
      MergeGroupingStep(makeRec, data, out, groups, i);
      var next := MergeGrouping(makeRec, out, groups[i]);
      out := next;
      i := i + 1;
    }
    assert groups[..i] == groups;
    forall k | 0 <= k < |data|
      ensures out[k].recs.Keys == data[k].recs.Keys + set g | g in groups
      ensures forall g :: g in groups ==> out[k].recs[g] == GroupRec(makeRec, data, g, data[k].labels[g])
      ensures forall c :: c in data[k].recs && c !in groups ==> out[k].recs[c] == data[k].recs[c]
    {
      assert data[k] in data;
      RecsForGroups(makeRec, data, data[k], groups);
    }
  }

  // ---------------------------------------------------------------------------
  // Ratings and relevance of a recommended list

  /** `astype(int)`: truncation toward zero. */
  function Trunc(x: real): (n: int)
    ensures x >= 0.0 ==> 0 <= n && n as real <= x < n as real + 1.0
    ensures x < 0.0 ==> n <= 0 && n as real - 1.0 < x <= n as real
  {
    if x >= 0.0 then x.Floor else -((-x).Floor)
  }

  /** The position of the first occurrence of `x`. */
  function FirstIndex(s: seq<int>, x: int): (i: nat)
    requires x in s
    ensures i < |s| && s[i] == x && x !in s[..i]
  {
    if s[0] == x then 0
    else
      var j := FirstIndex(s[1..], x);
      assert s[..j + 1] == [s[0]] + s[1..][..j];
      j + 1
  }

  /** `get_rating`: for each recommended id, the user's test rating of it, truncated
      to an integer, taken from its first occurrence in the history; 0 for an id
      the user did not rate. */
  function GetRating(movieIds: seq<int>, ratings: seq<real>, rec: seq<int>): (r: seq<int>)
    requires |movieIds| == |ratings|
    ensures |r| == |rec|
    ensures forall i :: 0 <= i < |rec| && rec[i] !in movieIds ==> r[i] == 0
    ensures forall i :: 0 <= i < |rec| && rec[i] in movieIds ==>
      exists j :: 0 <= j < |movieIds| && movieIds[j] == rec[i] && rec[i] !in movieIds[..j] &&
        r[i] == Trunc(ratings[j])
  {
    seq(|rec|, i requires 0 <= i < |rec| =>
      if rec[i] in movieIds then Trunc(ratings[FirstIndex(movieIds, rec[i])]) else 0)
  }

  /** `get_relevance`: 1 where the recommended id is in the user's test history. */
  function Relevance(rec: seq<int>, movieIds: seq<int>): (rel: seq<int>)
    ensures |rel| == |rec|
    ensures forall i :: 0 <= i < |rec| ==> (rel[i] == 0 || rel[i] == 1)
    ensures forall i :: 0 <= i < |rec| ==> (rel[i] == 1 <==> rec[i] in movieIds)
  {
    seq(|rec|, i requires 0 <= i < |rec| => if rec[i] in movieIds then 1 else 0)
  }

  /** An irrelevant recommendation has rating 0. When every test rating is at least
      1, the relevant ones are exactly those with a positive rating (a rating of 0.5
      is relevant but truncates to 0). */
  lemma RelevanceAgreesWithRating(movieIds: seq<int>, ratings: seq<real>, rec: seq<int>)
    requires |movieIds| == |ratings|
    ensures forall i :: 0 <= i < |rec| && Relevance(rec, movieIds)[i] == 0 ==>
      GetRating(movieIds, ratings, rec)[i] == 0
    ensures (forall j :: 0 <= j < |ratings| ==> ratings[j] >= 1.0) ==>
      forall i :: 0 <= i < |rec| ==>
        (Relevance(rec, movieIds)[i] == 1 <==> GetRating(movieIds, ratings, rec)[i] > 0)
  {
    var rel := Relevance(rec, movieIds);
    var r := GetRating(movieIds, ratings, rec);
    if forall j :: 0 <= j < |ratings| ==> ratings[j] >= 1.0 {
      forall i | 0 <= i < |rec| ensures rel[i] == 1 <==> r[i] > 0 {
        if rec[i] in movieIds {
          var j :| 0 <= j < |movieIds| && movieIds[j] == rec[i] && rec[i] !in movieIds[..j] &&
            r[i] == Trunc(ratings[j]);
        }
      }
    }
  }

  // ---------------------------------------------------------------------------
  // Average precision

  function Sum(s: seq<int>): int {
    if s == [] then 0 else s[0] + Sum(s[1..])
  }

  function SumReal(s: seq<real>): real {
    if s == [] then 0.0 else s[0] + SumReal(s[1..])
  }

  predicate ZeroOne(s: seq<int>) {
    forall i :: 0 <= i < |s| ==> s[i] == 0 || s[i] == 1
  }

  /** A 0/1 vector has between 0 and its length ones. */
  lemma {:induction false} ZeroOneSumBounds(s: seq<int>)
    requires ZeroOne(s)
    ensures 0 <= Sum(s) <= |s|
  {
    if s != [] {
      ZeroOneSumBounds(s[1..]);
    }
  }

  /** The term of one position: `hits` relevant among the first `pos`, and whether
      the position itself is relevant. */
  function PrecisionTerm(hits: int, relevant: int, pos: nat): (t: real)
    requires pos > 0
    ensures 0 <= hits <= pos && (relevant == 0 || relevant == 1) ==> 0.0 <= t <= relevant as real
  {
    var t := (hits * relevant) as real / (pos as real);
    assert 0 <= hits <= pos && (relevant == 0 || relevant == 1) ==> 0.0 <= t <= relevant as real by {
      if 0 <= hits <= pos && relevant == 1 {
        assert t == hits as real / pos as real;
        assert hits as real <= pos as real;
      }
    }
    t
  }

  /** The `_P_k` vector `cumsum(x) * x / arange(1, len(x) + 1)`: at 1-based position
      `i + 1`, the share of relevant items among the first `i + 1` if that position is
      relevant, else 0. */
  function PrecisionTerms(rel: seq<int>): (p: seq<real>)
    ensures |p| == |rel|
    ensures ZeroOne(rel) ==> forall i :: 0 <= i < |rel| ==> 0.0 <= p[i] <= rel[i] as real
  {
    var p := seq(|rel|, i requires 0 <= i < |rel| => PrecisionTerm(Sum(rel[..i + 1]), rel[i], i + 1));
    assert ZeroOne(rel) ==> forall i :: 0 <= i < |rel| ==> 0.0 <= p[i] <= rel[i] as real by {
      if ZeroOne(rel) {
        forall i | 0 <= i < |rel| ensures 0.0 <= p[i] <= rel[i] as real {
          assert ZeroOne(rel[..i + 1]);
          ZeroOneSumBounds(rel[..i + 1]);
        }
      }
    }
    p
  }

  /** `calc_P_k` for one user: the terms summed and divided by the shorter of the
      history and the list. A zero divisor gives NaN, here `None`. Rounding to two
      decimals is left out. */
  function AveragePrecision(rec: seq<int>, movieIds: seq<int>): (ap: Option<real>)
    ensures ap.None? <==> |rec| == 0 || |movieIds| == 0
  {
    var d := Min(|movieIds|, |rec|);
    if d == 0 then None
    else Some(SumReal(PrecisionTerms(Relevance(rec, movieIds))) / (d as real))
  }

  lemma {:induction false} SumRealMonotone(a: seq<real>, b: seq<int>)
    requires |a| == |b| && forall i :: 0 <= i < |a| ==> 0.0 <= a[i] <= b[i] as real
    ensures 0.0 <= SumReal(a) <= Sum(b) as real
  {
    if a != [] {
      SumRealMonotone(a[1..], b[1..]);
    }
  }

  /** The number of ones of the relevance vector is the length of the list filtered
      to the history. */
  lemma {:induction false} RelevanceSum(rec: seq<int>, movieIds: seq<int>)
    ensures Sum(Relevance(rec, movieIds)) == |Filter(rec, x => x in movieIds)|
  {
    if rec != [] {
      RelevanceSum(rec[1..], movieIds);
      assert Relevance(rec, movieIds)[1..] == Relevance(rec[1..], movieIds);
    }
  }

  lemma {:induction false} SubsequenceDistinct(a: seq<int>, b: seq<int>)
    requires IsSubsequence(a, b) && Distinct(b)
    ensures Distinct(a)
    decreases |b|
  {
    if a != [] && b != [] {
      if a[0] == b[0] {
        SubsequenceDistinct(a[1..], b[1..]);
        SubsequenceElements(a[1..], b[1..]);
        assert a[0] !in b[1..];
        assert forall j :: 0 < j < |a| ==> a[j] in a[1..];
      } else {
        SubsequenceDistinct(a, b[1..]);
      }
    }
  }

  /** For a list without repeats, average precision lies between 0 and 1: the terms
      add up to at most the number of hits, and there are no more hits than
      recommendations or distinct history items. */
  lemma AveragePrecisionBounds(rec: seq<int>, movieIds: seq<int>)
    requires Distinct(rec)
    ensures var ap := AveragePrecision(rec, movieIds);
      ap.Some? ==> 0.0 <= ap.value <= 1.0
  {
    var rel := Relevance(rec, movieIds);
    var p := PrecisionTerms(rel);
    SumRealMonotone(p, rel);
    HitsBound(rec, movieIds);
    var d := Min(|movieIds|, |rec|);
    if d > 0 {
      QuotientBound(SumReal(p), Sum(rel), d);
    }
  }

  /** A list without repeats has no more hits than either list has items. */
  lemma HitsBound(rec: seq<int>, movieIds: seq<int>)
    requires Distinct(rec)
    ensures Sum(Relevance(rec, movieIds)) <= Min(|movieIds|, |rec|)
  {
    RelevanceSum(rec, movieIds);
    var hits := Filter(rec, x => x in movieIds);
    SubsequenceDistinct(hits, rec);
    DistinctCardinality(hits);
    assert Elements(hits) <= Elements(movieIds);
    SubsetCardinality(Elements(hits), Elements(movieIds));
    ElementsCardinality(movieIds);
  }

  lemma QuotientBound(x: real, n: int, d: nat)
    requires d > 0 && 0.0 <= x <= n as real && n <= d
    ensures 0.0 <= x / (d as real) <= 1.0
  {
    assert x <= d as real;
  }

  // ---------------------------------------------------------------------------
  // NDCG's ideal order

  function IntGe(a: int, b: int): bool {
    a >= b
  }

  /** `-np.sort(-ratings)`: the ratings, largest first. */
  function IdealOrder(ratings: seq<int>): (r: seq<int>)
    ensures multiset(r) == multiset(ratings)
    ensures forall i, j :: 0 <= i < j < |r| ==> r[i] >= r[j]
  {
    assert TotalPreorder(IntGe);
    Sort(ratings, IntGe)
  }

  /** The ideal order is the only non-increasing arrangement of the ratings. */
  lemma {:induction false} IdealOrderUnique(ratings: seq<int>, other: seq<int>)
    requires multiset(other) == multiset(ratings)
    requires forall i, j :: 0 <= i < j < |other| ==> other[i] >= other[j]
    ensures other == IdealOrder(ratings)
  {
    SortedPermutationsEqual(other, IdealOrder(ratings));
  }

  lemma {:induction false} SortedPermutationsEqual(a: seq<int>, b: seq<int>)
    requires multiset(a) == multiset(b)
    requires forall i, j :: 0 <= i < j < |a| ==> a[i] >= a[j]
    requires forall i, j :: 0 <= i < j < |b| ==> b[i] >= b[j]
    ensures a == b
    decreases |a|
  {
    assert |a| == |multiset(a)| == |b|;
    if a != [] {
      assert a[0] in multiset(b) && b[0] in multiset(a);
      var i :| 0 <= i < |b| && b[i] == a[0];
      var j :| 0 <= j < |a| && a[j] == b[0];
      assert b[0] >= b[i] && a[0] >= a[j];
      assert a == [a[0]] + a[1..] && b == [b[0]] + b[1..];
      MultisetCancel(multiset(a[1..]), multiset(b[1..]), a[0]);
      SortedPermutationsEqual(a[1..], b[1..]);
    }
  }

  lemma MultisetCancel(A: multiset<int>, B: multiset<int>, x: int)
    requires multiset{x} + A == multiset{x} + B
    ensures A == B
  {
    assert forall y :: A[y] == (multiset{x} + A)[y] - multiset{x}[y];
    assert forall y :: A[y] == B[y];
  }

  // ---------------------------------------------------------------------------
  // Means per grouping

  /** The values that are not NaN. */
  function Present(xs: seq<Option<real>>): (vs: seq<real>)
    ensures forall v :: v in vs <==> Some(v) in xs
  {
    if xs == [] then []
    else
      assert forall o :: o in xs <==> o == xs[0] || o in xs[1..] by {
        assert xs == [xs[0]] + xs[1..];
      }
      (if xs[0].Some? then [xs[0].value] else []) + Present(xs[1..])
  }

  /** pandas' `mean()`, which skips NaN; NaN when nothing is left. */
  function MeanSkipNaN(xs: seq<Option<real>>): (m: Option<real>)
    ensures m.None? <==> forall o :: o in xs ==> o.None?
  {
    var vs := Present(xs);
    if vs == [] then None
    else
      assert Some(vs[0]) in xs;
      Some(SumReal(vs) / (|vs| as real))
  }

  lemma {:induction false} SumRealBounds(vs: seq<real>, lo: real, hi: real)
    requires forall v :: v in vs ==> lo <= v <= hi
    ensures (|vs| as real) * lo <= SumReal(vs) <= (|vs| as real) * hi
  {
    if vs != [] {
      assert forall v :: v in vs[1..] ==> v in vs;
      SumRealBounds(vs[1..], lo, hi);
      assert vs[0] in vs;
      ScaleStep(|vs[1..]|, SumReal(vs[1..]), vs[0], lo, hi);
    }
  }

  /** One more value in `[lo, hi]` moves the bounds of a sum by one step each. */
  lemma ScaleStep(n: nat, rest: real, v: real, lo: real, hi: real)
    requires (n as real) * lo <= rest <= (n as real) * hi && lo <= v <= hi
    ensures ((n + 1) as real) * lo <= v + rest <= ((n + 1) as real) * hi
  {
    assert ((n + 1) as real) * lo == (n as real) * lo + lo;
    assert ((n + 1) as real) * hi == (n as real) * hi + hi;
  }

  /** A mean of values in `[lo, hi]` is in `[lo, hi]`. */
  lemma MeanBounds(xs: seq<Option<real>>, lo: real, hi: real)
    requires forall o :: o in xs && o.Some? ==> lo <= o.value <= hi
    ensures var m := MeanSkipNaN(xs); m.Some? ==> lo <= m.value <= hi
  {
    var vs := Present(xs);
    if vs != [] {
      forall v | v in vs ensures lo <= v <= hi {
        assert Some(v) in xs;
      }
      SumRealBounds(vs, lo, hi);
      var n := |vs| as real;
      assert n * lo <= SumReal(vs) <= n * hi;
      DivideBounds(SumReal(vs), n, lo, hi);
    }
  }

  lemma DivideBounds(x: real, n: real, lo: real, hi: real)
    requires n > 0.0 && n * lo <= x <= n * hi
    ensures lo <= x / n <= hi
  {
  }

  /** The rows of group `key` of grouping `g`, in row order. */
  function GroupRows(data: seq<UserRecord>, g: string, key: int): (rows: seq<UserRecord>)
    ensures forall r :: r in rows <==> r in data && InGroup(r, g, key)
  {
    Filter(data, (r: UserRecord) => InGroup(r, g, key))
  }

  /** `groupby(by=g)[column].mean()` for one group: the mean of its members'
      values, NaN skipped. */
  function GroupMean(data: seq<UserRecord>, g: string, key: int, value: UserRecord -> Option<real>): Option<real> {
    var rows := GroupRows(data, g, key);
    MeanSkipNaN(seq(|rows|, j requires 0 <= j < |rows| => value(rows[j])))
  }

  /** `groupby(by=g)[column].mean().mean()`: the mean over the groups of the mean of
      the member values, NaN skipped at both levels. */
  function GroupedMean(data: seq<UserRecord>, g: string, value: UserRecord -> Option<real>): Option<real>
    requires forall r :: r in data ==> g in r.labels
  {
    var keys := GroupKeys(data, g);
    MeanSkipNaN(seq(|keys|, k requires 0 <= k < |keys| => GroupMean(data, g, keys[k], value)))
  }

  /** Bounds on every member value carry over to a group's mean. */
  lemma GroupMeanBounds(data: seq<UserRecord>, g: string, key: int, value: UserRecord -> Option<real>,
                        lo: real, hi: real)
    requires forall r :: r in data && value(r).Some? ==> lo <= value(r).value <= hi
    ensures var m := GroupMean(data, g, key, value); m.Some? ==> lo <= m.value <= hi
  {
    var rows := GroupRows(data, g, key);
    var vals := seq(|rows|, j requires 0 <= j < |rows| => value(rows[j]));
    forall o | o in vals && o.Some? ensures lo <= o.value <= hi {
      var j :| 0 <= j < |rows| && vals[j] == o;
      assert rows[j] in rows;
    }
    MeanBounds(vals, lo, hi);
  }

  /** Bounds on every member value carry over to the grouped mean. */
  lemma GroupedMeanBounds(data: seq<UserRecord>, g: string, value: UserRecord -> Option<real>, lo: real, hi: real)
    requires forall r :: r in data ==> g in r.labels
    requires forall r :: r in data && value(r).Some? ==> lo <= value(r).value <= hi
    ensures var m := GroupedMean(data, g, value); m.Some? ==> lo <= m.value <= hi
  {
    var keys := GroupKeys(data, g);
    var means := seq(|keys|, k requires 0 <= k < |keys| => GroupMean(data, g, keys[k], value));
    forall o | o in means && o.Some? ensures lo <= o.value <= hi {
      var k :| 0 <= k < |keys| && means[k] == o;
      GroupMeanBounds(data, g, keys[k], value, lo, hi);
    }
    MeanBounds(means, lo, hi);
  }

  /** What `evaluate_recommendations` reads of every row for every grouping: its
      label, its `{group}_rec` column, and aligned history columns. */
  predicate Evaluable(data: seq<UserRecord>, groups: seq<string>) {
    && (forall r, g :: r in data && g in groups ==> g in r.labels && g in r.recs)
    && (forall r :: r in data ==> |r.movieIds| == |r.ratings|)
  }

  /** The `{group}_P_k` value of a row. */
  function RowAveragePrecision(g: string, r: UserRecord): Option<real> {
    if g in r.recs then AveragePrecision(r.recs[g], r.movieIds) else None
  }

  /** The `{group}_NDCG_k` value of a row: `ndcg` of the list's ratings and of their
      ideal order (the `log2` discounts and the epsilon are inside `ndcg`). */
  function RowNdcg(ndcg: (seq<int>, seq<int>) -> real, g: string, r: UserRecord): Option<real> {
    if g in r.recs && |r.movieIds| == |r.ratings| then
      var rr := GetRating(r.movieIds, r.ratings, r.recs[g]);
      Some(ndcg(rr, IdealOrder(rr)))
    else None
  }

  /** `MAP_{group}`. */
  function MeanAveragePrecision(data: seq<UserRecord>, g: string): Option<real>
    requires forall r :: r in data ==> g in r.labels
  {
    GroupedMean(data, g, r => RowAveragePrecision(g, r))
  }

  /** `NDCG_{group}`. */
  function MeanNdcg(data: seq<UserRecord>, ndcg: (seq<int>, seq<int>) -> real, g: string): Option<real>
    requires forall r :: r in data ==> g in r.labels
  {
    GroupedMean(data, g, r => RowNdcg(ndcg, g, r))
  }

  /** When no list repeats an id, `MAP_{group}` lies between 0 and 1. */
  lemma MeanAveragePrecisionBounds(data: seq<UserRecord>, g: string)
    requires forall r :: r in data ==> g in r.labels
    requires forall r :: r in data && g in r.recs ==> Distinct(r.recs[g])
    ensures var m := MeanAveragePrecision(data, g); m.Some? ==> 0.0 <= m.value <= 1.0
  {
    var value := r => RowAveragePrecision(g, r);
    forall r | r in data && value(r).Some? ensures 0.0 <= value(r).value <= 1.0 {
      AveragePrecisionBounds(r.recs[g], r.movieIds);
    }
    GroupedMeanBounds(data, g, value, 0.0, 1.0);
  }

  // ---------------------------------------------------------------------------
  // The metric table

  /** Python's `s.split(sep)`: the pieces between the occurrences of `sep`. */
  function Split(s: string, sep: char): (parts: seq<string>)
    ensures |parts| > 0
    decreases |s|
  {
    if s == [] then [""]
    else
      var rest := Split(s[1..], sep);
      if s[0] == sep then [""] + rest else [[s[0]] + rest[0]] + rest[1..]
  }

  /** `sep.join(parts)`. */
  function Join(parts: seq<string>, sep: char): string
    requires |parts| > 0
  {
    if |parts| == 1 then parts[0] else parts[0] + [sep] + Join(parts[1..], sep)
  }

  /** No piece contains the separator. */
  lemma {:induction false} SplitPieces(s: string, sep: char)
    ensures forall p :: p in Split(s, sep) ==> sep !in p
    decreases |s|
  {
    if s != [] {
      SplitPieces(s[1..], sep);
      var rest := Split(s[1..], sep);
      assert rest[0] in rest;
      assert forall p :: p in rest[1..] ==> p in rest;
    }
  }

  /** Joining the pieces gives back the string. */
  lemma {:induction false} JoinSplit(s: string, sep: char)
    ensures Join(Split(s, sep), sep) == s
    decreases |s|
  {
    if s != [] {
      JoinSplit(s[1..], sep);
      var rest := Split(s[1..], sep);
      if s[0] != sep {
        JoinHead(s[0], rest, sep);
      }
      assert s == [s[0]] + s[1..];
    }
  }

  lemma JoinHead(c: char, parts: seq<string>, sep: char)
    requires |parts| > 0
    ensures Join([[c] + parts[0]] + parts[1..], sep) == [c] + Join(parts, sep)
  {
    var q := [[c] + parts[0]] + parts[1..];
    if |parts| > 1 {
      assert q[1..] == parts[1..];
    }
  }

  /** A string without the separator is one piece. */
  lemma {:induction false} SplitNone(s: string, sep: char)
    ensures |Split(s, sep)| == 1 <==> sep !in s
    ensures sep !in s ==> Split(s, sep) == [s]
    decreases |s|
  {
    if s != [] {
      SplitNone(s[1..], sep);
      assert s == [s[0]] + s[1..];
    }
  }

  /** Splitting `m + [sep] + g` for a separator-free `m` gives `m` and then the pieces
      of `g`. */
  lemma {:induction false} SplitAtFirst(m: string, g: string, sep: char)
    requires sep !in m
    ensures Split(m + [sep] + g, sep) == [m] + Split(g, sep)
    decreases |m|
  {
    var s := m + [sep] + g;
    if m == [] {
      assert s[1..] == g;
    } else {
      assert s[1..] == m[1..] + [sep] + g;
      SplitAtFirst(m[1..], g, sep);
      assert [m[0]] + m[1..] == m;
    }
  }

  /** A metric name `"M_g"` splits into `[M, g]` exactly when `g` has no `_`. */
  lemma MetricKeySplit(m: string, g: string)
    requires '_' !in m
    ensures |Split(m + "_" + g, '_')| == 2 <==> '_' !in g
    ensures '_' !in g ==> Split(m + "_" + g, '_') == [m, g]
  {
    assert m + "_" + g == m + ['_'] + g;
    SplitAtFirst(m, g, '_');
    SplitNone(g, '_');
  }

  /** The cells of the reshaped table, addressed by column (the metric) and row (the
      grouping): `pd.DataFrame(metrics_results_2d)` has cell `(m, g)` where the nested
      dictionary has `metrics_results_2d[m][g]`. */
  type Cells = map<(string, string), Option<real>>

  /** The metric key that names cell `c`. */
  function CellKey(c: (string, string)): string {
    c.0 + "_" + c.1
  }

  /** The cell named by a key that splits into two pieces. */
  function CellOf(k: string): (c: (string, string))
    requires |Split(k, '_')| == 2
    ensures CellKey(c) == k
    ensures '_' !in c.0 && '_' !in c.1
  {
    var parts := Split(k, '_');
    JoinSplit(k, '_');
    assert parts == [parts[0], parts[1]];
    assert parts[1..] == [parts[1]];
    SplitPieces(k, '_');
    assert parts[0] in parts && parts[1] in parts;
    (parts[0], parts[1])
  }

  /** Key `k` splits into two pieces and its value `v` is in the cell they name. */
  predicate Placed(k: string, v: Option<real>, cells: Cells) {
    |Split(k, '_')| == 2 && CellOf(k) in cells && cells[CellOf(k)] == v
  }

  /** Cell `c` is named by a key of `metrics` and holds that key's value. */
  predicate Sourced(c: (string, string), metrics: map<string, Option<real>>, cells: Cells)
    requires c in cells
  {
    '_' !in c.0 && '_' !in c.1 && CellKey(c) in metrics && metrics[CellKey(c)] == cells[c]
  }

  /** The table is `metrics` rearranged: every key's value is in the cell its pieces
      name, and every cell holds the value of the key that names it. */
  predicate Reshaped(metrics: map<string, Option<real>>, cells: Cells) {
    && (forall k :: k in metrics ==> Placed(k, metrics[k], cells))
    && (forall c :: c in cells ==> Sourced(c, metrics, cells))
  }

  /** Writing the cell of another key leaves a placed key in place. */
  lemma PlacedKept(k': string, w: Option<real>, cells: Cells, k: string, v: Option<real>)
    requires |Split(k, '_')| == 2 && Placed(k', w, cells) && k' != k
    ensures Placed(k', w, cells[CellOf(k) := v])
  {
    assert CellKey(CellOf(k')) != CellKey(CellOf(k));
  }

  /** A cell other than the one written keeps its value and its key. */
  lemma SourcedKept(c: (string, string), done: map<string, Option<real>>, cells: Cells,
                    k: string, v: Option<real>)
    requires |Split(k, '_')| == 2 && k !in done
    requires c in cells && Sourced(c, done, cells) && c != CellOf(k)
    ensures c in cells[CellOf(k) := v] && Sourced(c, done[k := v], cells[CellOf(k) := v])
  {
  }

  /** Placing one more key keeps the table a rearrangement. */
  lemma ReshapeStep(done: map<string, Option<real>>, cells: Cells, k: string, v: Option<real>)
    requires Reshaped(done, cells) && k !in done && |Split(k, '_')| == 2
    ensures Reshaped(done[k := v], cells[CellOf(k) := v])
  {
    var cells' := cells[CellOf(k) := v];
    var done' := done[k := v];
    forall k' | k' in done' ensures Placed(k', done'[k'], cells') {
      if k' != k {
        PlacedKept(k', done[k'], cells, k, v);
      }
    }
    forall c | c in cells' ensures Sourced(c, done', cells') {
      if c != CellOf(k) {
        SourcedKept(c, done, cells, k, v);
      }
    }
  }

  /** Moving key `k` from the remaining keys to the done ones keeps the done keys the
      processed part of `metrics`. */
  lemma DoneStep(metrics: map<string, Option<real>>, done: map<string, Option<real>>,
                 remaining: set<string>, k: string)
    requires remaining <= metrics.Keys && k in remaining
    requires done.Keys == metrics.Keys - remaining
    requires forall k' :: k' in done ==> done[k'] == metrics[k']
    ensures k !in done
    ensures remaining - {k} <= metrics.Keys
    ensures done[k := metrics[k]].Keys == metrics.Keys - (remaining - {k})
    ensures forall k' :: k' in done[k := metrics[k]] ==> done[k := metrics[k]][k'] == metrics[k']
  {
  }

  /** The final loop of `evaluate_recommendations`: every key `"M_g"` becomes the
      cell `(M, g)`. A key that does not split into exactly two pieces raises
      `ValueError`, here `Err`. */
  method ReshapeMetrics(metrics: map<string, Option<real>>) returns (result: Result<Cells>)
    ensures result.Ok? <==> forall k :: k in metrics ==> |Split(k, '_')| == 2
    ensures result.Ok? ==> Reshaped(metrics, result.value)
  {
    var cells: Cells := map[];
    var done: map<string, Option<real>> := map[];
    var remaining := metrics.Keys;
    while remaining != {}
      invariant remaining <= metrics.Keys
      invariant done.Keys == metrics.Keys - remaining
      invariant forall k :: k in done ==> done[k] == metrics[k]
      invariant Reshaped(done, cells)
      decreases |remaining|
    {
      var k :| k in remaining;
      if |Split(k, '_')| != 2 {
        return Err("not enough values to unpack");
      }
      DoneStep(metrics, done, remaining, k);
      ReshapeStep(done, cells, k, metrics[k]);
      cells := cells[CellOf(k) := metrics[k]];
      done := done[k := metrics[k]];
      remaining := remaining - {k};
    }
    assert Reshaped(metrics, cells) by {
      assert done == metrics;
    }
    result := Ok(cells);
  }

  /** The metric keys recorded for the groupings `groups`. */
  function MetricKeys(groups: seq<string>): set<string> {
    (set g | g in groups :: "MAP_" + g) + (set g | g in groups :: "NDCG_" + g)
  }

  /** The two metric names of grouping `g`, and how they split. */
  lemma MetricKeyNames(g: string)
    ensures |Split("MAP_" + g, '_')| == 2 <==> '_' !in g
    ensures |Split("NDCG_" + g, '_')| == 2 <==> '_' !in g
    ensures '_' !in g ==> CellOf("MAP_" + g) == ("MAP", g) && CellOf("NDCG_" + g) == ("NDCG", g)
  {
    assert "MAP_" + g == "MAP" + "_" + g;
    assert "NDCG_" + g == "NDCG" + "_" + g;
    MetricKeySplit("MAP", g);
    MetricKeySplit("NDCG", g);
  }

  /** Every metric key splits in two exactly when no grouping name contains `_`. */
  lemma MetricKeysSplit(groups: seq<string>)
    ensures (forall k :: k in MetricKeys(groups) ==> |Split(k, '_')| == 2) <==> forall g :: g in groups ==> '_' !in g
  {
    if forall k :: k in MetricKeys(groups) ==> |Split(k, '_')| == 2 {
      forall g | g in groups ensures '_' !in g {
        assert "MAP_" + g in MetricKeys(groups);
        MetricKeyNames(g);
      }
    }
    if forall g :: g in groups ==> '_' !in g {
      forall k | k in MetricKeys(groups) ensures |Split(k, '_')| == 2 {
        var g :| g in groups && (k == "MAP_" + g || k == "NDCG_" + g);
        MetricKeyNames(g);
      }
    }
  }

  /** A cell's key splits back into the cell. */
  lemma CellOfKey(c: (string, string))
    requires '_' !in c.0 && '_' !in c.1
    ensures |Split(CellKey(c), '_')| == 2 && CellOf(CellKey(c)) == c
  {
    MetricKeySplit(c.0, c.1);
  }

  /** The reshaped metrics of the groupings `groups` hold each grouping's `MAP` and
      `NDCG` cell. */
  lemma MetricCells(groups: seq<string>, metrics: map<string, Option<real>>, cells: Cells, g: string)
    requires metrics.Keys == MetricKeys(groups) && Reshaped(metrics, cells)
    requires g in groups && '_' !in g
    ensures ("MAP", g) in cells && cells[("MAP", g)] == metrics["MAP_" + g]
    ensures ("NDCG", g) in cells && cells[("NDCG", g)] == metrics["NDCG_" + g]
  {
    MetricKeyNames(g);
    assert "MAP_" + g in metrics && "NDCG_" + g in metrics;
    assert Placed("MAP_" + g, metrics["MAP_" + g], cells);
    assert Placed("NDCG_" + g, metrics["NDCG_" + g], cells);
  }

  /** The reshaped metrics of the groupings `groups` have no cell besides the `MAP`
      and `NDCG` cells of those groupings. */
  lemma MetricTable(groups: seq<string>, metrics: map<string, Option<real>>, cells: Cells)
    requires metrics.Keys == MetricKeys(groups) && Reshaped(metrics, cells)
    requires forall g :: g in groups ==> '_' !in g
    ensures forall c :: c in cells ==> (c.0 == "MAP" || c.0 == "NDCG") && c.1 in groups
  {
    forall c | c in cells ensures (c.0 == "MAP" || c.0 == "NDCG") && c.1 in groups {
      assert Sourced(c, metrics, cells);
      var k := CellKey(c);
      var h :| h in groups && (k == "MAP_" + h || k == "NDCG_" + h);
      MetricKeyNames(h);
      CellOfKey(c);
    }
  }

  /** The two metrics of grouping `g`, as `values` gives them, are recorded in `metrics`. */
  predicate Recorded(metrics: map<string, Option<real>>, values: string -> (Option<real>, Option<real>), g: string) {
    && "MAP_" + g in metrics && metrics["MAP_" + g] == values(g).0
    && "NDCG_" + g in metrics && metrics["NDCG_" + g] == values(g).1
  }
  /** `MAP_{group}` and `NDCG_{group}` for every grouping the rows are labelled with. */
  function MetricsOf(data: seq<UserRecord>, ndcg: (seq<int>, seq<int>) -> real)
    : (values: string -> (Option<real>, Option<real>))
  {
    g => if forall r :: r in data ==> g in r.labels then (MeanAveragePrecision(data, g), MeanNdcg(data, ndcg, g))
         else (None, None)
  }

  /** Different groupings have different metric keys, and no `MAP` key is an `NDCG` key. */
  lemma MetricKeysDistinct(g: string, h: string)
    ensures "MAP_" + g == "MAP_" + h ==> g == h
    ensures "NDCG_" + g == "NDCG_" + h ==> g == h
    ensures "MAP_" + g != "NDCG_" + h
  {
    assert ("MAP_" + g)[4..] == g && ("MAP_" + h)[4..] == h;
    assert ("NDCG_" + g)[5..] == g && ("NDCG_" + h)[5..] == h;
    assert ("MAP_" + g)[0] != ("NDCG_" + h)[0];
  }

  /** The keys of one more grouping. */
  lemma MetricKeysSnoc(done: seq<string>, g: string)
    ensures MetricKeys(done + [g]) == MetricKeys(done) + {"MAP_" + g, "NDCG_" + g}
  {
    var a, b := MetricKeys(done + [g]), MetricKeys(done) + {"MAP_" + g, "NDCG_" + g};
    forall k | k in a ensures k in b {
      var h :| h in done + [g] && (k == "MAP_" + h || k == "NDCG_" + h);
      if h != g {
        assert h in done;
      }
    }
    forall k | k in b ensures k in a {
      if k != "MAP_" + g && k != "NDCG_" + g {
        var h :| h in done && (k == "MAP_" + h || k == "NDCG_" + h);
        assert h in done + [g];
      }
    }
  }

  /** Recording grouping `g` adds its two keys. */
  lemma RecordKeys(metrics: map<string, Option<real>>, done: seq<string>, g: string, a: Option<real>, b: Option<real>)
    requires metrics.Keys == MetricKeys(done)
    ensures metrics["MAP_" + g := a]["NDCG_" + g := b].Keys == MetricKeys(done + [g])
  {
    MetricKeysSnoc(done, g);
  }

  /** Recording grouping `g` keeps the earlier groupings recorded. */
  lemma RecordStep(metrics: map<string, Option<real>>, values: string -> (Option<real>, Option<real>),
                   done: seq<string>, g: string)
    requires forall h :: h in done ==> Recorded(metrics, values, h)
    ensures forall h :: h in done + [g] ==>
      Recorded(metrics["MAP_" + g := values(g).0]["NDCG_" + g := values(g).1], values, h)
  {
    var m := metrics["MAP_" + g := values(g).0]["NDCG_" + g := values(g).1];
    forall h | h in done + [g] ensures Recorded(m, values, h) {
      MetricKeysDistinct(g, h);
      MetricKeysDistinct(h, g);
      if h != g {
        assert h in done;
      }
    }
  }

  /** A recorded grouping's keys hold its `MAP` and `NDCG`. */
  lemma RecordedValues(data: seq<UserRecord>, ndcg: (seq<int>, seq<int>) -> real,
                       metrics: map<string, Option<real>>, g: string)
    requires forall r :: r in data ==> g in r.labels
    requires Recorded(metrics, MetricsOf(data, ndcg), g)
    ensures metrics["MAP_" + g] == MeanAveragePrecision(data, g)
    ensures metrics["NDCG_" + g] == MeanNdcg(data, ndcg, g)
  {
    assert MetricsOf(data, ndcg)(g) == (MeanAveragePrecision(data, g), MeanNdcg(data, ndcg, g));
  }

  /** The `MAP` and `NDCG` cells of a recorded grouping hold its metrics. */
  lemma GroupingCells(data: seq<UserRecord>, ndcg: (seq<int>, seq<int>) -> real, groups: seq<string>,
                      metrics: map<string, Option<real>>, cells: Cells, g: string)
    requires metrics.Keys == MetricKeys(groups) && Reshaped(metrics, cells)
    requires g in groups && '_' !in g && forall r :: r in data ==> g in r.labels
    requires Recorded(metrics, MetricsOf(data, ndcg), g)
    ensures ("MAP", g) in cells && cells[("MAP", g)] == MeanAveragePrecision(data, g)
    ensures ("NDCG", g) in cells && cells[("NDCG", g)] == MeanNdcg(data, ndcg, g)
  {
    MetricCells(groups, metrics, cells, g);
    RecordedValues(data, ndcg, metrics, g);
  }

  /** The table built from the recorded metrics holds `MAP_{group}` and
      `NDCG_{group}` of every grouping. */
  lemma EvaluationTable(data: seq<UserRecord>, ndcg: (seq<int>, seq<int>) -> real, groups: seq<string>,
                        metrics: map<string, Option<real>>, cells: Cells)
    requires forall g :: g in groups ==> forall r :: r in data ==> g in r.labels
    requires metrics.Keys == MetricKeys(groups) && Reshaped(metrics, cells)
    requires forall g :: g in groups ==> '_' !in g
    requires forall g :: g in groups ==> Recorded(metrics, MetricsOf(data, ndcg), g)
    ensures forall g :: g in groups ==>
      && (forall r :: r in data ==> g in r.labels)
      && ("MAP", g) in cells && cells[("MAP", g)] == MeanAveragePrecision(data, g)
      && ("NDCG", g) in cells && cells[("NDCG", g)] == MeanNdcg(data, ndcg, g)
  {
    forall g | g in groups
      ensures ("MAP", g) in cells && cells[("MAP", g)] == MeanAveragePrecision(data, g)
      ensures ("NDCG", g) in cells && cells[("NDCG", g)] == MeanNdcg(data, ndcg, g)
    {
      GroupingCells(data, ndcg, groups, metrics, cells, g);
    }
  }

  /** `evaluate_recommendations`: for every grouping, MAP and NDCG averaged first
      within each group and then over the groups, in a table with a `MAP` and an
      `NDCG` column and one row per grouping. A grouping whose name contains `_`
      makes the key split fail. */
  method EvaluateRecommendations(data: seq<UserRecord>, groups: seq<string>,
                                 ndcg: (seq<int>, seq<int>) -> real)
    returns (result: Result<Cells>)
    requires Evaluable(data, groups)
    ensures result.Ok? <==> forall g :: g in groups ==> '_' !in g
    ensures result.Ok? ==> forall g :: g in groups ==>
      && (forall r :: r in data ==> g in r.labels)
      && ("MAP", g) in result.value && result.value[("MAP", g)] == MeanAveragePrecision(data, g)
      && ("NDCG", g) in result.value && result.value[("NDCG", g)] == MeanNdcg(data, ndcg, g)
    ensures result.Ok? ==> forall c :: c in result.value ==> (c.0 == "MAP" || c.0 == "NDCG") && c.1 in groups
  {
    var metrics: map<string, Option<real>> := map[];
    ghost var values := MetricsOf(data, ndcg);
    var i := 0;
    while i < |groups|
      invariant 0 <= i <= |groups|
      invariant metrics.Keys == MetricKeys(groups[..i])
      invariant forall g :: g in groups[..i] ==> Recorded(metrics, values, g)
    {
      var g := groups[i];
      assert g in groups;
      assert groups[..i + 1] == groups[..i] + [g];
      var mapValue, ndcgValue := MeanAveragePrecision(data, g), MeanNdcg(data, ndcg, g);
      assert values(g) == (mapValue, ndcgValue);
      RecordKeys(metrics, groups[..i], g, mapValue, ndcgValue);
      RecordStep(metrics, values, groups[..i], g);
      metrics := metrics["MAP_" + g := mapValue]["NDCG_" + g := ndcgValue];
      i := i + 1;
    }
    assert groups[..i] == groups;
    MetricKeysSplit(groups);
    result := ReshapeMetrics(metrics);
    if result.Ok? {
      EvaluationTable(data, ndcg, groups, metrics, result.value);
      MetricTable(groups, metrics, result.value);
    }
  }
}
