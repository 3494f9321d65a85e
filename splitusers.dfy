/** The group-splitting script (split_users.py): for each group size, the distinct
    test users are shuffled, trimmed to a multiple of the size, and cut into
    consecutive groups of that size. The shuffle is a parameter. */
module SplitUsers {
  import opened Sequences
  import opened Numerals

  /** `GROUP_SIZES`. */
  const GroupSizes: seq<nat> := [5, 6, 7]

  /** A row of a group file: a user and the number of its group. */
  datatype Assignment = Assignment(userId: int, group: int)

  /** `f'groups{group_size}.pq'`, the file a size's groups are written to. */
  function FileName(size: nat): string {
    "groups" + NatToString(size) + ".pq"
  }

  /** Different sizes are written to different files. */
  lemma FileNameInjective(a: nat, b: nat)
    requires FileName(a) == FileName(b)
    ensures a == b
  {
    var sa, sb := NatToString(a), NatToString(b);
    assert FileName(a)[6..|FileName(a)| - 3] == sa;
    assert FileName(b)[6..|FileName(b)| - 3] == sb;
    NatToStringInjective(a, b);
  }

  /** Multiplying by a positive number keeps the order. */
  lemma MultiplyMonotone(a: int, b: int, g: int)
    requires a <= b && 0 < g
    ensures a * g <= b * g
  {
    assert b * g - a * g == (b - a) * g;
  }

  /** `k // g` is `l` exactly when `k` lies in `[l * g, (l + 1) * g)`. */
  lemma DivisionInterval(k: int, g: int, l: int)
    requires 0 <= k && 0 < g
    ensures k / g == l <==> l * g <= k < l * g + g
  {
    var q, r := k / g, k % g;
    assert k == q * g + r && 0 <= r < g;
    assert (q + 1) * g == q * g + g && (l + 1) * g == l * g + g;
    if q > l {
      MultiplyMonotone(l + 1, q, g);
    } else if q < l {
      MultiplyMonotone(q + 1, l, g);
    }
  }

  /** The number of users kept for groups of size `g`: `(n // g) * g` when `g` does
      not divide `n`, all `n` otherwise. */
  function KeptCount(n: nat, g: nat): (kept: nat)
    requires 0 < g
    ensures kept == (n / g) * g
    ensures kept % g == 0 && kept <= n && n - g < kept
    ensures n % g == 0 ==> kept == n
  {
    assert n == (n / g) * g + n % g;
    assert ((n / g) * g) % g == 0 by {
      DivisionInterval((n / g) * g, g, n / g);
      assert (n / g) * g == ((n / g) * g) / g * g + ((n / g) * g) % g;
    }
    if n % g != 0 then (n / g) * g else n
  }

  /** One size's table: the first `KeptCount` users of the shuffled order, the user
      at position `k` in group `k // g`. */
  function SplitForSize(shuffled: seq<int>, g: nat): (rows: seq<Assignment>)
    requires 0 < g
    ensures |rows| == KeptCount(|shuffled|, g)
    ensures forall k :: 0 <= k < |rows| ==> rows[k] == Assignment(shuffled[k], k / g)
  {
    var kept := shuffled[..KeptCount(|shuffled|, g)];
    seq(|kept|, k requires 0 <= k < |kept| => Assignment(kept[k], k / g))
  }

  /** The `userId` column of a table. */
  function UserIds(rows: seq<Assignment>): (ids: seq<int>)
    ensures |ids| == |rows|
    ensures forall k :: 0 <= k < |rows| ==> ids[k] == rows[k].userId
  {
    seq(|rows|, k requires 0 <= k < |rows| => rows[k].userId)
  }

  /** The kept users are a prefix of the shuffled order, and every user is kept when
      the size divides their number. */
  lemma KeptPrefix(shuffled: seq<int>, g: nat)
    requires 0 < g
    ensures UserIds(SplitForSize(shuffled, g)) == shuffled[..KeptCount(|shuffled|, g)]
    ensures |shuffled| % g == 0 ==> UserIds(SplitForSize(shuffled, g)) == shuffled
  {
  }

  /** The `g`-sized blocks of a multiple `n` of `g`: block `l` fits exactly for
      `0 <= l < n / g`. */
  lemma BlocksOfMultiple(n: nat, g: nat, l: int)
    requires 0 < g && n % g == 0
    ensures 0 <= l < n / g <==> 0 <= l && (l + 1) * g <= n
  {
    var q := n / g;
    assert n == q * g;
    if 0 <= l < q {
      MultiplyMonotone(l + 1, q, g);
    } else if l >= q {
      MultiplyMonotone(q, l, g);
      assert (l + 1) * g == l * g + g;
    }
  }

  /** Group `l` exists exactly for `0 <= l < kept / g`, and occupies the `g`
      consecutive positions `[l * g, (l + 1) * g)`. */
  lemma GroupPositions(shuffled: seq<int>, g: nat, l: int)
    requires 0 < g
    ensures var rows := SplitForSize(shuffled, g);
      && (0 <= l < |rows| / g <==> 0 <= l && (l + 1) * g <= |rows|)
      && forall k :: 0 <= k < |rows| ==> (rows[k].group == l <==> l * g <= k < l * g + g)
  {
    var rows := SplitForSize(shuffled, g);
    BlocksOfMultiple(|rows|, g, l);
    forall k | 0 <= k < |rows| ensures rows[k].group == l <==> l * g <= k < l * g + g {
      DivisionInterval(k, g, l);
    }
  }

  /** Every label is the number of a group that exists: `0 <= label < kept / g`. */
  lemma LabelsInRange(shuffled: seq<int>, g: nat)
    requires 0 < g
    ensures var rows := SplitForSize(shuffled, g);
      forall k :: 0 <= k < |rows| ==> 0 <= rows[k].group < |rows| / g
  {
    var rows := SplitForSize(shuffled, g);
    forall k | 0 <= k < |rows| ensures 0 <= rows[k].group < |rows| / g {
      GroupPositions(shuffled, g, k / g);
      DivisionInterval(k, g, k / g);
    }
  }

  /** A shuffle of the distinct users gives a table in which every user is a test
      user and appears once. */
  lemma SplitOfPermutation(users: seq<int>, shuffled: seq<int>, g: nat)
    requires 0 < g && Distinct(users) && multiset(shuffled) == multiset(users)
    ensures var rows := SplitForSize(shuffled, g);
      && |rows| == KeptCount(|users|, g)
      && Distinct(UserIds(rows))
      && forall k :: 0 <= k < |rows| ==> rows[k].userId in users
  {
    assert |shuffled| == |multiset(shuffled)| == |users|;
    DistinctOccursOnce(users);
    OccursOnceDistinct(shuffled);
    var rows := SplitForSize(shuffled, g);
    forall k | 0 <= k < |rows| ensures rows[k].userId in users {
      assert shuffled[k] in multiset(users);
    }
  }

  /** One size's table, built from a shuffle of the distinct test users. */
  lemma TableOfTestUsers(testUserIds: seq<int>, shuffled: seq<int>, g: nat)
    requires 0 < g && multiset(shuffled) == multiset(Dedup(testUserIds))
    ensures var rows := SplitForSize(shuffled, g);
      && |rows| == KeptCount(|Dedup(testUserIds)|, g)
      && Distinct(UserIds(rows))
      && forall k :: 0 <= k < |rows| ==> rows[k].userId in testUserIds
  {
    SplitOfPermutation(Dedup(testUserIds), shuffled, g);
  }

  /** `split_users_by_groups`: for the size at index `i`, the distinct test users in
      first-occurrence order, shuffled with seed `i`, trimmed and labelled, written to
      the size's file. `shuffle(seed, users)` stands for `sample(frac=1,
      random_state=seed)`; reading the test ratings and writing the files are the
      parameter and the result. */
  method SplitUsersByGroups(testUserIds: seq<int>, shuffle: (nat, seq<int>) -> seq<int>)
    returns (files: map<string, seq<Assignment>>)
    ensures files.Keys == set size | size in GroupSizes :: FileName(size)
    ensures forall i :: 0 <= i < |GroupSizes| ==>
      files[FileName(GroupSizes[i])] == SplitForSize(shuffle(i, Dedup(testUserIds)), GroupSizes[i])
  {
    files := map[];
    var i := 0;
    while i < |GroupSizes|
      invariant 0 <= i <= |GroupSizes|
      invariant files.Keys == set j | 0 <= j < i :: FileName(GroupSizes[j])
      invariant forall j :: 0 <= j < i ==>
        files[FileName(GroupSizes[j])] == SplitForSize(shuffle(j, Dedup(testUserIds)), GroupSizes[j])
    {
      var size := GroupSizes[i];
      var users := Dedup(testUserIds);
      var shuffled := shuffle(i, users);
      FreshFileName(i);
      files := files[FileName(size) := SplitForSize(shuffled, size)];
      i := i + 1;
    }
    FileNames();
  }

  /** The file of the `i`-th size is not the file of an earlier size. */
  lemma FreshFileName(i: nat)
    requires i < |GroupSizes|
    ensures forall j :: 0 <= j < i ==> FileName(GroupSizes[j]) != FileName(GroupSizes[i])
  {
    forall j | 0 <= j < i ensures FileName(GroupSizes[j]) != FileName(GroupSizes[i]) {
      if FileName(GroupSizes[j]) == FileName(GroupSizes[i]) {
        FileNameInjective(GroupSizes[j], GroupSizes[i]);
      }
    }
  }

  /** The files of the positions of `GroupSizes` are the files of its sizes. */
  lemma FileNames()
    ensures (set j | 0 <= j < |GroupSizes| :: FileName(GroupSizes[j])) == set size | size in GroupSizes :: FileName(size)
  {
  }
}
