/** Preparation of the offline experiment's data
    (experiments/utils/recommender_data_preprocessor.py): the test ratings get one
    label column per grouping, every training user gets the popularity-ranked movies
    they have not rated, every test user gets their rating history sorted by
    rating, and the two are joined into the rows the evaluation works on. Reading
    the parquet files is replaced by parameters. */
module ExperimentData {
  import opened Wrappers
  import opened Sequences
  import opened Sorting
  import opened Numerals
  import SplitUsers
  import Evaluation

  /** A row of `ratings_train.pq` or `ratings_test.pq`. */
  datatype Observation = Observation(userId: int, movieId: int, rating: real)

  /** A test row with its group label columns (`group1`, `group2`, ...). */
  datatype LabelledRow = LabelledRow(userId: int, movieId: int, rating: real, labels: map<string, int>)

  /** The labelled test table: its label columns, in the order they were added, and
      its rows. */
  datatype TestTable = TestTable(columns: seq<string>, rows: seq<LabelledRow>)

  /** The rating row a labelled row was made from. */
  function Unlabelled(r: LabelledRow): Observation {
    Observation(r.userId, r.movieId, r.rating)
  }

  // ---------------------------------------------------------------------------
  // get_train_test

  /** `f'group{i+2}'`, the label column of the `i`-th group file. */
  function GroupColumn(i: nat): string {
    "group" + NatToString(i + 2)
  }

  /** The label columns are all different, and none is `group1`. */
  lemma GroupColumnInjective(i: nat, j: nat)
    ensures GroupColumn(i) == GroupColumn(j) ==> i == j
    ensures GroupColumn(i) != "group1"
  {
    assert GroupColumn(i)[5..] == NatToString(i + 2) && GroupColumn(j)[5..] == NatToString(j + 2);
    if GroupColumn(i) == GroupColumn(j) {
      NatToStringInjective(i + 2, j + 2);
    }
    assert "group1"[5..] == "1" == NatToString(1);
  }

  /** `test_data['group1'] = test_data.userId`: every test user is a group of its own. */
  function OwnGroups(test: seq<Observation>): (rows: seq<LabelledRow>)
    ensures |rows| == |test|
    ensures forall k :: 0 <= k < |test| ==> Unlabelled(rows[k]) == test[k]
    ensures forall k :: 0 <= k < |test| ==> rows[k].labels == map["group1" := test[k].userId]
  {
    seq(|test|, k requires 0 <= k < |test| =>
      LabelledRow(test[k].userId, test[k].movieId, test[k].rating, map["group1" := test[k].userId]))
  }

  /** A matching group-file row joined onto a test row, its `group` renamed `column`. */
  function Joined(r: LabelledRow, a: SplitUsers.Assignment, column: string): LabelledRow {
    r.(labels := r.labels[column := a.group])
  }

  /** The rows that `merge(group, on='userId')` makes of the test row `r`: one per
      group-file row of the same user, in file order. */
  function JoinRow(r: LabelledRow, file: seq<SplitUsers.Assignment>, column: string): seq<LabelledRow> {
    if file == [] then []
    else (if file[0].userId == r.userId then [Joined(r, file[0], column)] else []) + JoinRow(r, file[1..], column)
  }

  /** `test_data.merge(group, on='userId').rename(columns={'group': column})`: the
      inner join on `userId`, in the order of the test rows. */
  function MergeGroup(rows: seq<LabelledRow>, file: seq<SplitUsers.Assignment>, column: string): seq<LabelledRow> {
    if rows == [] then [] else JoinRow(rows[0], file, column) + MergeGroup(rows[1..], file, column)
  }

  /** The rows of a join are the test rows paired with a file row of the same user. */
  lemma {:induction false} JoinRowSpec(r: LabelledRow, file: seq<SplitUsers.Assignment>, column: string)
    ensures forall x :: x in JoinRow(r, file, column) <==>
      exists a :: a in file && a.userId == r.userId && x == Joined(r, a, column)
  {
    if file != [] {
      JoinRowSpec(r, file[1..], column);
      assert forall a :: a in file <==> a == file[0] || a in file[1..] by {
        assert file == [file[0]] + file[1..];
      }
    }
  }

  /** The rows of the merge are exactly the joins of a test row with a file row of
      the same user. */
  lemma {:induction false} MergeGroupSpec(rows: seq<LabelledRow>, file: seq<SplitUsers.Assignment>, column: string)
    ensures forall x :: x in MergeGroup(rows, file, column) <==>
      exists r, a :: r in rows && a in file && a.userId == r.userId && x == Joined(r, a, column)
  {
    if rows != [] {
      MergeGroupSpec(rows[1..], file, column);
      JoinRowSpec(rows[0], file, column);
      assert forall r :: r in rows <==> r == rows[0] || r in rows[1..] by {
        assert rows == [rows[0]] + rows[1..];
      }
    }
  }

  /** The group files `groups_list[1:]` name, read with `groupFile`. */
  function GroupFiles(groupsList: seq<string>, groupFile: string -> seq<SplitUsers.Assignment>)
    : (files: seq<seq<SplitUsers.Assignment>>)
    ensures |files| == if |groupsList| == 0 then 0 else |groupsList| - 1
    ensures forall j :: 0 <= j < |files| ==> files[j] == groupFile(groupsList[j + 1])
  {
    if |groupsList| <= 1 then []
    else seq(|groupsList| - 1, j requires 0 <= j < |groupsList| - 1 => groupFile(groupsList[j + 1]))
  }

  /** The test table once the first `n` group files are merged in. */
  function Stage(test: seq<Observation>, files: seq<seq<SplitUsers.Assignment>>, n: nat): TestTable
    requires n <= |files|
  {
    if n == 0 then TestTable(["group1"], OwnGroups(test))
    else
      var t := Stage(test, files, n - 1);
      TestTable(t.columns + [GroupColumn(n - 1)], MergeGroup(t.rows, files[n - 1], GroupColumn(n - 1)))
  }

  /** The label columns after `n` files: `group1`, then `group{j+2}` for file `j`. */
  lemma {:induction false} StageColumns(test: seq<Observation>, files: seq<seq<SplitUsers.Assignment>>, n: nat)
    requires n <= |files|
    ensures var columns := Stage(test, files, n).columns;
      && |columns| == n + 1 && columns[0] == "group1"
      && forall j :: 0 <= j < n ==> columns[j + 1] == GroupColumn(j)
  {
    if n > 0 {
      StageColumns(test, files, n - 1);
    }
  }

  /** User `u` has a row in the group file. */
  predicate InFile(file: seq<SplitUsers.Assignment>, u: int) {
    exists a :: a in file && a.userId == u
  }

  /** Row `x` of the table after `n` files comes from a test row, has its own user
      as its `group1` label, and has for every file `j` a `group{j+2}` label that
      file assigns to the user. */
  predicate StageRow(x: LabelledRow, test: seq<Observation>, files: seq<seq<SplitUsers.Assignment>>, n: nat)
    requires n <= |files|
  {
    && Unlabelled(x) in test
    && "group1" in x.labels && x.labels["group1"] == x.userId
    && forall j :: 0 <= j < n ==>
      GroupColumn(j) in x.labels && SplitUsers.Assignment(x.userId, x.labels[GroupColumn(j)]) in files[j]
  }

  /** Every row of the table after `n` files is a `StageRow`, whose labels are
      exactly the table's columns. */
  lemma {:induction false} StageRows(test: seq<Observation>, files: seq<seq<SplitUsers.Assignment>>, n: nat)
    requires n <= |files|
    ensures forall x :: x in Stage(test, files, n).rows ==>
      StageRow(x, test, files, n) && x.labels.Keys == Elements(Stage(test, files, n).columns)
  {
    var t := Stage(test, files, n);
    if n == 0 {
      forall x | x in t.rows ensures StageRow(x, test, files, n) && x.labels.Keys == Elements(t.columns) {
        var k :| 0 <= k < |t.rows| && t.rows[k] == x;
      }
    } else {
      var prev := Stage(test, files, n - 1);
      var column := GroupColumn(n - 1);
      StageRows(test, files, n - 1);
      MergeGroupSpec(prev.rows, files[n - 1], column);
      assert Elements(t.columns) == Elements(prev.columns) + {column};
      forall x | x in t.rows ensures StageRow(x, test, files, n) && x.labels.Keys == Elements(t.columns) {
        var r, a :| r in prev.rows && a in files[n - 1] && a.userId == r.userId && x == Joined(r, a, column);
        JoinedStageRow(r, a, test, files, n, Elements(prev.columns));
      }
    }
  }

  /** Joining a row of the table after `n - 1` files with a row of file `n - 1` for
      the same user gives a row of the table after `n` files. */
  lemma JoinedStageRow(r: LabelledRow, a: SplitUsers.Assignment, test: seq<Observation>,
                       files: seq<seq<SplitUsers.Assignment>>, n: nat, columns: set<string>)
    requires 0 < n <= |files|
    requires StageRow(r, test, files, n - 1) && r.labels.Keys == columns
    requires a in files[n - 1] && a.userId == r.userId
    ensures StageRow(Joined(r, a, GroupColumn(n - 1)), test, files, n)
    ensures Joined(r, a, GroupColumn(n - 1)).labels.Keys == columns + {GroupColumn(n - 1)}
  {
    var x := Joined(r, a, GroupColumn(n - 1));
    GroupColumnInjective(n - 1, n - 1);
    forall j | 0 <= j < n
      ensures GroupColumn(j) in x.labels && SplitUsers.Assignment(x.userId, x.labels[GroupColumn(j)]) in files[j]
    {
      GroupColumnInjective(j, n - 1);
    }
  }

  /** A test row whose user is in every one of the first `n` files is kept. */
  lemma {:induction false} StageKeeps(test: seq<Observation>, files: seq<seq<SplitUsers.Assignment>>, n: nat,
                                      o: Observation)
    requires n <= |files| && o in test
    requires forall j :: 0 <= j < n ==> InFile(files[j], o.userId)
    ensures exists x :: x in Stage(test, files, n).rows && Unlabelled(x) == o
  {
    if n == 0 {
      var k :| 0 <= k < |test| && test[k] == o;
      assert OwnGroups(test)[k] in Stage(test, files, n).rows;
    } else {
      StageKeeps(test, files, n - 1, o);
      var prev := Stage(test, files, n - 1);
      var r :| r in prev.rows && Unlabelled(r) == o;
      assert InFile(files[n - 1], o.userId);
      var a :| a in files[n - 1] && a.userId == o.userId;
      MergeGroupSpec(prev.rows, files[n - 1], GroupColumn(n - 1));
      assert Joined(r, a, GroupColumn(n - 1)) in Stage(test, files, n).rows;
    }
  }

  /** The table after all `n` files: its columns, its rows, and which test rows it
      keeps: exactly those whose user is in every file. */
  lemma StageSpec(test: seq<Observation>, files: seq<seq<SplitUsers.Assignment>>, n: nat)
    requires n <= |files|
    ensures var t := Stage(test, files, n);
      && |t.columns| == n + 1 && t.columns[0] == "group1"
      && (forall j :: 0 <= j < n ==> t.columns[j + 1] == GroupColumn(j))
      && (forall x :: x in t.rows ==> StageRow(x, test, files, n) && x.labels.Keys == Elements(t.columns))
      && forall o :: o in test ==>
        ((exists x :: x in t.rows && Unlabelled(x) == o) <==> forall j :: 0 <= j < n ==> InFile(files[j], o.userId))
  {
    var t := Stage(test, files, n);
    StageColumns(test, files, n);
    StageRows(test, files, n);
    forall o | o in test
      ensures (exists x :: x in t.rows && Unlabelled(x) == o) <==> forall j :: 0 <= j < n ==> InFile(files[j], o.userId)
    {
      if exists x :: x in t.rows && Unlabelled(x) == o {
        var x :| x in t.rows && Unlabelled(x) == o;
        forall j | 0 <= j < n ensures InFile(files[j], o.userId) {
          assert SplitUsers.Assignment(x.userId, x.labels[GroupColumn(j)]) in files[j];
        }
      }
      if forall j :: 0 <= j < n ==> InFile(files[j], o.userId) {
        StageKeeps(test, files, n, o);
      }
    }
  }

  /** `get_train_test`: the test ratings, labelled `group1` by their own user and then
      merged with each group file in turn, the file's `group` column becoming
      `group{i+2}`. The training ratings are returned as they were read. */
  method GetTrainTest(train: seq<Observation>, test: seq<Observation>, groupsList: seq<string>,
                      groupFile: string -> seq<SplitUsers.Assignment>)
    returns (trainData: seq<Observation>, testData: TestTable)
    ensures trainData == train
    ensures testData == Stage(test, GroupFiles(groupsList, groupFile), |GroupFiles(groupsList, groupFile)|)
  {
    var files := GroupFiles(groupsList, groupFile);
    testData := TestTable(["group1"], OwnGroups(test));
    var rest := if |groupsList| == 0 then [] else groupsList[1..];
    assert |rest| == |files|;
    var i := 0;
    while i < |rest|
      invariant 0 <= i <= |rest|
      invariant testData == Stage(test, files, i)
    {
      var group := groupFile(rest[i]);
      assert group == files[i];
      testData := TestTable(testData.columns + [GroupColumn(i)], MergeGroup(testData.rows, group, GroupColumn(i)));
      i := i + 1;
    }
    trainData := train;
  }

  // ---------------------------------------------------------------------------
  // get_unwatched

  /** The `movieId` column. */
  function MovieColumn(rows: seq<Observation>): (ids: seq<int>)
    ensures |ids| == |rows|
    ensures forall k :: 0 <= k < |rows| ==> ids[k] == rows[k].movieId
  {
    seq(|rows|, k requires 0 <= k < |rows| => rows[k].movieId)
  }

  /** The distinct users who rated movie `m`. */
  function Raters(train: seq<Observation>, m: int): set<int> {
    set o | o in train && o.movieId == m :: o.userId
  }

  /** `agg({'userId': 'nunique'})` for movie `m`: the `userCount` column. */
  function UserCount(train: seq<Observation>, m: int): nat {
    |Raters(train, m)|
  }

  /** `top_popular_movies.movieId.values`: every training movie once, by
      non-increasing number of distinct raters. The sort is not stable, so the order
      of movies with equal counts is not stated. */
  function PopularityRanking(train: seq<Observation>): (ranking: seq<int>)
    ensures Distinct(ranking)
    ensures forall m :: m in ranking <==> exists o :: o in train && o.movieId == m
    ensures forall i, j :: 0 <= i < j < |ranking| ==> UserCount(train, ranking[i]) >= UserCount(train, ranking[j])
  {
    var column := MovieColumn(train);
    var ids := UniqueSorted(column);
    var key := (m: int) => UserCount(train, m) as real;
    DescendingIsTotalPreorder(key);
    var ranking := Sort(ids, Descending(key));
    assert Distinct(ids);
    DistinctOccursOnce(ids);
    OccursOnceDistinct(ranking);
    assert forall m :: m in ranking <==> m in ids by {
      forall m ensures m in ranking <==> m in ids {
        assert m in ranking <==> m in multiset(ranking);
      }
    }
    assert forall m :: m in column <==> exists o :: o in train && o.movieId == m by {
      forall m | m in column ensures exists o :: o in train && o.movieId == m {
        var k :| 0 <= k < |column| && column[k] == m;
        assert train[k] in train;
      }
    }
    assert forall i, j :: 0 <= i < j < |ranking| ==> Descending(key)(ranking[i], ranking[j]);
    ranking
  }

  /** The `userId` column. */
  function UserColumn(rows: seq<Observation>): (ids: seq<int>)
    ensures |ids| == |rows|
    ensures forall k :: 0 <= k < |rows| ==> ids[k] == rows[k].userId
  {
    seq(|rows|, k requires 0 <= k < |rows| => rows[k].userId)
  }

  /** The keys of `groupby(by='userId')`: every training user once, increasing. */
  function TrainUsers(train: seq<Observation>): (users: seq<int>)
    ensures forall i, j :: 0 <= i < j < |users| ==> users[i] < users[j]
    ensures forall u :: u in users <==> exists o :: o in train && o.userId == u
  {
    var column := UserColumn(train);
    assert forall u :: u in column <==> exists o :: o in train && o.userId == u by {
      forall u | u in column ensures exists o :: o in train && o.userId == u {
        var k :| 0 <= k < |column| && column[k] == u;
        assert train[k] in train;
      }
    }
    UniqueSorted(column)
  }

  /** `agg({'movieId': list})` for user `u`: the movies the user rated. */
  function WatchedBy(train: seq<Observation>, u: int): (ids: seq<int>)
    ensures forall m :: m in ids <==> exists o :: o in train && o.userId == u && o.movieId == m
  {
    var own := Filter(train, (o: Observation) => o.userId == u);
    var ids := MovieColumn(own);
    assert forall m :: m in ids <==> exists o :: o in own && o.movieId == m by {
      forall m | m in ids ensures exists o :: o in own && o.movieId == m {
        var k :| 0 <= k < |ids| && ids[k] == m;
        assert own[k] in own;
      }
    }
    ids
  }

  /** `movie_ids[np.isin(movie_ids, x, invert=True)]` for user `u`'s list `x`. */
  function Unwatched(train: seq<Observation>, u: int): seq<int> {
    var watched := WatchedBy(train, u);
    Filter(PopularityRanking(train), m => m !in watched)
  }

  /** A user's unwatched list keeps the popularity order, leaves out exactly the
      movies the user rated, and together with them covers every training movie
      once. */
  lemma UnwatchedSpec(train: seq<Observation>, u: int)
    ensures var ranking, unwatched, watched := PopularityRanking(train), Unwatched(train, u), WatchedBy(train, u);
      && IsSubsequence(unwatched, ranking)
      && (forall i, j :: 0 <= i < j < |unwatched| ==> UserCount(train, unwatched[i]) >= UserCount(train, unwatched[j]))
      && (forall m :: m in unwatched ==> m !in watched)
      && forall m :: m in ranking ==> (m in watched <==> m !in unwatched)
  {
    var ranking, unwatched := PopularityRanking(train), Unwatched(train, u);
    var key := (m: int) => UserCount(train, m) as real;
    assert SortedBy(ranking, Descending(key));
    SubsequenceSorted(unwatched, ranking, Descending(key));
    assert forall i, j :: 0 <= i < j < |unwatched| ==> Descending(key)(unwatched[i], unwatched[j]);
  }

  /** A row of the `unwatched` table. */
  datatype UnwatchedRow = UnwatchedRow(userId: int, unwatched: seq<int>)

  /** The `userId` column of the `unwatched` table. */
  function UnwatchedUsers(rows: seq<UnwatchedRow>): (ids: seq<int>)
    ensures |ids| == |rows|
    ensures forall k :: 0 <= k < |rows| ==> ids[k] == rows[k].userId
  {
    seq(|rows|, k requires 0 <= k < |rows| => rows[k].userId)
  }

  /** `get_unwatched`: every training user once, in increasing order, with their
      unwatched list. */
  function GetUnwatched(train: seq<Observation>): (rows: seq<UnwatchedRow>)
    ensures forall i, j :: 0 <= i < j < |rows| ==> rows[i].userId < rows[j].userId
    ensures forall u :: u in UnwatchedUsers(rows) <==> exists o :: o in train && o.userId == u
    ensures forall k :: 0 <= k < |rows| ==> rows[k].unwatched == Unwatched(train, rows[k].userId)
  {
    var users := TrainUsers(train);
    var rows := seq(|users|, k requires 0 <= k < |users| => UnwatchedRow(users[k], Unwatched(train, users[k])));
    assert UnwatchedUsers(rows) == users;
    rows
  }

  // ---------------------------------------------------------------------------
  // get_users_watch_history

  /** A row of `users_watch_history`: a test user, the user's first label in every
      grouping, and the user's `movieId` and `rating` lists. */
  datatype WatchHistory = WatchHistory(userId: int, labels: map<string, int>, movieIds: seq<int>, ratings: seq<real>)

  /** Every row has a label for exactly the table's columns. */
  predicate Rectangular(t: TestTable) {
    forall x :: x in t.rows ==> x.labels.Keys == Elements(t.columns)
  }

  /** The order of `sort_values(by='rating', ascending=False)`. */
  function ByRatingDescending(): (LabelledRow, LabelledRow) -> bool {
    Descending((x: LabelledRow) => x.rating)
  }

  /** The test rows sorted by decreasing rating (ties in no particular order). */
  function SortedByRating(rows: seq<LabelledRow>): (sorted: seq<LabelledRow>)
    ensures multiset(sorted) == multiset(rows)
    ensures forall i, j :: 0 <= i < j < |sorted| ==> sorted[i].rating >= sorted[j].rating
  {
    DescendingIsTotalPreorder((x: LabelledRow) => x.rating);
    var sorted := Sort(rows, ByRatingDescending());
    assert forall i, j :: 0 <= i < j < |sorted| ==> ByRatingDescending()(sorted[i], sorted[j]);
    sorted
  }

  /** The rows of user `u`, in the order of `rows`. */
  function RowsOf(rows: seq<LabelledRow>, u: int): seq<LabelledRow> {
    Filter(rows, (x: LabelledRow) => x.userId == u)
  }

  /** The `(movieId, rating)` pair of a row. */
  function Pair(x: LabelledRow): (int, real) {
    (x.movieId, x.rating)
  }

  /** The aggregation of one user's group of the sorted rows: `first` of every
      grouping column and the `movieId` and `rating` lists. */
  function HistoryOf(sorted: seq<LabelledRow>, u: int, groups: seq<string>): WatchHistory {
    var own := RowsOf(sorted, u);
    var labels := if own == [] then map[] else LabelsFrom(own[0], groups);
    WatchHistory(u, labels, MapSeq(own, (x: LabelledRow) => x.movieId), MapSeq(own, (x: LabelledRow) => x.rating))
  }

  /** The keys of `groupby(by='userId')` on the test rows. */
  function TestUsers(rows: seq<LabelledRow>): (users: seq<int>)
    ensures forall i, j :: 0 <= i < j < |users| ==> users[i] < users[j]
    ensures forall u :: u in users <==> exists x :: x in rows && x.userId == u
  {
    var column := MapSeq(rows, (x: LabelledRow) => x.userId);
    assert forall u :: u in column <==> exists x :: x in rows && x.userId == u by {
      forall u | u in column ensures exists x :: x in rows && x.userId == u {
        var k :| 0 <= k < |column| && column[k] == u;
        assert rows[k] in rows;
      }
    }
    UniqueSorted(column)
  }

  /** The aggregated rows of `get_users_watch_history`, one per test user. */
  function Histories(rows: seq<LabelledRow>, groups: seq<string>): (hs: seq<WatchHistory>)
    ensures |hs| == |TestUsers(rows)|
    ensures forall k :: 0 <= k < |hs| ==> hs[k].userId == TestUsers(rows)[k]
  {
    var sorted, users := SortedByRating(rows), TestUsers(rows);
    seq(|users|, k requires 0 <= k < |users| => HistoryOf(sorted, users[k], groups))
  }

  /** The columns aggregated as lists. In the aggregation's dict literal their
      entries come after the groupings' `first` entries and replace them. */
  predicate ListColumn(g: string) {
    g == "movieId" || g == "rating"
  }

  /** The groupings whose `first` entry survives in the aggregation's dict. */
  function LabelGroups(groups: seq<string>): (r: seq<string>)
    ensures forall g :: g in r <==> g in groups && !ListColumn(g)
  {
    Filter(groups, (g: string) => !ListColumn(g))
  }

  /** `get_users_watch_history`: one row per test user, in increasing user order.
      A grouping that is neither a label column of the table nor a list column
      raises `KeyError`, here `Err`. A grouping named `movieId` or `rating` raises
      nothing and yields no label, since its `first` entry is overwritten. */
  function GetUsersWatchHistory(t: TestTable, groups: seq<string>): (r: Result<seq<WatchHistory>>)
    ensures r.Ok? <==> forall g :: g in groups ==> g in t.columns || ListColumn(g)
    ensures r.Ok? ==> r.value == Histories(t.rows, LabelGroups(groups))
  {
    if exists g :: g in groups && g !in t.columns && !ListColumn(g) then Err("KeyError")
    else Ok(Histories(t.rows, LabelGroups(groups)))
  }

  /** Grouping by `rating` alone succeeds on every table, and the histories carry
      no label: the `rating` list replaces the grouping's `first` entry. */
  lemma ListGroupingHasNoLabel(t: TestTable)
    ensures GetUsersWatchHistory(t, ["rating"]).Ok?
    ensures forall h :: h in GetUsersWatchHistory(t, ["rating"]).value ==> h.labels == map[]
  {
    var groups := LabelGroups(["rating"]);
    assert groups == [];
    forall h | h in Histories(t.rows, groups) ensures h.labels == map[] {
      var k :| 0 <= k < |Histories(t.rows, groups)| && Histories(t.rows, groups)[k] == h;
    }
  }

  /** The `(movieId, rating)` pairs of a watch history, position by position. */
  function HistoryPairs(h: WatchHistory): (pairs: seq<(int, real)>)
    requires |h.movieIds| == |h.ratings|
    ensures |pairs| == |h.movieIds|
  {
    seq(|h.movieIds|, i requires 0 <= i < |h.movieIds| => (h.movieIds[i], h.ratings[i]))
  }

  /** The `userId` column of the history rows. */
  function HistoryUsers(hs: seq<WatchHistory>): seq<int> {
    MapSeq(hs, (h: WatchHistory) => h.userId)
  }

  /** The history rows are the test users, each once, in increasing order. */
  lemma WatchHistoryUsers(rows: seq<LabelledRow>, groups: seq<string>)
    ensures var ids := HistoryUsers(Histories(rows, groups));
      && (forall i, j :: 0 <= i < j < |ids| ==> ids[i] < ids[j])
      && Elements(ids) == set x | x in rows :: x.userId
  {
    var ids, users := HistoryUsers(Histories(rows, groups)), TestUsers(rows);
    assert ids == users;
    assert Elements(users) == set x | x in rows :: x.userId by {
      forall u | u in users ensures u in set x | x in rows :: x.userId {
        var x :| x in rows && x.userId == u;
      }
    }
  }

  /** One history row: the `movieId` and `rating` lists line up, are not empty,
      and the ratings never increase. */
  lemma WatchHistoryLists(rows: seq<LabelledRow>, groups: seq<string>, k: int)
    requires 0 <= k < |Histories(rows, groups)|
    ensures var h := Histories(rows, groups)[k];
      && |h.movieIds| == |h.ratings| > 0
      && forall i, j :: 0 <= i < j < |h.ratings| ==> h.ratings[i] >= h.ratings[j]
  {
    var sorted, u := SortedByRating(rows), TestUsers(rows)[k];
    assert u in TestUsers(rows);
    FirstRowOf(rows, u);
    var own := RowsOf(sorted, u);
    assert Histories(rows, groups)[k].ratings == MapSeq(own, (x: LabelledRow) => x.rating);
    assert SortedBy(sorted, ByRatingDescending());
    SubsequenceSorted(own, sorted, ByRatingDescending());
  }

  /** One history row: its `(movieId, rating)` pairs are exactly those of the
      user's test rows, as a multiset. */
  lemma WatchHistoryPairs(rows: seq<LabelledRow>, groups: seq<string>, k: int)
    requires 0 <= k < |Histories(rows, groups)|
    ensures var h := Histories(rows, groups)[k];
      && |h.movieIds| == |h.ratings|
      && multiset(HistoryPairs(h)) == multiset(MapSeq(RowsOf(rows, h.userId), Pair))
  {
    var sorted, u := SortedByRating(rows), TestUsers(rows)[k];
    var h := Histories(rows, groups)[k];
    var own := RowsOf(sorted, u);
    assert h == HistoryOf(sorted, u, groups);
    FilterPermutation(sorted, rows, (x: LabelledRow) => x.userId == u);
    assert HistoryPairs(h) == MapSeq(own, Pair);
    MapSeqPermutation(own, RowsOf(rows, u), Pair);
  }

  /** The first of a user's rows after the sort is one of the user's rows with the
      user's highest rating. */
  lemma FirstRowOf(rows: seq<LabelledRow>, u: int)
    requires u in TestUsers(rows)
    ensures var own := RowsOf(SortedByRating(rows), u);
      && own != [] && own[0] in rows && own[0].userId == u
      && forall y :: y in rows && y.userId == u ==> own[0].rating >= y.rating
  {
    var sorted := SortedByRating(rows);
    var own := RowsOf(sorted, u);
    var z :| z in rows && z.userId == u;
    assert z in multiset(sorted);
    assert own != [];
    assert own[0] in multiset(sorted);
    assert SortedBy(sorted, ByRatingDescending());
    SubsequenceSorted(own, sorted, ByRatingDescending());
    forall y | y in rows && y.userId == u ensures own[0].rating >= y.rating {
      assert y in multiset(sorted);
      var j :| 0 <= j < |own| && own[j] == y;
      if j > 0 {
        assert ByRatingDescending()(own[0], own[j]);
      }
    }
  }

  /** The first of a user's rows after the sort: one of the user's rows with the
      user's highest rating (which one among equal ratings is not specified). */
  function FirstRated(rows: seq<LabelledRow>, u: int): (x: LabelledRow)
    requires u in TestUsers(rows)
    ensures x in rows && x.userId == u
    ensures forall y :: y in rows && y.userId == u ==> x.rating >= y.rating
  {
    FirstRowOf(rows, u);
    RowsOf(SortedByRating(rows), u)[0]
  }

  /** `first` of every grouping taken from a row that has a label for every column. */
  function LabelsFrom(x: LabelledRow, groups: seq<string>): map<string, int> {
    map g | g in groups && g in x.labels :: x.labels[g]
  }

  /** A row labelled for every column gives one label per grouping. */
  lemma LabelsFromColumns(x: LabelledRow, groups: seq<string>, columns: seq<string>)
    requires x.labels.Keys == Elements(columns) && forall g :: g in groups ==> g in columns
    ensures LabelsFrom(x, groups).Keys == Elements(groups)
    ensures forall g :: g in groups ==> g in x.labels && LabelsFrom(x, groups)[g] == x.labels[g]
  {
    forall g | g in groups ensures g in x.labels {
      assert g in Elements(columns);
    }
  }

  /** One history row's labels: when every test row has a label for exactly the
      table's columns and every grouping is a column, the row holds one label per
      grouping, all taken from the user's first row after the sort (`first`). */
  lemma WatchHistoryLabels(t: TestTable, groups: seq<string>, k: int)
    requires Rectangular(t) && forall g :: g in groups ==> g in t.columns
    requires 0 <= k < |Histories(t.rows, groups)|
    ensures var h := Histories(t.rows, groups)[k];
      && h.userId in TestUsers(t.rows)
      && h.labels.Keys == Elements(groups)
      && forall g :: g in groups ==>
           g in FirstRated(t.rows, h.userId).labels && h.labels[g] == FirstRated(t.rows, h.userId).labels[g]
  {
    var u := TestUsers(t.rows)[k];
    assert u in TestUsers(t.rows);
    FirstRowOf(t.rows, u);
    var x := FirstRated(t.rows, u);
    assert Histories(t.rows, groups)[k].labels == LabelsFrom(x, groups);
    LabelsFromColumns(x, groups, t.columns);
  }

  // ---------------------------------------------------------------------------
  // get_recommender_data

  /** A history row joined with a row of `unwatched`; the recommendation columns
      are not there yet. */
  function Combined(h: WatchHistory, r: UnwatchedRow): Evaluation.UserRecord {
    Evaluation.UserRecord(h.userId, h.labels, h.movieIds, h.ratings, r.unwatched, map[])
  }

  /** The rows `merge(unwatched, on=['userId'])` makes of the history row `h`: one
      per `unwatched` row of the same user, in that table's order. */
  function MergeHistory(h: WatchHistory, un: seq<UnwatchedRow>): seq<Evaluation.UserRecord> {
    if un == [] then []
    else (if un[0].userId == h.userId then [Combined(h, un[0])] else []) + MergeHistory(h, un[1..])
  }

  /** `users_watch_history_test.merge(unwatched, on=['userId'])`: the inner join on
      `userId`, in the order of the history rows. */
  function MergeUnwatched(hs: seq<WatchHistory>, un: seq<UnwatchedRow>): seq<Evaluation.UserRecord> {
    if hs == [] then [] else MergeHistory(hs[0], un) + MergeUnwatched(hs[1..], un)
  }

  /** The rows made of one history row are the joins with its user's rows. */
  lemma {:induction false} MergeHistorySpec(h: WatchHistory, un: seq<UnwatchedRow>)
    ensures forall x :: x in MergeHistory(h, un) <==> exists r :: r in un && r.userId == h.userId && x == Combined(h, r)
  {
    if un != [] {
      MergeHistorySpec(h, un[1..]);
      assert forall r :: r in un <==> r == un[0] || r in un[1..] by {
        assert un == [un[0]] + un[1..];
      }
    }
  }

  /** The rows of the merge are exactly the joins of a history row with an
      `unwatched` row of the same user. */
  lemma {:induction false} MergeUnwatchedSpec(hs: seq<WatchHistory>, un: seq<UnwatchedRow>)
    ensures forall x :: x in MergeUnwatched(hs, un) <==>
      exists h, r :: h in hs && r in un && r.userId == h.userId && x == Combined(h, r)
  {
    if hs != [] {
      MergeUnwatchedSpec(hs[1..], un);
      MergeHistorySpec(hs[0], un);
      assert forall h :: h in hs <==> h == hs[0] || h in hs[1..] by {
        assert hs == [hs[0]] + hs[1..];
      }
    }
  }

  /** The users of a table without duplicate users, in strictly increasing order. */
  predicate IncreasingUnwatched(un: seq<UnwatchedRow>) {
    forall i, j :: 0 <= i < j < |un| ==> un[i].userId < un[j].userId
  }

  /** A history row whose user has no row in the table yields nothing. */
  lemma {:induction false} MergeHistoryNone(h: WatchHistory, un: seq<UnwatchedRow>)
    requires forall k :: 0 <= k < |un| ==> un[k].userId != h.userId
    ensures MergeHistory(h, un) == []
  {
    if un != [] {
      assert forall k :: 0 <= k < |un[1..]| ==> un[1..][k] == un[k + 1];
      MergeHistoryNone(h, un[1..]);
    }
  }

  /** Against a table with each user at most once, a history row yields at most
      one row. */
  lemma MergeHistoryAtMostOne(h: WatchHistory, un: seq<UnwatchedRow>)
    requires IncreasingUnwatched(un)
    ensures |MergeHistory(h, un)| <= 1
    ensures forall x :: x in MergeHistory(h, un) ==> x.userId == h.userId
  {
    MergeHistorySpec(h, un);
    if un != [] && un[0].userId == h.userId {
      assert forall k :: 0 <= k < |un[1..]| ==> un[1..][k].userId != h.userId by {
        assert forall k :: 0 <= k < |un[1..]| ==> un[1..][k] == un[k + 1];
      }
      MergeHistoryNone(h, un[1..]);
    } else if un != [] {
      MergeHistoryAtMostOne(h, un[1..]);
    }
  }

  /** The users of the recommender data, in strictly increasing order. */
  predicate IncreasingRecords(data: seq<Evaluation.UserRecord>) {
    forall i, j :: 0 <= i < j < |data| ==> data[i].userId < data[j].userId
  }

  /** Merging histories in strictly increasing user order with a table holding each
      user at most once keeps the users strictly increasing. */
  lemma {:induction false} MergeUnwatchedIncreasing(hs: seq<WatchHistory>, un: seq<UnwatchedRow>)
    requires forall i, j :: 0 <= i < j < |hs| ==> hs[i].userId < hs[j].userId
    requires IncreasingUnwatched(un)
    ensures IncreasingRecords(MergeUnwatched(hs, un))
    decreases |hs|
  {
    if hs != [] {
      var head, tail := MergeHistory(hs[0], un), MergeUnwatched(hs[1..], un);
      MergeUnwatchedIncreasing(hs[1..], un);
      MergeHistoryAtMostOne(hs[0], un);
      MergeUnwatchedSpec(hs[1..], un);
      forall k | 0 <= k < |tail| ensures tail[k].userId > hs[0].userId {
        assert tail[k] in tail;
        var h, r :| h in hs[1..] && r in un && r.userId == h.userId && tail[k] == Combined(h, r);
        var j :| 0 <= j < |hs[1..]| && hs[1..][j] == h;
        assert hs[j + 1] == h;
      }
      var data := head + tail;
      forall i, j | 0 <= i < j < |data| ensures data[i].userId < data[j].userId {
        if i < |head| {
          assert data[i] == head[i] && head[i] in head;
          assert data[j] == tail[j - |head|];
          assert data[i].userId == hs[0].userId < tail[j - |head|].userId;
        } else {
          var a, b := i - |head|, j - |head|;
          assert 0 <= a < b < |tail|;
          assert data[i] == tail[a] && data[j] == tail[b];
        }
      }
    }
  }

  /** The `userId` column of the recommender data. */
  function RecordUsers(data: seq<Evaluation.UserRecord>): seq<int> {
    MapSeq(data, (x: Evaluation.UserRecord) => x.userId)
  }

  /** Record `x` carries the labels and the history lists of history row `h`. */
  predicate FromHistory(x: Evaluation.UserRecord, h: WatchHistory) {
    x.userId == h.userId && x.labels == h.labels && x.movieIds == h.movieIds && x.ratings == h.ratings
  }

  /** The recommender data built from the training ratings and the labelled test
      table. */
  function RecommenderRows(train: seq<Observation>, t: TestTable, groups: seq<string>): seq<Evaluation.UserRecord> {
    MergeUnwatched(Histories(t.rows, groups), GetUnwatched(train))
  }

  /** The records are in strictly increasing user order. */
  lemma RecommenderRowsOrder(train: seq<Observation>, t: TestTable, groups: seq<string>)
    ensures IncreasingRecords(RecommenderRows(train, t, groups))
  {
    MergeUnwatchedIncreasing(Histories(t.rows, groups), GetUnwatched(train));
  }

  /** Every record carries one of the history rows and its user's unwatched movies,
      has no recommendations yet, and (for a table labelled for every column and
      groupings that are columns) is labelled for every grouping. */
  lemma RecommenderRowsContent(train: seq<Observation>, t: TestTable, groups: seq<string>)
    requires Rectangular(t) && forall g :: g in groups ==> g in t.columns
    ensures Evaluation.Labelled(RecommenderRows(train, t, groups), groups)
    ensures forall x :: x in RecommenderRows(train, t, groups) ==>
      x.recs == map[] && x.unwatched == Unwatched(train, x.userId)
    ensures forall x :: x in RecommenderRows(train, t, groups) ==>
      exists k :: 0 <= k < |Histories(t.rows, groups)| && FromHistory(x, Histories(t.rows, groups)[k])
  {
    var hs, un := Histories(t.rows, groups), GetUnwatched(train);
    var data := RecommenderRows(train, t, groups);
    MergeUnwatchedSpec(hs, un);
    forall x | x in data
      ensures x.recs == map[] && x.unwatched == Unwatched(train, x.userId)
      ensures exists k :: 0 <= k < |hs| && FromHistory(x, hs[k])
      ensures forall g :: g in groups ==> g in x.labels
    {
      var h, r :| h in hs && r in un && r.userId == h.userId && x == Combined(h, r);
      var k :| 0 <= k < |hs| && hs[k] == h;
      var i :| 0 <= i < |un| && un[i] == r;
      assert FromHistory(x, hs[k]);
      WatchHistoryLabels(t, groups, k);
      forall g | g in groups ensures g in x.labels {
        assert g in Elements(groups);
      }
    }
  }

  /** The users of the merge are the users of both sides. */
  lemma MergeUnwatchedUsers(hs: seq<WatchHistory>, un: seq<UnwatchedRow>)
    ensures Elements(RecordUsers(MergeUnwatched(hs, un))) == Elements(HistoryUsers(hs)) * Elements(UnwatchedUsers(un))
  {
    var data := MergeUnwatched(hs, un);
    MergeUnwatchedSpec(hs, un);
    forall u | u in Elements(RecordUsers(data)) ensures u in HistoryUsers(hs) && u in UnwatchedUsers(un) {
      var m :| 0 <= m < |data| && RecordUsers(data)[m] == u;
      assert data[m] in data;
      var h, r :| h in hs && r in un && r.userId == h.userId && data[m] == Combined(h, r);
      var k :| 0 <= k < |hs| && hs[k] == h;
      assert HistoryUsers(hs)[k] == u;
      var i :| 0 <= i < |un| && un[i] == r;
      assert UnwatchedUsers(un)[i] == u;
    }
    forall u | u in HistoryUsers(hs) && u in UnwatchedUsers(un) ensures u in Elements(RecordUsers(data)) {
      var k :| 0 <= k < |hs| && HistoryUsers(hs)[k] == u;
      var i :| 0 <= i < |un| && UnwatchedUsers(un)[i] == u;
      var x := Combined(hs[k], un[i]);
      assert hs[k] in hs && un[i] in un;
      assert x in data;
      var m :| 0 <= m < |data| && data[m] == x;
      assert RecordUsers(data)[m] == u;
    }
  }

  /** The records' users are exactly the users present in both the test table and
      the training data (the inner join on `userId`). */
  lemma RecommenderRowsUsers(train: seq<Observation>, t: TestTable, groups: seq<string>)
    ensures Elements(RecordUsers(RecommenderRows(train, t, groups)))
      == (set x | x in t.rows :: x.userId) * (set o | o in train :: o.userId)
  {
    var hs, un := Histories(t.rows, groups), GetUnwatched(train);
    MergeUnwatchedUsers(hs, un);
    WatchHistoryUsers(t.rows, groups);
    UnwatchedUserSet(train);
  }

  /** The unwatched table has a row for every user of the training data. */
  lemma UnwatchedUserSet(train: seq<Observation>)
    ensures Elements(UnwatchedUsers(GetUnwatched(train))) == set o | o in train :: o.userId
  {
    var un := GetUnwatched(train);
    forall u | u in UnwatchedUsers(un) ensures u in set o | o in train :: o.userId {
      var o :| o in train && o.userId == u;
    }
  }

  /** The test table `get_train_test` returns. */
  function StagedTest(test: seq<Observation>, groupsList: seq<string>,
                      groupFile: string -> seq<SplitUsers.Assignment>): TestTable
  {
    Stage(test, GroupFiles(groupsList, groupFile), |GroupFiles(groupsList, groupFile)|)
  }

  /** `g` names a label column of a test table merged with `n` group files. */
  predicate KnownColumn(g: string, n: nat) {
    g == "group1" || exists j :: 0 <= j < n && g == GroupColumn(j)
  }

  /** The label columns of the merged test table are `group1` and one per group file. */
  lemma StagedColumns(test: seq<Observation>, groupsList: seq<string>,
                      groupFile: string -> seq<SplitUsers.Assignment>)
    ensures forall g :: g in StagedTest(test, groupsList, groupFile).columns <==>
      KnownColumn(g, |GroupFiles(groupsList, groupFile)|)
  {
    var files := GroupFiles(groupsList, groupFile);
    var columns := StagedTest(test, groupsList, groupFile).columns;
    StageColumns(test, files, |files|);
    forall g ensures g in columns <==> KnownColumn(g, |files|) {
      if g in columns {
        var m :| 0 <= m < |columns| && columns[m] == g;
        if m > 0 {
          assert columns[(m - 1) + 1] == GroupColumn(m - 1);
        }
      }
      if KnownColumn(g, |files|) && g != "group1" {
        var j :| 0 <= j < |files| && g == GroupColumn(j);
        assert columns[j + 1] == g;
      }
    }
  }

  /** `get_recommender_data`: the labelled test ratings aggregated per user, joined
      on `userId` with the training users' unwatched movies. A grouping that is
      neither `group1`, nor the column of a group file, nor a list column is not
      a label column of the test table, and the aggregation raises `KeyError`.
      Groupings named after a list column give no label. */
  method GetRecommenderData(train: seq<Observation>, test: seq<Observation>, groupsList: seq<string>,
                            groupFile: string -> seq<SplitUsers.Assignment>)
    returns (result: Result<seq<Evaluation.UserRecord>>)
    ensures result.Ok? <==> forall g :: g in groupsList ==>
      KnownColumn(g, |GroupFiles(groupsList, groupFile)|) || ListColumn(g)
    ensures result.Ok? ==>
      result.value == RecommenderRows(train, StagedTest(test, groupsList, groupFile), LabelGroups(groupsList))
    ensures result.Ok? ==> IncreasingRecords(result.value) && Evaluation.Labelled(result.value, LabelGroups(groupsList))
    ensures result.Ok? ==> forall x :: x in result.value ==>
      x.recs == map[] && x.unwatched == Unwatched(train, x.userId)
    ensures result.Ok? ==>
      Elements(RecordUsers(result.value))
        == (set x | x in StagedTest(test, groupsList, groupFile).rows :: x.userId) * (set o | o in train :: o.userId)
  {
    var trainData, testData := GetTrainTest(train, test, groupsList, groupFile);
    assert testData == StagedTest(test, groupsList, groupFile);
    var unwatched := GetUnwatched(trainData);
    var history := GetUsersWatchHistory(testData, groupsList);
    StagedColumns(test, groupsList, groupFile);
    if history.Err? {
      return Err(history.message);
    }
    result := Ok(MergeUnwatched(history.value, unwatched));
    var files := GroupFiles(groupsList, groupFile);
    StageRows(test, files, |files|);
    assert Rectangular(testData);
    RecommenderRowsOrder(train, testData, LabelGroups(groupsList));
    RecommenderRowsContent(train, testData, LabelGroups(groupsList));
    RecommenderRowsUsers(train, testData, LabelGroups(groupsList));
  }
}
