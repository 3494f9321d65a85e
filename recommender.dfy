/** The group recommendation engine (`GroupRecommender` in recommender.py): rating
    preprocessing, the unwatched candidate pool, the two ranking strategies and the
    final join with the catalog. The embedding distances are an input (`distance`),
    and the SVD factors are an input (`Factors`): float training and `cdist` are not
    part of this model. */
module Recommender {
  import opened Wrappers
  import opened Sequences
  import opened Sorting
  import opened ArraySets
  import opened Ratings

  /** A catalog row of `movies.feather`. */
  datatype Movie = Movie(movieId: int, title: string)

  /** A rating as the collector submits it. */
  datatype RawRating = RawRating(username: string, movie: string, rating: int)

  /** How many movies a recommendation has at most (`[:10]`). */
  const TopCount: nat := 10
  /** Groups of at most this size use content embeddings, larger ones SVD. */
  const EmbeddingMaxGroupSize: int := 3
  /** `SVD(n_factors=17, n_epochs=30)`. */
  const SvdFactors: nat := 17
  const SvdEpochs: nat := 30

  // ---------------------------------------------------------------------------
  // Synthetic user ids

  /** The `username` column. */
  function Usernames(raw: seq<RawRating>): (names: seq<string>)
    ensures |names| == |raw|
    ensures forall k :: 0 <= k < |raw| ==> names[k] == raw[k].username
  {
    seq(|raw|, k requires 0 <= k < |raw| => raw[k].username)
  }

  /** The distinct usernames of a submission. */
  function NameSet(raw: seq<RawRating>): set<string> {
    set r | r in raw :: r.username
  }

  predicate LexLess(a: string, b: string) {
    !LexLe(b, a)
  }

  /** `np.sort(group_ratings.username.unique())`. */
  function SortedUsernames(raw: seq<RawRating>): (names: seq<string>)
    ensures Distinct(names) && SortedBy(names, LexLe)
    ensures Elements(names) == NameSet(raw)
  {
    LexLeIsTotalOrder();
    var column := Usernames(raw);
    var names := SortUnique(column, LexLe);
    assert forall u :: u in column <==> u in NameSet(raw) by {
      forall u ensures u in column <==> u in NameSet(raw) {
        if u in column {
          var k :| 0 <= k < |column| && column[k] == u;
          assert raw[k] in raw;
        }
      }
    }
    names
  }

  /** `dict(zip(names, range(start, start + len(names))))`. */
  function PositionMap(names: seq<string>, start: int): (ids: map<string, int>)
    requires Distinct(names)
    ensures ids.Keys == Elements(names)
    ensures forall i :: 0 <= i < |names| ==> ids[names[i]] == start + i
  {
    if names == [] then map[]
    else
      var init := names[..|names| - 1];
      assert names == init + [names[|names| - 1]];
      PositionMap(init, start)[names[|names| - 1] := start + |names| - 1]
  }

  /** `userid_mapping`: the i-th username in sorted order gets `start + i`. Its contract
      gives the same id without the sort: `start` plus the number of distinct
      usernames that sort before this one. */
  function UserIdMapping(raw: seq<RawRating>, start: int): (ids: map<string, int>)
    ensures ids.Keys == NameSet(raw)
    ensures forall u :: u in ids ==>
      ids[u] == start + |set v | v in NameSet(raw) && LexLess(v, u)|
  {
    var names := SortedUsernames(raw);
    PositionIsRank(names, NameSet(raw), start);
    PositionMap(names, start)
  }

  /** In the position map of a sorted sequence of distinct strings, each string's id
      is `start` plus the number of strings that sort before it. */
  lemma PositionIsRank(names: seq<string>, all: set<string>, start: int)
    requires Distinct(names) && SortedBy(names, LexLe) && Elements(names) == all
    ensures forall u :: u in PositionMap(names, start) ==>
      PositionMap(names, start)[u] == start + |set v | v in all && LexLess(v, u)|
  {
    var ids := PositionMap(names, start);
    forall u | u in ids
      ensures ids[u] == start + |set v | v in all && LexLess(v, u)|
    {
      var i :| 0 <= i < |names| && names[i] == u;
      SortedRank(names, i);
      assert (set v | v in all && LexLess(v, u)) == Elements(names[..i]);
    }
  }

  /** In a sorted sequence of distinct strings, exactly the elements before position
      `i` sort below `names[i]`, and there are `i` of them. */
  lemma SortedRank(names: seq<string>, i: int)
    requires Distinct(names) && SortedBy(names, LexLe) && 0 <= i < |names|
    ensures forall v :: v in names && LexLess(v, names[i]) <==> v in names[..i]
    ensures |Elements(names[..i])| == i
  {
    LexLeIsTotalOrder();
    forall v | v in names ensures LexLess(v, names[i]) <==> v in names[..i] {
      var j :| 0 <= j < |names| && names[j] == v;
      if j < i {
        assert LexLe(v, names[i]) && v != names[i];
      } else {
        assert LexLe(names[i], v);
      }
    }
    DistinctCardinality(names[..i]);
  }

  /** The integers `start, start + 1, ..., start + n - 1`. */
  function Interval(start: int, n: nat): (r: set<int>)
    ensures forall k :: k in r <==> start <= k < start + n
  {
    if n == 0 then {} else Interval(start, n - 1) + {start + n - 1}
  }

  lemma {:induction false} IntervalCardinality(start: int, n: nat)
    ensures |Interval(start, n)| == n
  {
    if n > 0 {
      IntervalCardinality(start, n - 1);
      AddFresh(Interval(start, n - 1), start + n - 1);
    }
  }

  /** Adding a value not yet present grows a set by one. */
  lemma AddFresh(a: set<int>, x: int)
    requires x !in a
    ensures |a + {x}| == |a| + 1
  {
  }

  /** A map built from distinct positions is injective and its ids are an interval. */
  lemma PositionMapValues(names: seq<string>, start: int)
    requires Distinct(names)
    ensures var ids := PositionMap(names, start);
      && (forall u, v :: u in ids && v in ids && u != v ==> ids[u] != ids[v])
      && ids.Values == Interval(start, |names|)
  {
    var ids := PositionMap(names, start);
    forall u, v | u in ids && v in ids && u != v ensures ids[u] != ids[v] {
      var i :| 0 <= i < |names| && names[i] == u;
      var j :| 0 <= j < |names| && names[j] == v;
    }
    forall k | k in Interval(start, |names|) ensures k in ids.Values {
      assert ids[names[k - start]] == k;
    }
    forall k | k in ids.Values ensures k in Interval(start, |names|) {
      var u :| u in ids && ids[u] == k;
      var i :| 0 <= i < |names| && names[i] == u;
    }
  }

  /** The mapping sends different usernames to different ids, and its ids are exactly
      the `|NameSet(raw)|` consecutive integers from `start`. */
  lemma UserIdMappingIsBijection(raw: seq<RawRating>, start: int)
    ensures var ids := UserIdMapping(raw, start);
      && (forall u, v :: u in ids && v in ids && u != v ==> ids[u] != ids[v])
      && ids.Values == Interval(start, |NameSet(raw)|)
      && |ids.Values| == |ids.Keys|
  {
    var names := SortedUsernames(raw);
    PositionMapValues(names, start);
    DistinctCardinality(names);
    IntervalCardinality(start, |names|);
  }

  // ---------------------------------------------------------------------------
  // Preprocessing: merge with the catalog on title, then number the users

  /** The rows that `merge(movies_data, left_on="movie", right_on="title")` produces
      for one rating: one per catalog row carrying that title. */
  function TitleMatches(r: RawRating, catalog: seq<Movie>, userId: int): (rows: seq<Rating>)
    ensures forall t :: t in rows <==>
      exists m :: m in catalog && m.title == r.movie && t == Rating(userId, m.movieId, r.rating)
  {
    var matching := Filter(catalog, (m: Movie) => m.title == r.movie);
    var rows := seq(|matching|, k requires 0 <= k < |matching| =>
      Rating(userId, matching[k].movieId, r.rating));
    RowsOfMatching(r, catalog, userId, matching, rows);
    rows
  }

  /** One row per catalog movie with the rating's title, as `TitleMatches` builds them. */
  lemma RowsOfMatching(r: RawRating, catalog: seq<Movie>, userId: int, matching: seq<Movie>, rows: seq<Rating>)
    requires forall m :: m in matching <==> m in catalog && m.title == r.movie
    requires |rows| == |matching|
    requires forall k :: 0 <= k < |matching| ==> rows[k] == Rating(userId, matching[k].movieId, r.rating)
    ensures forall t :: t in rows <==>
      exists m :: m in catalog && m.title == r.movie && t == Rating(userId, m.movieId, r.rating)
  {
    forall t | t in rows
      ensures exists m :: m in catalog && m.title == r.movie && t == Rating(userId, m.movieId, r.rating)
    {
      var k :| 0 <= k < |rows| && rows[k] == t;
      assert matching[k] in matching;
    }
    forall m | m in catalog && m.title == r.movie ensures Rating(userId, m.movieId, r.rating) in rows {
      var k :| 0 <= k < |matching| && matching[k] == m;
      assert rows[k] == Rating(userId, m.movieId, r.rating);
    }
  }

  /** The inner join of the submitted ratings with the catalog on title, with each
      username replaced by its id. */
  function JoinCatalog(raw: seq<RawRating>, catalog: seq<Movie>, ids: map<string, int>): (rows: seq<Rating>)
    requires forall r :: r in raw ==> r.username in ids
    ensures forall t :: t in rows <==>
      exists r, m :: r in raw && m in catalog && m.title == r.movie &&
        t == Rating(ids[r.username], m.movieId, r.rating)
  {
    if raw == [] then []
    else
      var head := TitleMatches(raw[0], catalog, ids[raw[0].username]);
      var rest := JoinCatalog(raw[1..], catalog, ids);
      JoinCons(raw, catalog, ids, head, rest);
      head + rest
  }

  /** The join of a nonempty submission is the matches of its first rating followed by
      the join of the rest. */
  lemma JoinCons(raw: seq<RawRating>, catalog: seq<Movie>, ids: map<string, int>,
                 head: seq<Rating>, rest: seq<Rating>)
    requires raw != [] && forall r :: r in raw ==> r.username in ids
    requires forall t :: t in head <==>
      exists m :: m in catalog && m.title == raw[0].movie &&
        t == Rating(ids[raw[0].username], m.movieId, raw[0].rating)
    requires forall t :: t in rest <==>
      exists r, m :: r in raw[1..] && m in catalog && m.title == r.movie &&
        t == Rating(ids[r.username], m.movieId, r.rating)
    ensures forall t :: t in head + rest <==>
      exists r, m :: r in raw && m in catalog && m.title == r.movie &&
        t == Rating(ids[r.username], m.movieId, r.rating)
  {
    assert raw == [raw[0]] + raw[1..];
    forall t | t in head + rest
      ensures exists r, m ::
        r in raw && m in catalog && m.title == r.movie && t == Rating(ids[r.username], m.movieId, r.rating)
    {
      if t in head {
        var m :| m in catalog && m.title == raw[0].movie &&
          t == Rating(ids[raw[0].username], m.movieId, raw[0].rating);
        assert raw[0] in raw;
      } else {
        var r, m :| r in raw[1..] && m in catalog && m.title == r.movie &&
          t == Rating(ids[r.username], m.movieId, r.rating);
        assert r in raw;
      }
    }
    forall r, m | r in raw && m in catalog && m.title == r.movie
      ensures Rating(ids[r.username], m.movieId, r.rating) in head + rest
    {
      if r != raw[0] {
        assert r in raw[1..];
      }
    }
  }

  /** `_preprocess_group_ratings`: the `(userId, movieId, rating)` rows of the group.
      A rating whose title is not in the catalog yields no row (the merge is an inner
      join); a title carried by several catalog rows yields one row each. */
  function PreprocessGroupRatings(catalog: seq<Movie>, start: int, raw: seq<RawRating>): (rows: seq<Rating>)
    ensures forall t :: t in rows <==>
      exists r, m :: r in raw && m in catalog && m.title == r.movie &&
        t == Rating(UserIdMapping(raw, start)[r.username], m.movieId, r.rating)
  {
    var ids := UserIdMapping(raw, start);
    JoinCatalog(raw, catalog, ids)
  }

  // ---------------------------------------------------------------------------
  // The unwatched candidate pool

  /** The `movieId` column of the catalog. */
  function CatalogIds(catalog: seq<Movie>): (ids: seq<int>)
    ensures |ids| == |catalog|
    ensures forall k :: 0 <= k < |catalog| ==> ids[k] == catalog[k].movieId
  {
    seq(|catalog|, k requires 0 <= k < |catalog| => catalog[k].movieId)
  }

  /** User `u` has a row for movie `x`. */
  predicate Rated(rows: seq<Rating>, u: int, x: int) {
    exists t :: t in rows && t.userId == u && t.movieId == x
  }

  /** `movie_ids[np.isin(movie_ids, watched, invert=True)]`. */
  function Unwatched(ids: seq<int>, watched: seq<int>): (r: seq<int>)
    ensures forall x :: x in r <==> x in ids && x !in watched
    ensures IsSubsequence(r, ids)
  {
    Filter(ids, x => x !in watched)
  }

  /** The `unwatched` column of the per-user watch history, one list per user in
      increasing userId order (the keys of `groupby(by="userId")`). */
  function UnwatchedLists(ids: seq<int>, rows: seq<Rating>): (lists: seq<seq<int>>)
    ensures |lists| == |UserIdsOf(rows)|
    ensures forall k :: 0 <= k < |lists| ==>
      forall x :: x in lists[k] <==> x in ids && !Rated(rows, UserIdsOf(rows)[k], x)
    ensures forall k :: 0 <= k < |lists| ==> IsSubsequence(lists[k], ids)
  {
    var users := UserIdsOf(rows);
    seq(|users|, k requires 0 <= k < |users| => Unwatched(ids, RatedBy(rows, users[k])))
  }

  /** `_get_unwatched_movies_ids`. With group size 1 only the first row of the watch
      history counts, which is the user with the least id; otherwise the lists are
      folded with `np.intersect1d`. An empty table raises in both branches. */
  function UnwatchedMovieIds(groupSize: int, catalog: seq<Movie>, rows: seq<Rating>): (pool: seq<int>)
    requires |rows| > 0
    ensures groupSize == 1 ==>
      forall x :: x in pool <==> x in CatalogIds(catalog) && !Rated(rows, UserIdsOf(rows)[0], x)
    ensures groupSize == 1 ==> IsSubsequence(pool, CatalogIds(catalog))
  {
    var lists := UnwatchedLists(CatalogIds(catalog), rows);
    if groupSize == 1 then lists[0] else ReduceIntersect(lists)
  }

  /** No member of the table rated `x`. */
  predicate UnratedByAll(rows: seq<Rating>, x: int) {
    forall u :: u in UserIdsOf(rows) ==> !Rated(rows, u, x)
  }

  /** With any other group size the pool holds the catalog ids that no member rated.
      When only one user is left it keeps catalog order; otherwise it is strictly
      increasing, so it has no duplicates. */
  lemma SharedPool(groupSize: int, catalog: seq<Movie>, rows: seq<Rating>)
    requires |rows| > 0 && groupSize != 1
    ensures var pool := UnwatchedMovieIds(groupSize, catalog, rows);
      && (forall x :: x in pool <==> x in CatalogIds(catalog) && UnratedByAll(rows, x))
      && (|UserIdsOf(rows)| == 1 ==> IsSubsequence(pool, CatalogIds(catalog)))
      && (|UserIdsOf(rows)| > 1 ==> forall i, j :: 0 <= i < j < |pool| ==> pool[i] < pool[j])
  {
    var lists := UnwatchedLists(CatalogIds(catalog), rows);
    forall x ensures InEvery(x, lists) <==> x in CatalogIds(catalog) && UnratedByAll(rows, x) {
      InEveryUnwatched(CatalogIds(catalog), rows, x);
    }
  }

  /** An id is in every member's unwatched list exactly when it is a catalog id that
      no member rated. */
  lemma InEveryUnwatched(ids: seq<int>, rows: seq<Rating>, x: int)
    requires |rows| > 0
    ensures InEvery(x, UnwatchedLists(ids, rows)) <==> x in ids && UnratedByAll(rows, x)
  {
    var lists := UnwatchedLists(ids, rows);
    var users := UserIdsOf(rows);
    if InEvery(x, lists) {
      assert x in lists[0];
      forall u | u in users ensures !Rated(rows, u, x) {
        var k :| 0 <= k < |users| && users[k] == u;
        assert x in lists[k];
      }
    }
  }

  /** Every id `x` a member rated is absent from the pool; with group size 1 this is
      only so for the member with the least id. */
  lemma PoolExcludesRated(groupSize: int, catalog: seq<Movie>, rows: seq<Rating>, t: Rating)
    requires |rows| > 0 && t in rows
    requires groupSize != 1 || t.userId == UserIdsOf(rows)[0]
    ensures t.movieId !in UnwatchedMovieIds(groupSize, catalog, rows)
  {
    assert Rated(rows, t.userId, t.movieId);
    if groupSize != 1 {
      SharedPool(groupSize, catalog, rows);
    }
  }

  // ---------------------------------------------------------------------------
  // Embedding strategy

  /** `np.stack` of the merged embeddings needs at least one candidate, and the
      positional `.loc` lines up with the candidates only when each has an embedding. */
  predicate EmbeddingReady(candidates: seq<Movie>, embeddings: map<int, seq<real>>) {
    |candidates| > 0 && forall c :: c in candidates ==> c.movieId in embeddings
  }

  /** The distance from the group's average user embedding to a movie's embedding
      (`cdist`), given as `distance`. */
  function MovieDistance(embeddings: map<int, seq<real>>, distance: seq<real> -> real, c: Movie): real {
    if c.movieId in embeddings then distance(embeddings[c.movieId]) else 0.0
  }

  /** `get_embedding_based_recommendation`: the ids of the ten candidates nearest to
      the group, nearest first. Ties come back in some order. */
  function EmbeddingRecommendation(candidates: seq<Movie>, embeddings: map<int, seq<real>>,
                                   distance: seq<real> -> real): (top: seq<int>)
    requires EmbeddingReady(candidates, embeddings)
    ensures |top| == Min(TopCount, |candidates|)
    ensures multiset(top) <= multiset(CatalogIds(candidates))
    ensures forall x :: x in top ==> exists c :: c in candidates && c.movieId == x
    ensures forall k :: 0 <= k < |top| ==> top[k] in embeddings
    ensures forall i, j :: 0 <= i < j < |top| ==>
      distance(embeddings[top[i]]) <= distance(embeddings[top[j]])
    ensures forall c, y :: c in candidates && c.movieId !in top && y in top ==>
      distance(embeddings[y]) <= distance(embeddings[c.movieId])
  {
    var nearest := TopBy(candidates, (c: Movie) => MovieDistance(embeddings, distance, c), TopCount);
    NearestIds(candidates, embeddings, distance, nearest);
    CatalogIdsSubMultiset(nearest, candidates);
    CatalogIds(nearest)
  }

  /** Distinct picks of rows give distinct picks of their ids. */
  lemma CatalogIdsSubMultiset(rows: seq<Movie>, catalog: seq<Movie>)
    requires multiset(rows) <= multiset(catalog)
    ensures multiset(CatalogIds(rows)) <= multiset(CatalogIds(catalog))
  {
    var id := (m: Movie) => m.movieId;
    assert CatalogIds(rows) == MapSeq(rows, id);
    assert CatalogIds(catalog) == MapSeq(catalog, id);
    MapSeqSubMultiset(rows, catalog, id);
  }

  /** The order facts of `TopBy` under the distance key, in terms of the ids and the
      distances of their embeddings. */
  lemma NearestIds(candidates: seq<Movie>, embeddings: map<int, seq<real>>,
                   distance: seq<real> -> real, nearest: seq<Movie>)
    requires EmbeddingReady(candidates, embeddings)
    requires forall i :: 0 <= i < |nearest| ==> nearest[i] in candidates
    requires forall i, j :: 0 <= i < j < |nearest| ==>
      ((c: Movie) => MovieDistance(embeddings, distance, c))(nearest[i]) <=
      ((c: Movie) => MovieDistance(embeddings, distance, c))(nearest[j])
    requires forall x, y :: x in candidates && x !in nearest && y in nearest ==>
      ((c: Movie) => MovieDistance(embeddings, distance, c))(y) <=
      ((c: Movie) => MovieDistance(embeddings, distance, c))(x)
    ensures var top := CatalogIds(nearest);
      && (forall x :: x in top ==> exists c :: c in candidates && c.movieId == x)
      && (forall k :: 0 <= k < |top| ==> top[k] in embeddings)
      && (forall i, j :: 0 <= i < j < |top| ==>
            distance(embeddings[top[i]]) <= distance(embeddings[top[j]]))
      && (forall c, y :: c in candidates && c.movieId !in top && y in top ==>
            distance(embeddings[y]) <= distance(embeddings[c.movieId]))
  {
    var top := CatalogIds(nearest);
    forall x | x in top ensures exists c :: c in candidates && c.movieId == x {
      var k :| 0 <= k < |top| && top[k] == x;
      assert nearest[k] in candidates;
    }
    forall i, j | 0 <= i < j < |top|
      ensures distance(embeddings[top[i]]) <= distance(embeddings[top[j]])
    {
      assert MovieDistance(embeddings, distance, nearest[i]) <= MovieDistance(embeddings, distance, nearest[j]);
    }
    forall c, y | c in candidates && c.movieId !in top && y in top
      ensures distance(embeddings[y]) <= distance(embeddings[c.movieId])
    {
      var k :| 0 <= k < |top| && top[k] == y;
      assert c !in nearest && nearest[k] in nearest;
      assert MovieDistance(embeddings, distance, nearest[k]) <= MovieDistance(embeddings, distance, c);
    }
  }

  // ---------------------------------------------------------------------------
  // SVD strategy

  /** The learned parameters of the fitted `SVD`: item biases `bi`, item factors `qi`
      and user factors `pu`, all indexed by raw id as the source indexes them. */
  datatype Factors = Factors(bi: seq<real>, qi: seq<seq<real>>, pu: seq<seq<real>>)

  function Dot(a: seq<real>, b: seq<real>): (r: real)
    requires |a| == |b|
    decreases |a|
  {
    if a == [] then 0.0 else a[0] * b[0] + Dot(a[1..], b[1..])
  }

  /** Component `j` summed over all rows. */
  function ColumnSum(rows: seq<seq<real>>, j: nat): real
    requires forall r :: r in rows ==> j < |r|
    decreases |rows|
  {
    if rows == [] then 0.0 else rows[0][j] + ColumnSum(rows[1..], j)
  }

  /** The sum of the rows as vectors. */
  function VectorSum(rows: seq<seq<real>>, n: nat): (v: seq<real>)
    requires forall r :: r in rows ==> |r| == n
    ensures |v| == n
  {
    seq(n, j requires 0 <= j < n => ColumnSum(rows, j))
  }

  /** `np.mean(rows, axis=0)`. */
  function MeanVector(rows: seq<seq<real>>, n: nat): (v: seq<real>)
    requires |rows| > 0 && forall r :: r in rows ==> |r| == n
    ensures |v| == n
  {
    seq(n, j requires 0 <= j < n => ColumnSum(rows, j) / (|rows| as real))
  }

  /** The session users are the rows of `pu` from `start` on; the factors are
      well-formed for indexing every id of the pool. */
  predicate Scorable(pool: seq<int>, f: Factors, start: int) {
    && 0 <= start < |f.pu|
    && |f.bi| == |f.qi|
    && (forall r :: r in f.pu ==> |r| == SvdFactors)
    && (forall v :: v in f.qi ==> |v| == SvdFactors)
    && (forall m :: m in pool ==> 0 <= m < |f.bi|)
  }

  /** `bi[m] + qi[m] @ mean(pu[start:])`, the pseudo-rating of movie `m`. */
  function PseudoRating(f: Factors, start: int, m: int): real
    requires 0 <= start < |f.pu| && 0 <= m < |f.bi| == |f.qi|
    requires forall r :: r in f.pu ==> |r| == SvdFactors
    requires forall v :: v in f.qi ==> |v| == SvdFactors
  {
    f.bi[m] + Dot(f.qi[m], MeanVector(f.pu[start..], SvdFactors))
  }

  /** The factors cover movie `m` and the session users. */
  predicate Covers(f: Factors, start: int, m: int) {
    && 0 <= start < |f.pu| && 0 <= m < |f.bi| == |f.qi|
    && (forall r :: r in f.pu ==> |r| == SvdFactors)
    && (forall v :: v in f.qi ==> |v| == SvdFactors)
  }

  /** The pseudo-rating of `m`, or 0 for an id the factors do not cover. */
  function Score(f: Factors, start: int, m: int): real {
    if Covers(f, start, m) then PseudoRating(f, start, m) else 0.0
  }

  /** `unwatched_movies_ids[np.argsort(-movie_pseudorating)][:10]`: the ten pool ids
      with the highest pseudo-rating, highest first; an empty pool gives none. */
  function SvdRecommendation(pool: seq<int>, f: Factors, start: int): (top: seq<int>)
    requires Scorable(pool, f, start)
    ensures |top| == Min(TopCount, |pool|)
    ensures multiset(top) <= multiset(pool)
    ensures forall k :: 0 <= k < |top| ==> top[k] in pool
    ensures forall i, j :: 0 <= i < j < |top| ==> Score(f, start, top[i]) >= Score(f, start, top[j])
    ensures forall x, y :: x in pool && x !in top && y in top ==> Score(f, start, y) >= Score(f, start, x)
  {
    var top := TopByDescending(pool, m => Score(f, start, m), TopCount);
    ScoreOrder(pool, f, start, top);
    top
  }

  /** The order facts of `TopByDescending` under the score function, in terms of
      `Score`. */
  lemma ScoreOrder(pool: seq<int>, f: Factors, start: int, top: seq<int>)
    requires forall i, j :: 0 <= i < j < |top| ==>
      (m => Score(f, start, m))(top[i]) >= (m => Score(f, start, m))(top[j])
    requires forall x, y :: x in pool && x !in top && y in top ==>
      (m => Score(f, start, m))(y) >= (m => Score(f, start, m))(x)
    ensures forall i, j :: 0 <= i < j < |top| ==> Score(f, start, top[i]) >= Score(f, start, top[j])
    ensures forall x, y :: x in pool && x !in top && y in top ==> Score(f, start, y) >= Score(f, start, x)
  {
  }

  /** On the pool, `Score` is the pseudo-rating, so the SVD ranking orders the pool by
      pseudo-rating. */
  lemma ScoreIsPseudoRating(pool: seq<int>, f: Factors, start: int, m: int)
    requires Scorable(pool, f, start) && m in pool
    ensures Covers(f, start, m)
    ensures Score(f, start, m) == PseudoRating(f, start, m)
  {
  }

  /** Dot products distribute over a sum of rows. */
  lemma {:induction false} DotVectorSum(q: seq<real>, rows: seq<seq<real>>)
    requires forall r :: r in rows ==> |r| == |q|
    ensures Dot(q, VectorSum(rows, |q|)) == SumOfDots(q, rows)
    decreases |rows|
  {
    if rows == [] {
      DotZero(q, VectorSum(rows, |q|));
    } else {
      DotVectorSum(q, rows[1..]);
      DotAdd(q, rows[0], VectorSum(rows[1..], |q|), VectorSum(rows, |q|));
    }
  }

  /** The sum over the rows of `q · row`. */
  function SumOfDots(q: seq<real>, rows: seq<seq<real>>): real
    requires forall r :: r in rows ==> |r| == |q|
    decreases |rows|
  {
    if rows == [] then 0.0 else Dot(q, rows[0]) + SumOfDots(q, rows[1..])
  }

  lemma {:induction false} DotZero(q: seq<real>, z: seq<real>)
    requires |q| == |z| && forall j :: 0 <= j < |z| ==> z[j] == 0.0
    ensures Dot(q, z) == 0.0
    decreases |q|
  {
    if q != [] {
      DotZero(q[1..], z[1..]);
    }
  }

  lemma {:induction false} DotAdd(q: seq<real>, a: seq<real>, b: seq<real>, c: seq<real>)
    requires |q| == |a| == |b| == |c|
    requires forall j :: 0 <= j < |c| ==> c[j] == a[j] + b[j]
    ensures Dot(q, c) == Dot(q, a) + Dot(q, b)
    decreases |q|
  {
    if q != [] {
      DotAdd(q[1..], a[1..], b[1..], c[1..]);
    }
  }

  lemma {:induction false} DotScale(q: seq<real>, a: seq<real>, c: seq<real>, s: real)
    requires |q| == |a| == |c|
    requires s != 0.0
    requires forall j :: 0 <= j < |c| ==> c[j] == a[j] / s
    ensures Dot(q, c) == Dot(q, a) / s
    decreases |q|
  {
    if q != [] {
      DotScale(q[1..], a[1..], c[1..], s);
    }
  }

  /** The pseudo-rating is the item bias plus the average over the session users of
      each user's predicted interaction `qi[m] · pu[u]`. */
  lemma PseudoRatingIsAverage(f: Factors, start: int, m: int)
    requires 0 <= start < |f.pu| && 0 <= m < |f.bi| == |f.qi|
    requires forall r :: r in f.pu ==> |r| == SvdFactors
    requires forall v :: v in f.qi ==> |v| == SvdFactors
    ensures PseudoRating(f, start, m) ==
      f.bi[m] + SumOfDots(f.qi[m], f.pu[start..]) / ((|f.pu| - start) as real)
  {
    var users := f.pu[start..];
    var q := f.qi[m];
    assert q in f.qi;
    DotVectorSum(q, users);
    DotScale(q, VectorSum(users, SvdFactors), MeanVector(users, SvdFactors), |users| as real);
  }

  /** Of two movies with the same item factors, the one with the higher bias has the
      pseudo-rating at least as high. */
  lemma HigherBiasRanksHigher(f: Factors, start: int, a: int, b: int)
    requires 0 <= start < |f.pu| && 0 <= a < |f.bi| == |f.qi| && 0 <= b < |f.bi|
    requires forall r :: r in f.pu ==> |r| == SvdFactors
    requires forall v :: v in f.qi ==> |v| == SvdFactors
    requires f.qi[a] == f.qi[b] && f.bi[a] >= f.bi[b]
    ensures PseudoRating(f, start, a) >= PseudoRating(f, start, b)
  {
  }

  // ---------------------------------------------------------------------------
  // The whole recommendation

  /** `movies_data[movies_data.movieId.isin(ids)]`: every catalog row whose id is
      among `ids`, in catalog order rather than the order of `ids`. It gives both
      the candidate table `unwatched_movies_data` and the final result. */
  function SelectCatalogRows(catalog: seq<Movie>, ids: seq<int>): (rows: seq<Movie>)
    ensures forall m :: m in rows <==> m in catalog && m.movieId in ids
    ensures IsSubsequence(rows, catalog)
  {
    Filter(catalog, (m: Movie) => m.movieId in ids)
  }

  /** The join back to the catalog forgets the ranking: ranked ids `[2, 1]` come back
      as the rows of movies 1 and 2, in that order. */
  lemma SelectionKeepsCatalogOrder()
    ensures var rows := SelectCatalogRows([Movie(1, "A"), Movie(2, "B")], [2, 1]);
      CatalogIds(rows) == [1, 2] != [2, 1]
  {
    var catalog := [Movie(1, "A"), Movie(2, "B")];
    var p := (m: Movie) => m.movieId in [2, 1];
    assert catalog[1..][1..] == [];
    assert Filter(catalog[1..], p) == [Movie(2, "B")];
  }

  /** The catalog ids contain no duplicates. */
  predicate UniqueIds(catalog: seq<Movie>) {
    forall i, j :: 0 <= i < j < |catalog| ==> catalog[i].movieId != catalog[j].movieId
  }

  /** The group size picks the strategy: embeddings up to three members, SVD above. */
  predicate UsesEmbeddings(groupSize: int) {
    groupSize <= EmbeddingMaxGroupSize
  }

  /** What the strategy of the group size needs of the pool: on the embedding path a
      catalog row for it and an embedding for every candidate (`np.stack` raises on
      none, and a missing embedding misaligns the positional `.loc`); on the SVD path
      factors covering the pool and the session users. */
  predicate StrategyReady(groupSize: int, catalog: seq<Movie>, pool: seq<int>, start: int,
                          embeddings: map<int, seq<real>>, trained: Factors) {
    if UsesEmbeddings(groupSize) then EmbeddingReady(SelectCatalogRows(catalog, pool), embeddings)
    else Scorable(pool, trained, start)
  }

  /** The ranked ids selected from the pool by the strategy of the group size. */
  function TopMovies(groupSize: int, catalog: seq<Movie>, pool: seq<int>, start: int,
                     embeddings: map<int, seq<real>>, distance: seq<real> -> real,
                     trained: Factors): (top: seq<int>)
    requires StrategyReady(groupSize, catalog, pool, start, embeddings, trained)
    ensures |top| <= TopCount
    ensures forall x :: x in top ==> x in pool
    ensures UsesEmbeddings(groupSize) ==>
      top == EmbeddingRecommendation(SelectCatalogRows(catalog, pool), embeddings, distance)
    ensures !UsesEmbeddings(groupSize) ==> top == SvdRecommendation(pool, trained, start)
  {
    if UsesEmbeddings(groupSize) then
      EmbeddingRecommendation(SelectCatalogRows(catalog, pool), embeddings, distance)
    else
      SvdRecommendation(pool, trained, start)
  }

  /** What `make_recommendation` needs in order not to raise: at least one rating
      survives the title merge, and the pool suits the strategy. */
  predicate RecommendationDefined(groupSize: int, catalog: seq<Movie>, start: int,
                                  embeddings: map<int, seq<real>>, trained: Factors,
                                  raw: seq<RawRating>) {
    var rows := PreprocessGroupRatings(catalog, start, raw);
    |rows| > 0 &&
    StrategyReady(groupSize, catalog, UnwatchedMovieIds(groupSize, catalog, rows), start, embeddings, trained)
  }

  /** `make_recommendation`: the catalog rows of the selected movies. */
  function Recommend(groupSize: int, catalog: seq<Movie>, start: int,
                     embeddings: map<int, seq<real>>, distance: seq<real> -> real,
                     trained: Factors, raw: seq<RawRating>): (result: seq<Movie>)
    requires RecommendationDefined(groupSize, catalog, start, embeddings, trained, raw)
    ensures IsSubsequence(result, catalog)
    ensures forall m :: m in result <==>
      m in catalog &&
      m.movieId in TopMovies(groupSize, catalog,
                             UnwatchedMovieIds(groupSize, catalog, PreprocessGroupRatings(catalog, start, raw)),
                             start, embeddings, distance, trained)
    ensures forall m :: m in result ==>
      m.movieId in UnwatchedMovieIds(groupSize, catalog, PreprocessGroupRatings(catalog, start, raw))
  {
    var rows := PreprocessGroupRatings(catalog, start, raw);
    var pool := UnwatchedMovieIds(groupSize, catalog, rows);
    SelectCatalogRows(catalog, TopMovies(groupSize, catalog, pool, start, embeddings, distance, trained))
  }

  /** A rating whose title a catalog movie carries becomes a row for that movie. */
  lemma PreprocessedRow(catalog: seq<Movie>, start: int, raw: seq<RawRating>, r: RawRating, rated: Movie)
    requires r in raw && rated in catalog && rated.title == r.movie
    ensures Rating(UserIdMapping(raw, start)[r.username], rated.movieId, r.rating)
      in PreprocessGroupRatings(catalog, start, raw)
  {
  }

  /** No recommended movie carries the id of a catalog movie whose title a member of
      the group rated. With group size 1 this holds for the member whose username
      sorts first among those with a catalog match. */
  lemma RecommendationIsUnwatched(groupSize: int, catalog: seq<Movie>, start: int,
                                  embeddings: map<int, seq<real>>, distance: seq<real> -> real,
                                  trained: Factors, raw: seq<RawRating>,
                                  r: RawRating, rated: Movie, m: Movie)
    requires RecommendationDefined(groupSize, catalog, start, embeddings, trained, raw)
    requires r in raw && rated in catalog && rated.title == r.movie
    requires groupSize != 1 ||
      UserIdMapping(raw, start)[r.username] == UserIdsOf(PreprocessGroupRatings(catalog, start, raw))[0]
    requires m in Recommend(groupSize, catalog, start, embeddings, distance, trained, raw)
    ensures m.movieId != rated.movieId
  {
    var rows := PreprocessGroupRatings(catalog, start, raw);
    PreprocessedRow(catalog, start, raw, r, rated);
    PoolExcludesRated(groupSize, catalog, rows, Rating(UserIdMapping(raw, start)[r.username], rated.movieId, r.rating));
  }

  /** With distinct catalog ids a recommendation has at most ten rows. */
  lemma RecommendationAtMostTen(groupSize: int, catalog: seq<Movie>, start: int,
                                embeddings: map<int, seq<real>>, distance: seq<real> -> real,
                                trained: Factors, raw: seq<RawRating>)
    requires RecommendationDefined(groupSize, catalog, start, embeddings, trained, raw)
    requires UniqueIds(catalog)
    ensures |Recommend(groupSize, catalog, start, embeddings, distance, trained, raw)| <= TopCount
  {
    var rows := PreprocessGroupRatings(catalog, start, raw);
    var pool := UnwatchedMovieIds(groupSize, catalog, rows);
    var top := TopMovies(groupSize, catalog, pool, start, embeddings, distance, trained);
    SelectionAtMost(catalog, top);
  }

  /** With distinct catalog ids, selecting the rows of some ids gives at most as many
      rows as there are ids. */
  lemma SelectionAtMost(catalog: seq<Movie>, top: seq<int>)
    requires UniqueIds(catalog)
    ensures |SelectCatalogRows(catalog, top)| <= |top|
  {
    var result := SelectCatalogRows(catalog, top);
    SubsequenceUniqueIds(result, catalog);
    var ids := CatalogIds(result);
    assert Distinct(ids);
    DistinctCardinality(ids);
    assert Elements(ids) <= Elements(top);
    SubsetCardinality(Elements(ids), Elements(top));
    ElementsCardinality(top);
  }

  lemma {:induction false} SubsequenceUniqueIds(a: seq<Movie>, b: seq<Movie>)
    requires IsSubsequence(a, b) && UniqueIds(b)
    ensures UniqueIds(a)
    decreases |b|
  {
    if a != [] && b != [] {
      if a[0] == b[0] {
        SubsequenceUniqueIds(a[1..], b[1..]);
        SubsequenceElements(a[1..], b[1..]);
        forall j | 0 < j < |a| ensures a[0].movieId != a[j].movieId {
          assert a[j] in a[1..];
          var k :| 0 <= k < |b[1..]| && b[1..][k] == a[j];
          assert b[k + 1] == a[j];
        }
      } else {
        SubsequenceUniqueIds(a, b[1..]);
      }
    }
  }

  // ---------------------------------------------------------------------------
  // The recommender object

  /** The `surprise.SVD` model: its hyper-parameters and, once `fit` has run, its
      learned factors. */
  datatype Svd = Svd(nFactors: nat, nEpochs: nat, fitted: Option<Factors>)

  /** `GroupRecommender`. The catalog and the history's distinct user count are read
      from files at import time in the source; here they are constructor arguments.
      Of the two `init=False` fields exactly one is ever set; the unset one is `None`. */
  class GroupRecommender {
    const groupSize: int
    const moviesData: seq<Movie>
    const startingUserId: int
    var moviesEmbeddings: Option<map<int, seq<real>>>
    var svd: Option<Svd>

    /** The strategy state matches the group size. */
    predicate Valid()
      reads this
    {
      && startingUserId >= 0
      && (UsesEmbeddings(groupSize) ==> moviesEmbeddings.Some? && svd.None?)
      && (!UsesEmbeddings(groupSize) ==>
            moviesEmbeddings.None? && svd.Some? &&
            svd.value.nFactors == SvdFactors && svd.value.nEpochs == SvdEpochs)
    }

    /** `__attrs_post_init__`: small groups load the embeddings table, larger ones get
        an unfitted `SVD(n_factors=17, n_epochs=30)`. `startingUserId` is the number of
        distinct user ids in the history. */
    constructor(groupSize: int, moviesData: seq<Movie>, historyUserIds: seq<int>,
                embeddingsTable: map<int, seq<real>>)
      ensures Valid()
      ensures this.groupSize == groupSize && this.moviesData == moviesData
      ensures startingUserId == |Elements(historyUserIds)|
      ensures UsesEmbeddings(groupSize) ==> moviesEmbeddings == Some(embeddingsTable) && svd == None
      ensures !UsesEmbeddings(groupSize) ==>
        moviesEmbeddings == None && svd == Some(Svd(SvdFactors, SvdEpochs, None))
    {
      this.groupSize := groupSize;
      this.moviesData := moviesData;
      var distinct := Dedup(historyUserIds);
      DistinctCardinality(distinct);
      assert Elements(distinct) == Elements(historyUserIds);
      startingUserId := |distinct|;
      if groupSize <= EmbeddingMaxGroupSize {
        moviesEmbeddings := Some(embeddingsTable);
        svd := None;
      } else {
        moviesEmbeddings := None;
        svd := Some(Svd(SvdFactors, SvdEpochs, None));
      }
    }

    /** The embeddings table, or none on the SVD path. */
    function Embeddings(): (e: map<int, seq<real>>)
      reads this
      ensures moviesEmbeddings.Some? ==> e == moviesEmbeddings.value
      ensures moviesEmbeddings.None? ==> e == map[]
    {
      if moviesEmbeddings.Some? then moviesEmbeddings.value else map[]
    }

    /** `get_embedding_based_recommendation`, with the distances to the group's
        average embedding given as `distance`. */
    method GetEmbeddingBasedRecommendation(candidates: seq<Movie>, distance: seq<real> -> real)
      returns (top: seq<int>)
      requires moviesEmbeddings.Some? && EmbeddingReady(candidates, moviesEmbeddings.value)
      ensures top == EmbeddingRecommendation(candidates, moviesEmbeddings.value, distance)
    {
      top := EmbeddingRecommendation(candidates, moviesEmbeddings.value, distance);
    }

    /** `get_svd_based_recommendation`: `fit` replaces the model's factors by
        `trained`, the outcome of training on the history plus the group's rows, and
        the pool is ranked by the new factors. */
    method GetSvdBasedRecommendation(pool: seq<int>, trained: Factors) returns (top: seq<int>)
      requires svd.Some? && Scorable(pool, trained, startingUserId)
      modifies this
      ensures svd == Some(old(svd).value.(fitted := Some(trained)))
      ensures moviesEmbeddings == old(moviesEmbeddings)
      ensures top == SvdRecommendation(pool, trained, startingUserId)
    {
      svd := Some(svd.value.(fitted := Some(trained)));
      top := SvdRecommendation(pool, trained, startingUserId);
    }

    /** `make_recommendation`: preprocess, pool, rank by the strategy of the group
        size, join back to the catalog. */
    method MakeRecommendation(groupRatings: seq<RawRating>, distance: seq<real> -> real, trained: Factors)
      returns (result: seq<Movie>)
      requires Valid()
      requires RecommendationDefined(groupSize, moviesData, startingUserId, Embeddings(), trained, groupRatings)
      modifies this
      ensures Valid()
      ensures result == Recommend(groupSize, moviesData, startingUserId, old(Embeddings()), distance, trained, groupRatings)
      ensures moviesEmbeddings == old(moviesEmbeddings)
      ensures UsesEmbeddings(groupSize) ==> svd == old(svd)
      ensures !UsesEmbeddings(groupSize) ==> svd == Some(Svd(SvdFactors, SvdEpochs, Some(trained)))
    {
      var rows := PreprocessGroupRatings(moviesData, startingUserId, groupRatings);
      var pool := UnwatchedMovieIds(groupSize, moviesData, rows);
      var top: seq<int>;
      if groupSize <= EmbeddingMaxGroupSize {
        var candidates := SelectCatalogRows(moviesData, pool);
        top := GetEmbeddingBasedRecommendation(candidates, distance);
      } else {
        top := GetSvdBasedRecommendation(pool, trained);
      }
      result := SelectCatalogRows(moviesData, top);
    }
  }
}
