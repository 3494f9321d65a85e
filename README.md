# MoviesGRS group recommender, modelled in Dafny

MoviesGRS recommends movies to an ad hoc group. Each member submits ratings by title. The engine:

1. maps usernames to synthetic user ids;
2. joins the ratings to the catalog;
3. pools the catalog movies that no member has rated;
4. ranks that pool with one of two strategies:
   - groups of up to three members: nearness of movie embeddings to the group's average embedding;
   - larger groups: an SVD model's pseudo-ratings;
5. returns the catalog rows of the ten best.

An offline experiment checks the engine. It splits the test users into random groups of 5, 6 and 7. It gives every user their group labels, their rating history and the movies they have not watched, sorted by popularity. It asks a recommender for every group's list and scores the lists by mean average precision (MAP) and NDCG per grouping.

The project has these modules:

- `Recommender` (`recommender.dfy`): the engine. `GroupRecommender` is a class whose `svd` field `MakeRecommendation` updates. The engine's pure steps are functions next to it.
- `Evaluation` (`evaluation.dfy`): the experiment's scoring.
  - `GenerateRecommendations` and `EvaluateRecommendations` are methods with loops, as in the source.
  - The metric-key reshape `ReshapeMetrics` is a method too.
- `ExperimentData` (`experimentdata.dfy`): the experiment's data preparation.
- `SplitUsers` (`splitusers.dfy`): the group-splitting script.
- Shared pieces:
  - `Ratings`: rating rows and their per-user views.
  - `ArraySets`: `np.intersect1d` and its `reduce`.
  - `Sorting`: sorting by a total preorder, and the first k by a key.
  - `Sequences`: filtering, de-duplication and subsequences.
  - `Numerals`: decimal numerals in file and column names.
  - `Wrappers`: `Option` and `Result`.

Conventions:

- pandas tables are sequences of row datatypes.
- numpy arrays are `seq<int>` or `seq<real>`.
- A Python exception the source can raise on some input is an `Err`, or a precondition where that input cannot arise in normal operation.
- NaN is `None`.

Reading feather and parquet files, training the SVD model and computing embedding distances are not modelled. Their results are parameters:

- the catalog, the history's user ids and the embeddings table are constructor arguments;
- `trained: Factors` is the fitted SVD model;
- `distance` gives each embedding's distance to the group's average;
- `shuffle` is `sample(frac=1, random_state=seed)`;
- `groupFile` gives the contents of a group file;
- `ndcg` is the NDCG arithmetic.

### Behaviours worth noting

- **Unknown titles.** The inner merge at recommender.py:30-32 drops a rating whose title is not in the catalog, without error.
- **Order of the result.** recommender.py:138 selects the catalog rows whose ids were picked, so they come back in catalog order, not rank order. `SelectionKeepsCatalogOrder` shows a two-movie catalog where the ranked ids `[2, 1]` come back as `[1, 2]`.
- **Empty pool.**
  - Embedding path: `np.stack` (recommender.py:85) raises when there are no candidates. The model makes a non-empty candidate table a precondition, in `EmbeddingReady`.
  - SVD path: an empty pool gives an empty result.
- **Synthetic ids.** They start at the number of distinct historical user ids (recommender.py:17-19), not at the largest historical id plus one.
- **Groups of one.**
  - Size 1 takes the first row of the watch history, which is the member with the least user id (recommender.py:54-55). `UnwatchedMovieIds` states exactly that.
  - `RecommendationIsUnwatched` claims "nothing a member rated is recommended" only for that member in this case.
- **Group label columns.**
  - The experiment names the columns by position (`group{i+2}`), whatever the grouping names are (experiments/utils/recommender_data_preprocessor.py:16).
  - Aggregating by the groupings' names therefore raises `KeyError` unless each is `group1`, such a positional name, or `movieId` or `rating`. `GetRecommenderData` returns `Err` in exactly that case.
  - A grouping named `movieId` or `rating` raises nothing (experiments/utils/recommender_data_preprocessor.py:64-68). The aggregation's dict literal lists that name twice, and the later `list` entry replaces the grouping's `first` entry. The history rows then carry no label for that grouping. `LabelGroups` names the groupings that keep a label, and `ListGroupingHasNoLabel` shows the case for `rating`.
  - A grouping named `userId` still fails: the aggregation or the `reset_index` after it raises, since `userId` is the group key.
- **Where exceptions occur.** The code raises plain Python exceptions. The model states each one:
  - empty preprocessed ratings, in `RecommendationDefined`;
  - the embedding stack, in `EmbeddingReady`;
  - an out-of-range SVD index, in `Scorable`;
  - the reshape's failed unpacking, as `Err`;
  - a missing grouping column, as `Err`.

## Model

| member | source | states |
|---|---|---|
| Recommender.SortedUsernames | recommender.py:38 | the distinct usernames, each once, sorted by code point, and exactly the usernames that occur |
| Recommender.UserIdMapping | recommender.py:33-40 | keys are exactly the usernames; a name's id is the start id plus the number of distinct usernames sorting before it |
| Recommender.UserIdMappingIsBijection | recommender.py:33-40 | different usernames get different ids, and the ids are exactly the consecutive range from the start id, one per name |
| Recommender.TitleMatches | recommender.py:30-32 | one rating becomes one row per catalog movie with its title, carrying the mapped user id and the rating unchanged |
| Recommender.JoinCatalog | recommender.py:30-43 | a row is in the join iff some rating and some catalog movie of that title produce it; unmatched titles produce nothing |
| Recommender.PreprocessGroupRatings | recommender.py:29-44 | the preprocessed rows are exactly the (synthetic user id, catalog movie id, rating) triples of ratings whose title is in the catalog |
| Recommender.Unwatched | recommender.py:52 | the catalog ids a user did not rate, in catalog order |
| Recommender.UnwatchedLists | recommender.py:47-53 | one list per user in increasing user id order; an id is in a user's list iff it is a catalog id that user did not rate; catalog order is kept |
| Recommender.UnwatchedMovieIds | recommender.py:54-55 | for group size 1 the pool is the complement of the least user id's ratings in the catalog, in catalog order |
| Recommender.SharedPool | recommender.py:56-59 | for other sizes an id is pooled iff it is a catalog id no member rated; a single member's pool keeps catalog order, several members' pool is strictly increasing |
| Recommender.InEveryUnwatched | recommender.py:51-59 | an id lies in every member's unwatched list iff it is a catalog id no member rated |
| Recommender.PoolExcludesRated | recommender.py:46-60 | no movie a member rated is in the pool (for group size 1: a movie the least user id rated) |
| Recommender.EmbeddingRecommendation | recommender.py:96-98 | min(10, candidates) ids of distinct candidates (a sub-multiset of the candidates' ids), nearest first, and no unpicked candidate is nearer than a picked one |
| Recommender.SvdRecommendation | recommender.py:115-119 | min(10, pool) pool ids, taken without duplication beyond the pool's, highest score first, and no unpicked pool id scores above a picked one |
| Recommender.ScoreIsPseudoRating | recommender.py:115-118 | for every pooled id the score is the pseudo-rating bi + qi · mean(pu[start:]) |
| Recommender.PseudoRatingIsAverage | recommender.py:115-118 | the pseudo-rating equals bi plus the average of the dot products of qi with each session user's factors |
| Recommender.HigherBiasRanksHigher | recommender.py:115-119 | of two movies with equal item factors, the one with the larger bias has a pseudo-rating at least as high |
| Recommender.SelectCatalogRows | recommender.py:127-138 | the rows selected by an id list (the pooled candidates, and the picked result) are exactly the catalog rows whose id is listed, in catalog order |
| Recommender.SelectionKeepsCatalogOrder | recommender.py:138 | a concrete catalog where the picked ids [2, 1] come back in catalog order [1, 2] |
| Recommender.TopMovies | recommender.py:126-136 | groups of at most 3 get the embedding ranking of the pool's catalog rows, larger groups the SVD ranking of the pool; at most 10 ids, all from the pool |
| Recommender.Recommend | recommender.py:123-138 | the recommendation is a subsequence of the catalog whose rows are exactly the catalog rows with an id the strategy picked from the unwatched pool |
| Recommender.RecommendationIsUnwatched | recommender.py:123-138 | no recommended movie has the id of a catalog movie a member rated (for group size 1: the member with the least user id) |
| Recommender.RecommendationAtMostTen | recommender.py:123-138 | with distinct catalog ids, at most 10 movies are recommended |
| Recommender.GroupRecommender.constructor | recommender.py:13-27 | groups of up to three get the embeddings table and no SVD; larger groups get an unfitted SVD(17, 30) and no embeddings; the start id is the number of distinct history user ids |
| Recommender.GroupRecommender.GetEmbeddingBasedRecommendation | recommender.py:82-100 | the result is the embedding ranking of the candidates |
| Recommender.GroupRecommender.GetSvdBasedRecommendation | recommender.py:102-121 | the SVD model becomes fitted with the trained factors, the embeddings stay, and the result is the SVD ranking of the pool |
| Recommender.GroupRecommender.MakeRecommendation | recommender.py:123-138 | the result is the recommendation of the ratings; the object stays valid; only the SVD path changes the model, to fitted |
| Ratings.UserIdsOf | recommender.py:49 | the group keys: strictly increasing and exactly the user ids occurring in the rows |
| Ratings.RatedBy | recommender.py:49 | the ids a user rated, exactly |
| ArraySets.Intersect1d | recommender.py:58 | the values in both arrays, strictly increasing |
| ArraySets.ReduceIntersect | recommender.py:57-59 | a value is in the fold iff it is in every array; one array comes back unchanged; two or more give a strictly increasing result |
| Sorting.TopBy | recommender.py:97 | min(k, n) items from the input, in increasing key order, and no left-out item has a smaller key than a picked one |
| Sorting.TopByDescending | recommender.py:119 | min(k, n) items from the input, in decreasing score order, and no left-out item has a larger score than a picked one |
| Evaluation.MemberIdsSpec | evaluation.py:13 | a group's user list holds exactly the users of its rows |
| Evaluation.MemberListsSpec | evaluation.py:14 | the arrays folded for a group are exactly its rows' unwatched arrays |
| Evaluation.GroupKeys | evaluation.py:11 | the group keys are exactly the labels that occur for the grouping |
| Evaluation.GroupPoolSpec | evaluation.py:9-17 | an id is in a group's pool iff it is unwatched by every member of the group |
| Evaluation.MembersIgnoreRecs | evaluation.py:9-17 | a group's members and arrays do not depend on the recommendation columns already added |
| Evaluation.GroupRecIgnoresRecs | evaluation.py:9-19 | a group's recommendation does not depend on the recommendation columns already added |
| Evaluation.RecsForGroups | evaluation.py:8-21 | after all merges a row carries, for each grouping, its own group's recommendation, and its other columns unchanged |
| Evaluation.MergeGrouping | evaluation.py:19-21 | the merge keeps every row and adds to each the recommendation of its group |
| Evaluation.GenerateRecommendations | evaluation.py:7-23 | the same rows with their data unchanged, each carrying for every grouping its own group's recommendation and its earlier columns unchanged |
| Evaluation.Trunc | evaluation.py:28 | truncation toward zero, as `astype(int)` |
| Evaluation.GetRating | evaluation.py:26-31 | per recommended id: 0 if the user did not rate it, else the truncated rating at its first occurrence in the history |
| Evaluation.Relevance | evaluation.py:34-39 | per recommended id: 1 iff it is in the user's history, else 0 |
| Evaluation.RelevanceAgreesWithRating | evaluation.py:26-39 | an irrelevant item has rating 0; with ratings of at least 1, an item is relevant iff its rating is positive |
| Evaluation.RelevanceSum | evaluation.py:37 | the number of relevant positions is the number of recommended ids in the history |
| Evaluation.PrecisionTerms | evaluation.py:45 | each term lies between 0 and the position's relevance |
| Evaluation.AveragePrecision | evaluation.py:47-50 | the average precision is NaN exactly when the list or the history is empty |
| Evaluation.HitsBound | evaluation.py:47-50 | in a duplicate-free list the hits are at most the shorter of the history and the list |
| Evaluation.AveragePrecisionBounds | evaluation.py:42-55 | for a duplicate-free list the average precision lies in [0, 1] |
| Evaluation.IdealOrder | evaluation.py:71 | a permutation of the ratings in non-increasing order |
| Evaluation.IdealOrderUnique | evaluation.py:68-73 | any non-increasing permutation of the ratings is the ideal order, so tie order cannot matter |
| Evaluation.MeanSkipNaN | evaluation.py:94-95 | the mean is NaN exactly when every value is NaN |
| Evaluation.MeanBounds | evaluation.py:94-95 | the NaN-skipping mean of values in [lo, hi] lies in [lo, hi] |
| Evaluation.GroupRows | evaluation.py:92 | a group's rows are exactly the rows with its label |
| Evaluation.GroupMeanBounds | evaluation.py:90-95 | a group mean of values in [lo, hi] lies in [lo, hi] |
| Evaluation.GroupedMeanBounds | evaluation.py:90-96 | the mean of the group means lies in [lo, hi] |
| Evaluation.MeanAveragePrecisionBounds | evaluation.py:89-98 | MAP of a grouping lies in [0, 1] when no list repeats an id |
| Evaluation.SplitPieces | evaluation.py:115 | no piece of `split('_')` contains `_` |
| Evaluation.JoinSplit | evaluation.py:115 | joining the pieces with `_` gives back the key |
| Evaluation.SplitNone | evaluation.py:115 | a key splits into one piece iff it has no `_` |
| Evaluation.MetricKeySplit | evaluation.py:115 | `m_g` with no `_` in m unpacks into two pieces iff g has no `_`, and then into (m, g) |
| Evaluation.CellOf | evaluation.py:115 | the two pieces of a key, which join back to it |
| Evaluation.ReshapeStep | evaluation.py:114-116 | writing one more key into its cell keeps the table a rearrangement of the keys written so far |
| Evaluation.ReshapeMetrics | evaluation.py:113-118 | fails iff some key does not unpack into two pieces; otherwise every key's value is in its cell and every cell comes from a key |
| Evaluation.MetricKeysDistinct | evaluation.py:89-111 | different groupings give different keys, and no MAP key is an NDCG key |
| Evaluation.MetricKeyNames | evaluation.py:89-115 | `MAP_g` and `NDCG_g` unpack iff g has no `_`, into (MAP, g) and (NDCG, g) |
| Evaluation.MetricKeysSplit | evaluation.py:89-115 | every metric key unpacks iff no grouping name has `_` |
| Evaluation.MetricTable | evaluation.py:113-118 | the table's cells are only MAP and NDCG columns over the groupings |
| Evaluation.RecordedValues | evaluation.py:89-111 | a recorded grouping's keys hold its MAP and its NDCG |
| Evaluation.EvaluationTable | evaluation.py:80-118 | every grouping's MAP and NDCG cells hold that grouping's means |
| Evaluation.EvaluateRecommendations | evaluation.py:80-118 | fails iff a grouping name contains `_`; otherwise the table holds exactly the MAP and NDCG of each grouping |
| ExperimentData.OwnGroups | experiments/utils/recommender_data_preprocessor.py:13 | every test row gets the single label `group1` equal to its user id, data unchanged |
| ExperimentData.GroupColumnInjective | experiments/utils/recommender_data_preprocessor.py:16 | different positions give different column names, none of them `group1` |
| ExperimentData.GroupFiles | experiments/utils/recommender_data_preprocessor.py:14-15 | one file for every grouping but the first, in order |
| ExperimentData.JoinRowSpec | experiments/utils/recommender_data_preprocessor.py:16 | a row joins exactly the file rows of its user |
| ExperimentData.MergeGroupSpec | experiments/utils/recommender_data_preprocessor.py:16 | the merge is exactly the joins of a test row with a file row of its user |
| ExperimentData.StageColumns | experiments/utils/recommender_data_preprocessor.py:13-16 | after n files the columns are `group1` then one positional column per file |
| ExperimentData.StageRows | experiments/utils/recommender_data_preprocessor.py:13-16 | every row comes from a test row, is labelled with its own user in `group1` and with a label the j-th file assigns its user in each later column |
| ExperimentData.JoinedStageRow | experiments/utils/recommender_data_preprocessor.py:16 | joining a staged row with its user's file row gives a staged row with one column more |
| ExperimentData.StageKeeps | experiments/utils/recommender_data_preprocessor.py:14-16 | a test row whose user is in every file survives the merges |
| ExperimentData.StageSpec | experiments/utils/recommender_data_preprocessor.py:9-18 | columns and labels as above, and a test row survives iff its user is in every file |
| ExperimentData.GetTrainTest | experiments/utils/recommender_data_preprocessor.py:9-18 | the training rows unchanged, and the test table after merging every group file |
| ExperimentData.PopularityRanking | experiments/utils/recommender_data_preprocessor.py:28-37 | every training movie once, by non-increasing number of distinct raters |
| ExperimentData.TrainUsers | experiments/utils/recommender_data_preprocessor.py:39-44 | the training users, strictly increasing |
| ExperimentData.WatchedBy | experiments/utils/recommender_data_preprocessor.py:42 | exactly the movies a user rated |
| ExperimentData.UnwatchedSpec | experiments/utils/recommender_data_preprocessor.py:37-52 | a user's list keeps the popularity order and leaves out exactly the movies the user rated |
| ExperimentData.GetUnwatched | experiments/utils/recommender_data_preprocessor.py:26-56 | one row per training user, in increasing id order, with that user's unwatched list |
| ExperimentData.UnwatchedUserSet | experiments/utils/recommender_data_preprocessor.py:39-44 | the unwatched table's users are exactly the training users |
| ExperimentData.SortedByRating | experiments/utils/recommender_data_preprocessor.py:62 | a permutation of the rows in non-increasing rating order |
| ExperimentData.TestUsers | experiments/utils/recommender_data_preprocessor.py:63 | the test users, strictly increasing |
| ExperimentData.FirstRowOf | experiments/utils/recommender_data_preprocessor.py:62-66 | after sorting, a user's first row is one of their rows with their highest rating |
| ExperimentData.FirstRated | experiments/utils/recommender_data_preprocessor.py:66 | a row of the user with their highest rating |
| ExperimentData.Histories | experiments/utils/recommender_data_preprocessor.py:59-72 | one history per test user, in increasing user order |
| ExperimentData.GetUsersWatchHistory | experiments/utils/recommender_data_preprocessor.py:59-76 | fails iff a grouping is neither a label column of the table nor `movieId`/`rating`; otherwise the histories, labelled only by the groupings not overwritten by a list column |
| ExperimentData.LabelGroups | experiments/utils/recommender_data_preprocessor.py:64-68 | exactly the groupings other than `movieId` and `rating`, whose `first` entries the later list entries replace |
| ExperimentData.ListGroupingHasNoLabel | experiments/utils/recommender_data_preprocessor.py:64-68 | grouping by `rating` succeeds on every table and gives histories with no label |
| ExperimentData.WatchHistoryUsers | experiments/utils/recommender_data_preprocessor.py:60-72 | the histories' users are strictly increasing and exactly the test users |
| ExperimentData.WatchHistoryLists | experiments/utils/recommender_data_preprocessor.py:62-74 | a history's id and rating lists line up, are not empty, and the ratings never increase |
| ExperimentData.WatchHistoryPairs | experiments/utils/recommender_data_preprocessor.py:62-68 | a history's (movie, rating) pairs are a permutation of the user's test rows |
| ExperimentData.WatchHistoryLabels | experiments/utils/recommender_data_preprocessor.py:66 | a history's labels are exactly the groupings, each taken from a highest-rated row of the user |
| ExperimentData.MergeHistorySpec | experiments/utils/recommender_data_preprocessor.py:84 | a history joins exactly the unwatched rows of its user |
| ExperimentData.MergeUnwatchedSpec | experiments/utils/recommender_data_preprocessor.py:84 | the merge is exactly the joins of a history with an unwatched row of its user |
| ExperimentData.MergeHistoryNone | experiments/utils/recommender_data_preprocessor.py:84 | a user without an unwatched row is dropped |
| ExperimentData.MergeHistoryAtMostOne | experiments/utils/recommender_data_preprocessor.py:84 | with increasing unwatched users, a history joins at most one row, of its own user |
| ExperimentData.MergeUnwatchedIncreasing | experiments/utils/recommender_data_preprocessor.py:84 | merged rows stay in strictly increasing user order |
| ExperimentData.MergeUnwatchedUsers | experiments/utils/recommender_data_preprocessor.py:84 | the merged users are the users present on both sides |
| ExperimentData.RecommenderRowsOrder | experiments/utils/recommender_data_preprocessor.py:79-86 | the experiment's rows are in strictly increasing user order |
| ExperimentData.RecommenderRowsContent | experiments/utils/recommender_data_preprocessor.py:79-86 | every row is labelled for every grouping, comes from its user's history and carries that user's unwatched list |
| ExperimentData.RecommenderRowsUsers | experiments/utils/recommender_data_preprocessor.py:82-84 | the rows' users are exactly the users in both the test and the training data |
| ExperimentData.StagedColumns | experiments/utils/recommender_data_preprocessor.py:13-16 | a name is a label column of the test table iff it is `group1` or a positional group column |
| ExperimentData.GetRecommenderData | experiments/utils/recommender_data_preprocessor.py:79-86 | fails iff some grouping is neither a label column nor `movieId`/`rating`; otherwise rows ordered by user, labelled for every other grouping, with unwatched lists, exactly for the users in test and training |
| SplitUsers.FileNameInjective | split_users.py:33 | different sizes are written to different files |
| SplitUsers.KeptCount | split_users.py:24-27 | the largest multiple of the size not above the user count; all users when it divides |
| SplitUsers.SplitForSize | split_users.py:24-31 | the first kept users, each labelled with position div size |
| SplitUsers.KeptPrefix | split_users.py:25-27 | the table's users are the shuffled users' prefix, or all of them when the size divides |
| SplitUsers.GroupPositions | split_users.py:29-31 | group l exists iff its block fits, and holds exactly the size consecutive positions of that block |
| SplitUsers.LabelsInRange | split_users.py:29-31 | every label is the number of a group that exists |
| SplitUsers.SplitOfPermutation | split_users.py:18-31 | a shuffle of distinct users gives a table of distinct users drawn from them |
| SplitUsers.TableOfTestUsers | split_users.py:11-31 | a shuffle of the de-duplicated test users gives distinct test users, as many as the kept count |
| SplitUsers.SplitUsersByGroups | split_users.py:9-33 | one file per size 5, 6, 7, each holding the split of the de-duplicated users shuffled with that size's seed |
| Sequences.Dedup | split_users.py:14 | the same elements, each once, in the order of their first occurrences |

## Left out

- File I/O is a parameter or a result, never modelled. This covers reading feather/parquet catalogs, histories, ratings, group files and embeddings, and writing the group files.
- The catalog and the history user count are evaluated at import time in the source. Here they are constructor arguments.
- `SVD.fit` is not modelled. `surprise` training and its floating-point search are outside Dafny. It appears as its result, the `trained` factors.
- The model indexes `bi`/`qi`/`pu` by raw movie id and by the start id, exactly as the source indexes them. It does not model `surprise`'s mapping from raw to inner ids.
- `_get_users_embeddings` is not modelled, nor are `cdist` and the averaging of the users' embeddings. Their result is the `distance` of each embedding to the group's average.
- `get_movies` only reads a file, so it is not modelled.
- `app.py` and `src/app.py` are UI, not part of this model.
- NDCG's `log2` discounts and `1e-8` epsilon are not modelled. They are the parameter `ndcg` applied to the list's ratings and their ideal order. The ideal order itself is modelled.
- `sklearn` is imported but unused, so it is not modelled.
- `Evaluation.AveragePrecision`: does not model `np.around(x, 2)`, because decimal rounding of floats is not part of the model; the bounds are stated for the unrounded value.
- `Recommender.EmbeddingRecommendation`: the order among equal distances is left open, because `argsort` is not stable. The contract states sortedness and the top-k property, not a tie order.
- `Recommender.EmbeddingRecommendation`: requires an embedding for every candidate. Without one, the source's inner merge drops that candidate, and the positional `.loc` then picks rows that no longer line up with the distances. The model does not reproduce that misalignment.
- `Recommender.SvdRecommendation`: the tie order of `argsort(-score)` is left open for the same reason.
- `ExperimentData.PopularityRanking`: the order among movies with equal rater counts is left open, because `sort_values` is not stable.
- `ExperimentData.SortedByRating`: the tie order is left open for the same reason, so `FirstRated` can be any highest-rated row of a user.
- Every numpy/pandas sort is modelled by one insertion sort. Contracts use only its ordering and permutation facts, never the position of equal elements.
- NaN is `None`, the float `mean` is an exact mean over reals, and floats are reals.
- `Recommender.GroupRecommender.GetSvdBasedRecommendation`: needs at least one session user row in `pu`, where numpy would give a NaN mean with a warning.
- An embedding table with one movie id twice is not modelled. The embeddings are a map from id to vector.
- Negative numpy indices are not modelled. Pool ids must index the factor arrays from 0.
- The order of keys in the reshaped metrics dictionary is not modelled. The table is a map from (metric, grouping) cells.
- Listing a grouping twice is not modelled faithfully. pandas suffixes the duplicate `_rec` column, while `RecsFor` overwrites it.
- `get_users_watch_history` converts lists to `np.array`, a change of representation only. The model keeps sequences.
- The exceptions that reading a missing file raises are not modelled.
- pandas 2.2 or later is assumed. From that version, an inner merge keeps the rows in left-table order; earlier versions group them by key. `Evaluation.MergeGrouping`, `ExperimentData.MergeGroup` and `ExperimentData.MergeUnwatched` keep left order. Nothing downstream depends on that order except `RecommenderRowsOrder`, whose left table is already in increasing user order.
