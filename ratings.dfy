/** Rating rows `(userId, movieId, rating)`, the table shape that the recommender's
    preprocessing produces and the experiments' training data has, and the
    `groupby(by="userId")` views of it. */
module Ratings {
  import opened Sequences
  import opened Sorting

  datatype Rating = Rating(userId: int, movieId: int, rating: int)

  /** The `movieId` column. */
  function MovieIdsOf(rows: seq<Rating>): (ids: seq<int>)
    ensures |ids| == |rows|
    ensures forall k :: 0 <= k < |rows| ==> ids[k] == rows[k].movieId
  {
    seq(|rows|, k requires 0 <= k < |rows| => rows[k].movieId)
  }

  /** The `userId` column. */
  function UserIdsColumn(rows: seq<Rating>): (ids: seq<int>)
    ensures |ids| == |rows|
    ensures forall k :: 0 <= k < |rows| ==> ids[k] == rows[k].userId
  {
    seq(|rows|, k requires 0 <= k < |rows| => rows[k].userId)
  }

  /** The group keys of `groupby(by="userId")`: every user once, in increasing order. */
  function UserIdsOf(rows: seq<Rating>): (users: seq<int>)
    ensures forall i, j :: 0 <= i < j < |users| ==> users[i] < users[j]
    ensures forall u :: u in users <==> exists t :: t in rows && t.userId == u
    ensures |rows| > 0 ==> |users| > 0
  {
    var column := UserIdsColumn(rows);
    var users := UniqueSorted(column);
    assert forall u :: u in column <==> exists t :: t in rows && t.userId == u by {
      forall u ensures u in column <==> exists t :: t in rows && t.userId == u {
        if u in column {
          var k :| 0 <= k < |column| && column[k] == u;
          assert rows[k] in rows;
        }
      }
    }
    assert |rows| > 0 ==> rows[0].userId in users;
    users
  }

  /** `groupby(by="userId").agg({"movieId": list})` for one user: the ids that user
      rated, in row order. */
  function RatedBy(rows: seq<Rating>, user: int): (ids: seq<int>)
    ensures forall x :: x in ids <==> exists t :: t in rows && t.userId == user && t.movieId == x
  {
    var own := Filter(rows, (t: Rating) => t.userId == user);
    var ids := MovieIdsOf(own);
    assert forall x :: x in ids <==> exists t :: t in own && t.movieId == x by {
      forall x ensures x in ids <==> exists t :: t in own && t.movieId == x {
        if x in ids {
          var k :| 0 <= k < |ids| && ids[k] == x;
          assert own[k] in own;
        }
      }
    }
    ids
  }
}
