/**
 * Like edges (user, target type, target id) and the recount `update_like_count`
 * stores on an article. The edge table is a sequence of rows, so that "at most
 * one edge per triple" is a property the operations have to keep.
 */
module Likes {
  import opened Ids

  datatype Like = Like(userId: UserId, targetType: string, targetId: int)

  /** The key `create_like` and `destroy_like` look up: `(current_user.id, 'Article', @article.id)`. */
  function ArticleLike(user: UserId, articleId: ArticleId): (e: Like)
    ensures e.userId == user && Targets(e, articleId)
    ensures forall a :: Targets(e, a) ==> a == articleId
  {
    Like(user, "Article", articleId)
  }

  predicate Targets(e: Like, articleId: ArticleId)
  {
    e.targetType == "Article" && e.targetId == articleId
  }

  /** No triple is stored twice. */
  predicate UniqueEdges(rows: seq<Like>)
  {
    forall i, j :: 0 <= i < j < |rows| ==> rows[i] != rows[j]
  }

  /**
   * `find_or_initialize_by` followed by a successful `save`: an edge that was
   * found is saved as it is, a new one is inserted.
   */
  function Saved(rows: seq<Like>, e: Like): (r: seq<Like>)
    ensures e in r
    ensures multiset(r)[e] == if e in rows then multiset(rows)[e] else 1
    ensures forall x :: x != e ==> multiset(r)[x] == multiset(rows)[x]
    ensures UniqueEdges(rows) ==> UniqueEdges(r)
  {
    if e in rows then rows else rows + [e]
  }

  /**
   * `destroy` on the edge `find_or_initialize_by` returned: the stored row goes;
   * an edge that was only initialized (never stored) leaves the table as it is.
   */
  function Destroyed(rows: seq<Like>, e: Like): (r: seq<Like>)
    ensures multiset(r) == multiset(rows) - multiset{e}
    decreases |rows|
  {
    if rows == [] then []
    else
      assert rows == [rows[0]] + rows[1..];
      if rows[0] == e then rows[1..] else [rows[0]] + Destroyed(rows[1..], e)
  }

  /** The number of edges on article `articleId`: the count `update_like_count` is taken to store. */
  function LikeCount(rows: seq<Like>, articleId: ArticleId): (n: nat)
    ensures n <= |rows|
    ensures n == 0 <==> forall i :: 0 <= i < |rows| ==> !Targets(rows[i], articleId)
    decreases |rows|
  {
    if rows == [] then 0
    else
      var rest := LikeCount(rows[1..], articleId);
      assert forall i :: 1 <= i < |rows| ==> rows[i] == rows[1..][i - 1];
      (if Targets(rows[0], articleId) then 1 else 0) + rest
  }

  // ---------------------------------------------------------------------------

  /** "At most one edge per triple", stated on row positions and on multiplicities, are the same thing. */
  lemma UniqueEdgesIsAtMostOne(rows: seq<Like>)
    ensures UniqueEdges(rows) <==> forall e :: multiset(rows)[e] <= 1
  {
    if UniqueEdges(rows) {
      forall e ensures multiset(rows)[e] <= 1 {
        UniqueCount(rows, e);
      }
    } else {
      var i, j :| 0 <= i < j < |rows| && rows[i] == rows[j];
      var front := rows[..j];
      assert rows == front + rows[j..];
      assert rows[i] == front[i];
      assert rows[j] == rows[j..][0];
      assert multiset(rows)[rows[i]] == multiset(front)[rows[i]] + multiset(rows[j..])[rows[i]];
    }
  }

  lemma {:induction false} UniqueCount(rows: seq<Like>, e: Like)
    requires UniqueEdges(rows)
    ensures multiset(rows)[e] <= 1
    decreases |rows|
  {
    if rows != [] {
      var rest := rows[1..];
      assert rows == [rows[0]] + rest;
      assert UniqueEdges(rest) by {
        forall i, j | 0 <= i < j < |rest| ensures rest[i] != rest[j] {
          assert rows[i + 1] == rest[i] && rows[j + 1] == rest[j];
        }
      }
      UniqueCount(rest, e);
      if rows[0] == e {
        assert e !in rest;
      }
    }
  }

  /** Destroying keeps every triple at most once, and leaves none of the destroyed one. */
  lemma DestroyedKeepsUnique(rows: seq<Like>, e: Like)
    requires UniqueEdges(rows)
    ensures UniqueEdges(Destroyed(rows, e)) && e !in Destroyed(rows, e)
  {
    var r := Destroyed(rows, e);
    UniqueEdgesIsAtMostOne(rows);
    UniqueEdgesIsAtMostOne(r);
    assert multiset(r)[e] == 0;
  }

  lemma {:induction false} LikeCountAppend(rows: seq<Like>, e: Like, articleId: ArticleId)
    ensures LikeCount(rows + [e], articleId) == LikeCount(rows, articleId) + (if Targets(e, articleId) then 1 else 0)
    decreases |rows|
  {
    if rows != [] {
      assert (rows + [e])[1..] == rows[1..] + [e];
      LikeCountAppend(rows[1..], e, articleId);
    }
  }

  lemma {:induction false} LikeCountDestroyed(rows: seq<Like>, e: Like, articleId: ArticleId)
    ensures LikeCount(Destroyed(rows, e), articleId) + (if e in rows && Targets(e, articleId) then 1 else 0)
      == LikeCount(rows, articleId)
    decreases |rows|
  {
    if rows != [] && rows[0] != e {
      assert rows == [rows[0]] + rows[1..];
      LikeCountDestroyed(rows[1..], e, articleId);
      var rest := Destroyed(rows[1..], e);
      assert ([rows[0]] + rest)[1..] == rest;
    }
  }

  /**
   * Liking: afterwards exactly one edge for the triple exists whether or not it
   * existed before, liking again changes nothing, and the article's count goes
   * up by one only for a new edge. No other edge is touched.
   */
  lemma LikeIsIdempotent(rows: seq<Like>, user: UserId, articleId: ArticleId)
    requires UniqueEdges(rows)
    ensures var e := ArticleLike(user, articleId);
      multiset(Saved(rows, e))[e] == 1
      && Saved(Saved(rows, e), e) == Saved(rows, e)
      && LikeCount(Saved(rows, e), articleId) == LikeCount(rows, articleId) + (if e in rows then 0 else 1)
  {
    var e := ArticleLike(user, articleId);
    UniqueEdgesIsAtMostOne(rows);
    LikeCountAppend(rows, e, articleId);
  }

  /**
   * Unliking: afterwards no edge for the triple exists, unliking an absent edge
   * leaves the table as it is, and the count goes down by one only when an edge went.
   */
  lemma UnlikeIsIdempotent(rows: seq<Like>, user: UserId, articleId: ArticleId)
    requires UniqueEdges(rows)
    ensures var e := ArticleLike(user, articleId);
      e !in Destroyed(rows, e)
      && (e !in rows ==> Destroyed(rows, e) == rows)
      && Destroyed(Destroyed(rows, e), e) == Destroyed(rows, e)
      && LikeCount(Destroyed(rows, e), articleId) + (if e in rows then 1 else 0) == LikeCount(rows, articleId)
  {
    var e := ArticleLike(user, articleId);
    DestroyedKeepsUnique(rows, e);
    DestroyAbsent(rows, e);
    DestroyAbsent(Destroyed(rows, e), e);
    LikeCountDestroyed(rows, e, articleId);
  }

  lemma {:induction false} DestroyAbsent(rows: seq<Like>, e: Like)
    ensures e !in rows ==> Destroyed(rows, e) == rows
    decreases |rows|
  {
    if rows != [] && e !in rows {
      assert rows == [rows[0]] + rows[1..];
      DestroyAbsent(rows[1..], e);
    }
  }

  /** The like table. Its rows always hold each triple at most once (the uniqueness the storage enforces). */
  class LikeTable {
    var rows: seq<Like>

    ghost predicate Valid()
      reads this
    {
      UniqueEdges(rows)
    }

    constructor ()
      ensures Valid() && rows == []
    {
      rows := [];
    }

    /**
     * `find_or_initialize_by(e)` then `save`. `accepted` is false when `save`
     * returns false (a failed validation or an aborting callback); on such a
     * save nothing is stored. A lost race on the unique index raises instead
     * and is not modelled.
     */
    method Save(e: Like, accepted: bool) returns (saved: bool)
      requires Valid()
      modifies this
      ensures Valid()
      ensures saved == accepted
      ensures rows == if saved then Saved(old(rows), e) else old(rows)
    {
      saved := accepted;
      if saved {
        rows := Saved(rows, e);
      }
    }

    /** `find_or_initialize_by(e)` then `destroy`. */
    method Destroy(e: Like)
      requires Valid()
      modifies this
      ensures Valid()
      ensures rows == Destroyed(old(rows), e)
    {
      DestroyedKeepsUnique(rows, e);
      rows := Destroyed(rows, e);
    }
  }
}
