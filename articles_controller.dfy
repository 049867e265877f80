/**
 * The actions of the articles controller that change state: counting a view
 * on `show`, and liking and unliking an article.
 */
module ArticlesController {
  import opened Ids
  import opened VisitedList
  import opened Likes
  import opened Access
  import opened Articles

  /**
   * `view_countup`: the view counts only when the article is not in the
   * session's visited list; the list then holds the article first, the other
   * ids after it, without duplicates and cut to the window.
   */
  method ViewCountup(session: Session, article: Article)
    modifies session, article`viewCount
    ensures article.viewCount == old(article.viewCount) + (if article.id in old(session.visited) then 0 else 1)
    ensures session.visited == Push(old(session.visited), article.id)
    ensures session.Valid()
  {
    var list := session.visited;
    if article.id !in list {
      article.IncrementViewCount();
    }
    session.visited := Push(list, article.id);
  }

  function Describe(article: Article?): (info: Option<ArticleInfo>)
    reads article
    ensures info.Some? <==> article != null
  {
    if article == null then None else Some(ArticleInfo(article.owner, article.published))
  }

  /**
   * `show`, with its filters. `urlUser` is the user the URL names, if one
   * exists; `article` is the article with the requested id, or null. Only a
   * render counts a view; a draft is never rendered and nothing changes for it.
   */
  method Show(session: Session, urlUser: Option<UserId>, article: Article?, currentUser: Option<UserId>)
      returns (r: ShowResponse)
    modifies session, article
    ensures r == ShowDecision(urlUser, old(Describe(article)), currentUser)
    ensures r == Render ==> (
      && article != null
      && article.viewCount == old(article.viewCount) + (if article.id in old(session.visited) then 0 else 1)
      && session.visited == Push(old(session.visited), article.id)
      && session.Valid()
      && article.likeCount == old(article.likeCount) && article.published == old(article.published))
    ensures r != Render ==> unchanged(session) && (article != null ==> unchanged(article))
  {
    r := ShowDecision(urlUser, Describe(article), currentUser);
    if r == Render {
      ViewCountup(session, article);
    }
  }

  /** The reply of `create_like`: `liked: true`, or status 400. */
  datatype LikeReply = Liked(articleId: ArticleId) | BadRequest(articleId: ArticleId)

  /** The article's counter agrees with the like table. */
  ghost predicate CountInSync(likes: LikeTable, article: Article)
    reads likes, article
  {
    article.likeCount == LikeCount(likes.rows, article.id)
  }

  /**
   * `create_like`: find or initialize the edge, save it; on success recount and
   * reply `liked: true`, otherwise reply 400 and leave the counter alone.
   * `accepted` is false when `save` returns false (a failed validation).
   */
  method CreateLike(likes: LikeTable, article: Article, currentUser: UserId, accepted: bool)
      returns (reply: LikeReply)
    requires likes.Valid()
    modifies likes, article`likeCount
    ensures likes.Valid()
    ensures reply == if accepted then Liked(article.id) else BadRequest(article.id)
    ensures likes.rows == if accepted then Saved(old(likes.rows), ArticleLike(currentUser, article.id)) else old(likes.rows)
    ensures accepted ==> multiset(likes.rows)[ArticleLike(currentUser, article.id)] == 1 && CountInSync(likes, article)
    ensures !accepted ==> article.likeCount == old(article.likeCount)
  {
    var edge := ArticleLike(currentUser, article.id);
    var saved := likes.Save(edge, accepted);
    if saved {
      LikeIsIdempotent(old(likes.rows), currentUser, article.id);
      article.UpdateLikeCount(likes);
      reply := Liked(article.id);
    } else {
      reply := BadRequest(article.id);
    }
  }

  /**
   * `destroy_like`: find or initialize the edge, destroy it (nothing to do when
   * it was never stored), recount, reply with no content.
   */
  method DestroyLike(likes: LikeTable, article: Article, currentUser: UserId)
    requires likes.Valid()
    modifies likes, article`likeCount
    ensures likes.Valid()
    ensures likes.rows == Destroyed(old(likes.rows), ArticleLike(currentUser, article.id))
    ensures ArticleLike(currentUser, article.id) !in likes.rows
    ensures CountInSync(likes, article)
  {
    var edge := ArticleLike(currentUser, article.id);
    likes.Destroy(edge);
    DestroyedKeepsUnique(old(likes.rows), edge);
    article.UpdateLikeCount(likes);
  }

  /**
   * A draft is refused to a visitor; once published, the visitor's first read
   * counts a view and the second read does not.
   */
  method ReadScenario() returns (refused: ShowResponse, shown: ShowResponse, views: nat)
    ensures refused == Refused(Forbidden) && shown == Render
    ensures views == 1
  {
    var owner, visitor := 1, 2;
    var article := new Article(10, owner, false);
    var session := new Session();

    refused := Show(session, Some(owner), article, Some(visitor));
    assert article.viewCount == 0 && session.visited == [];
    // what a successful build with publish_type "published" leaves behind
    article.published := true;
    shown := Show(session, Some(owner), article, Some(visitor));
    assert article.viewCount == 1;
    PushAgain([], article.id);
    var again := Show(session, Some(owner), article, Some(visitor));
    views := article.viewCount;
  }

  /** Like, like again and unlike: one, one and no likes on the article. */
  method LikeScenario() returns (afterLike: nat, afterSecondLike: nat, afterUnlike: nat)
    ensures afterLike == 1 && afterSecondLike == 1 && afterUnlike == 0
  {
    var owner, visitor := 1, 2;
    var article := new Article(10, owner, true);
    var likes := new LikeTable();
    var e := ArticleLike(visitor, article.id);

    var reply := CreateLike(likes, article, visitor, true);
    assert likes.rows == [e];
    assert LikeCount([e], 10) == 1 + LikeCount([], 10);
    afterLike := article.likeCount;
    reply := CreateLike(likes, article, visitor, true);
    afterSecondLike := article.likeCount;
    DestroyLike(likes, article, visitor);
    assert likes.rows == [] by {
      assert [e] == [e] + [];
    }
    afterUnlike := article.likeCount;
  }
}
