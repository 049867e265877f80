/** The parts of an `Article` record the controller reads and updates. */
module Articles {
  import opened Ids
  import Likes

  class Article {
    const id: ArticleId
    const owner: UserId
    /** `published?`; changed only by the article builder, which is not part of this model. */
    var published: bool
    var viewCount: nat
    var likeCount: nat

    constructor (id: ArticleId, owner: UserId, published: bool)
      ensures this.id == id && this.owner == owner && this.published == published
      ensures viewCount == 0 && likeCount == 0
    {
      this.id, this.owner, this.published := id, owner, published;
      viewCount, likeCount := 0, 0;
    }

    /** `increment!(:view_count)`. */
    method IncrementViewCount()
      modifies this`viewCount
      ensures viewCount == old(viewCount) + 1
    {
      viewCount := viewCount + 1;
    }

    /**
     * `update_like_count`, taken to recount this article's edges in the like
     * table rather than to add or subtract one.
     */
    method UpdateLikeCount(likes: Likes.LikeTable)
      modifies this`likeCount
      ensures likeCount == Likes.LikeCount(likes.rows, id)
    {
      likeCount := Likes.LikeCount(likes.rows, id);
    }
  }
}
