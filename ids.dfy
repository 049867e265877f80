/** Identities the controller works with. */
module Ids {

  /** A user's id (`current_user.id`, the `user_id` of a like). */
  type UserId = int

  /** An article's id (`@article.id`, the entries of the session's visited list). */
  type ArticleId = int

  /** A value that may be missing: a lookup that found nothing, or no signed-in user. */
  datatype Option<T> = None | Some(value: T)
}
