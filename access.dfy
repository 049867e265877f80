/**
 * Who may reach which action: the `before_action` chain (`set_user!`,
 * `set_article!`, `check_owner!`) and the draft branch of `show`.
 */
module Access {
  import opened Ids

  datatype Action =
    | Index | New | Create | Show | Edit | Update | Destroy
    | CreateLike | DestroyLike | Preview

  /** The actions `set_article!` runs for. */
  predicate LoadsArticle(a: Action)
  {
    a in {Show, Edit, Update, Destroy, CreateLike, DestroyLike}
  }

  /** The actions `check_owner!` runs for as a filter. */
  predicate OwnerOnly(a: Action)
  {
    a in {New, Edit, Update, Destroy}
  }

  /** How a request is stopped: a lookup miss (`find_by!`, `find`) or `Errors::Forbidden`. */
  datatype Halt = NotFound | Forbidden

  datatype Gate = Proceed | Halted(reason: Halt)

  /** `check_owner!`: the user named in the URL must be the signed-in one. */
  function CheckOwner(urlUser: UserId, currentUser: Option<UserId>): (g: Gate)
    ensures g == Proceed <==> currentUser == Some(urlUser)
    ensures g != Proceed ==> g == Halted(Forbidden)
  {
    if currentUser == Some(urlUser) then Proceed else Halted(Forbidden)
  }

  /**
   * The filters in order, the first failure halting the request: `set_user!`
   * (`urlUser` is the user found by the URL's name), `set_article!` for the
   * actions that load one (`articleOwner` is the owner of the article with the
   * requested id, if there is one; only that user's articles are searched),
   * then `check_owner!` for the owner-only actions.
   */
  function BeforeActions(action: Action, urlUser: Option<UserId>, articleOwner: Option<UserId>,
                         currentUser: Option<UserId>): (g: Gate)
    // `new`, `edit`, `update` and `destroy` run only for the user named in the URL, signed in
    ensures g == Proceed && OwnerOnly(action) ==> urlUser.Some? && currentUser == urlUser
    // a miss is NotFound whoever asks
    ensures urlUser.None? || (LoadsArticle(action) && articleOwner != urlUser) ==> g == Halted(NotFound)
    // once the lookups succeed, only the owner-only actions can be refused, and only to someone else
    ensures urlUser.Some? && (LoadsArticle(action) ==> articleOwner == urlUser) ==>
      g == (if OwnerOnly(action) && currentUser != urlUser then Halted(Forbidden) else Proceed)
  {
    if urlUser.None? then Halted(NotFound)
    else if LoadsArticle(action) && articleOwner != urlUser then Halted(NotFound)
    else if OwnerOnly(action) then CheckOwner(urlUser.value, currentUser)
    else Proceed
  }

  /** What the controller knows of a stored article: its owner and whether it is published. */
  datatype ArticleInfo = ArticleInfo(owner: UserId, published: bool)

  datatype ShowResponse = Render | RedirectToEdit | Refused(reason: Halt)

  predicate Found(urlUser: Option<UserId>, article: Option<ArticleInfo>)
  {
    urlUser.Some? && article.Some? && article.value.owner == urlUser.value
  }

  /**
   * The decision `show` makes: after the filters, a published article is
   * rendered; for a draft `check_owner!` runs, so anyone but the owner is
   * refused and the owner is sent to the edit page. A draft is never rendered.
   */
  function ShowDecision(urlUser: Option<UserId>, article: Option<ArticleInfo>,
                        currentUser: Option<UserId>): (r: ShowResponse)
    ensures r == Refused(NotFound) <==> !Found(urlUser, article)
    ensures r == Render <==> Found(urlUser, article) && article.value.published
    ensures r == RedirectToEdit <==>
      Found(urlUser, article) && !article.value.published && currentUser == Some(article.value.owner)
    ensures r == Refused(Forbidden) <==>
      Found(urlUser, article) && !article.value.published && currentUser != Some(article.value.owner)
  {
    var owner := if article.Some? then Some(article.value.owner) else None;
    match BeforeActions(Show, urlUser, owner, currentUser)
    case Halted(h) => Refused(h)
    case Proceed =>
      if article.value.published then Render
      else
        match CheckOwner(urlUser.value, currentUser)
        case Halted(h) => Refused(h)
        case Proceed => RedirectToEdit
  }
}
