# Articles controller: view counting, likes and access gating

A model of the three pieces of logic in the articles controller of a small
article-publishing application (`app/controllers/articles_controller.rb`):

- **View-count deduplication** (`view_countup`). The session keeps the ids of
  recently viewed articles, most recent first. A read of a published article
  bumps its `view_count` only when its id is not in that list. The list is then
  rebuilt as `list.unshift(id).uniq[0, 50]`. Module `VisitedList` defines
  Ruby's `uniq` (first occurrence kept), the cut `[0, 50]` and the rebuilt list
  (`Push`). It proves what the window does: the viewed id comes first, there are
  no duplicates, at most 50 entries, the other ids keep their order, and an entry
  leaves exactly when views of other articles after it cover 50 distinct ids
  (repeated views of the same article count once). The
  imperative step is `ArticlesController.ViewCountup`, over a `Session` object and
  an `Article` object.
- **Like / unlike** (`create_like`, `destroy_like`). Like edges
  `(user_id, 'Article', article_id)` are rows of a table (`Likes.LikeTable`).
  Saving a found-or-initialized edge inserts it only when absent. Destroying it
  removes the stored row, or does nothing for an edge that was never stored.
  Afterwards the article's `like_count` is recounted. The model keeps "at most
  one edge per triple" as an invariant and proves that liking and unliking are
  idempotent.
- **Access gating** (the `before_action` chain, `check_owner!`, the draft branch
  of `show`). Module `Access` gives the filter chain as a pure function. It also
  gives `show`'s decision among render, redirect to the edit page, and refusal.
  `ArticlesController.Show` puts the decision and the view counting together:
  only a render counts a view.

Inputs that come from outside the controller are parameters:
- the user found by the URL's name (`Option`);
- the article found by id (an `Article?`, or its owner as an `Option`);
- the signed-in user (`Option`; none means nobody is signed in);
- whether saving a like succeeds (`accepted`; false when `save` returns false, i.e. a failed validation).

`update_like_count` belongs to the Article model, which is not part of this
model. It is ASSUMED to recount the article's edges in the like table
(`Articles.Article.UpdateLikeCount` stores `Likes.LikeCount` of the table). It is
not assumed to add or subtract one.

Two behaviours of the code that are easy to misread, and that the model follows:
- A signed-in user other than the owner who asks for a draft is refused
  (`Errors::Forbidden`, because `check_owner!` runs first). They are not
  redirected. Only the owner is redirected to the edit page (lines 31-35).
- When the viewed id is already in the session list, the view is not counted,
  but the list is still rebuilt, so the id moves to the front (line 130 runs
  on every render).

## Model

| member | source | states |
|---|---|---|
| `VisitedList.Uniq` | app/controllers/articles_controller.rb:130 | Ruby's `uniq`: the result has no duplicates, holds exactly the elements of the input, and is no longer than it |
| `VisitedList.Take` | app/controllers/articles_controller.rb:130 | `[0, n]`: a prefix of the list, of length `n` or the whole list when shorter |
| `VisitedList.Push` | app/controllers/articles_controller.rb:130 | the rebuilt visited list starts with the viewed id, has no duplicates, holds 1 to 50 ids, and each id is the viewed one or was in the old list |
| `VisitedList.Without` | app/controllers/articles_controller.rb:130 | removing an id removes every occurrence, keeps all other ids, shortens the list by the id's multiplicity, and keeps a duplicate-free list duplicate-free |
| `VisitedList.FirstIndex` | app/controllers/articles_controller.rb:130 | the position of an id's first occurrence: it holds the id, and no earlier position does |
| `VisitedList.UniqExtends` | app/controllers/articles_controller.rb:130 | what `uniq` keeps of a prefix stays a prefix of what it keeps of the whole list |
| `VisitedList.UniqOfDistinct` | app/controllers/articles_controller.rb:130 | `uniq` leaves a duplicate-free list unchanged |
| `VisitedList.UniqFirstOccurrenceOrder` | app/controllers/articles_controller.rb:130 | `uniq` keeps ids in the order of their first occurrences |
| `VisitedList.WithoutConcat` | app/controllers/articles_controller.rb:130 | removing an id from two joined lists removes it from each |
| `VisitedList.UniqCons` | app/controllers/articles_controller.rb:130 | `[x] + s` after `uniq` is `x` followed by the uniq of `s` with `x` removed: what `unshift` then `uniq` does |
| `VisitedList.PushShape` | app/controllers/articles_controller.rb:130 | on a session list (no duplicates, at most 50): an id already listed moves to the front and the others keep their order; a new id goes in front, and only when the list was full is its last entry dropped |
| `VisitedList.PushKeeps` | app/controllers/articles_controller.rb:130 | on a session list, an id is in the rebuilt list exactly when it is the viewed id or was listed, except the last entry of a full list on a new id |
| `VisitedList.PushKeepsOrder` | app/controllers/articles_controller.rb:130 | for any old list, every id after the first came from the old list, and these ids keep the order of their first occurrences in it |
| `VisitedList.PushAgain` | app/controllers/articles_controller.rb:127-131 | after a view the id is listed, so an immediate second view counts nothing and leaves the list unchanged |
| `VisitedList.Replay` | app/controllers/articles_controller.rb:127-131 | the list after a sequence of views ends with the last viewed id in front, has no duplicates, and holds at most 50 ids |
| `VisitedList.StaysOut` | app/controllers/articles_controller.rb:130 | an id that is not listed and not viewed again is never listed again |
| `VisitedList.ShiftBack` | app/controllers/articles_controller.rb:130 | viewing an id that is not among the first `k + 1` entries moves entry `k` one place back; the entries in front of it are then the viewed id and the old front; at position 50 the entry leaves the window |
| `VisitedList.WithoutOne` | app/controllers/articles_controller.rb:130 | in a duplicate-free list, removing an id removes exactly its one position, keeping the rest in order |
| `VisitedList.StaysPut` | app/controllers/articles_controller.rb:130 | viewing an id already ahead of entry `k` leaves the entry at place `k`, with the same ids ahead of it |
| `VisitedList.UniqStep` | app/controllers/articles_controller.rb:130 | one more view extends the distinct ids seen so far by that id exactly when it was not seen before |
| `VisitedList.DriftStep` | app/controllers/articles_controller.rb:130 | one view of another id moves an entry to the place counted by the distinct ids viewed ahead of it, or out of the window at 50 |
| `VisitedList.DriftsBack` | app/controllers/articles_controller.rb:130 | with exactly the distinct ids of `before` ahead of it, an entry ends at place `|Uniq(before + ids)|` after further views of other ids, repeats allowed, and leaves the window once that place reaches 50 |
| `VisitedList.WindowEviction` | app/controllers/articles_controller.rb:127-131 | after viewing an article, later views of other articles (repeats allowed) keep it listed while they cover fewer than 50 distinct ids (a new view does not count), and push it out once they cover 50 or more (a new view counts again) |
| `VisitedList.WindowEvictionDistinct` | app/controllers/articles_controller.rb:127-131 | the same for views with no repeats: fewer than 50 other distinct views keep the article listed; 50 push it out |
| `VisitedList.Session.constructor` | app/controllers/articles_controller.rb:128 | a session without a visited list starts with the empty list, which satisfies the session invariant |
| `Articles.Article.IncrementViewCount` | app/controllers/articles_controller.rb:129 | `increment!(:view_count)` adds exactly one |
| `Articles.Article.UpdateLikeCount` | app/controllers/articles_controller.rb:73 | assumed recount: `like_count` becomes the number of the article's edges in the like table |
| `ArticlesController.ViewCountup` | app/controllers/articles_controller.rb:127-131 | the counter rises by exactly one when the id was not in the old list and is unchanged when it was; the new list is `Push` of the old one; the session invariant holds afterwards whatever the list held before |
| `Access.CheckOwner` | app/controllers/articles_controller.rb:123-125 | it proceeds exactly when the signed-in user is the user named in the URL, and otherwise halts with Forbidden (nobody signed in included) |
| `Access.BeforeActions` | app/controllers/articles_controller.rb:3-5 | the filter chain (with `set_user!` at 110-112, `set_article!` at 114-117, `check_owner!` at 123-125): a lookup miss is NotFound for anyone; once the lookups succeed, only `new`, `edit`, `update` and `destroy` can be refused, with Forbidden, and only to someone other than the signed-in user named in the URL |
| `Access.ShowDecision` | app/controllers/articles_controller.rb:30-35 | `show`'s outcome, each case as an if-and-only-if: NotFound on a lookup miss; render for a published article; redirect to edit for the owner of a draft; Forbidden for anyone else on a draft; a draft is never rendered |
| `ArticlesController.Show` | app/controllers/articles_controller.rb:29-43 | replies as `ShowDecision`; only a render counts a view (as `ViewCountup`), leaving the article's like count and publish state alone; on any other reply neither the session nor the article changes |
| `Likes.ArticleLike` | app/controllers/articles_controller.rb:67-71 | the key looked up by both like actions: the current user's edge on this article and on no other |
| `Likes.Saved` | app/controllers/articles_controller.rb:67-72 | saving a found-or-initialized edge leaves it stored, inserts it only when absent, touches no other edge, and keeps the table free of duplicate triples |
| `Likes.Destroyed` | app/controllers/articles_controller.rb:82-87 | destroying removes exactly one stored copy of the edge and nothing else (as multisets), and nothing when the edge was never stored |
| `Likes.LikeCount` | app/controllers/articles_controller.rb:73 | the recount is at most the table size, and it is zero exactly when no row targets the article |
| `Likes.UniqueEdgesIsAtMostOne` | app/controllers/articles_controller.rb:67-71 | "no triple in two rows" is the same as "every triple stored at most once" |
| `Likes.UniqueCount` | app/controllers/articles_controller.rb:67-71 | in a table without duplicate triples every triple is stored at most once |
| `Likes.DestroyedKeepsUnique` | app/controllers/articles_controller.rb:87 | destroying keeps the table free of duplicate triples and leaves no copy of the destroyed edge |
| `Likes.LikeCountAppend` | app/controllers/articles_controller.rb:73 | inserting an edge raises the article's count by one exactly when the edge targets that article |
| `Likes.LikeCountDestroyed` | app/controllers/articles_controller.rb:88 | destroying an edge lowers the article's count by one exactly when the edge was stored and targets that article |
| `Likes.DestroyAbsent` | app/controllers/articles_controller.rb:87 | destroying an edge that was never stored leaves the table unchanged |
| `Likes.LikeIsIdempotent` | app/controllers/articles_controller.rb:66-78 | after a like exactly one edge exists for (user, 'Article', id), whether or not it existed before; liking again changes nothing; the count rises by one only for a new edge |
| `Likes.UnlikeIsIdempotent` | app/controllers/articles_controller.rb:81-90 | after an unlike no edge exists for the triple; on an absent edge it is a no-op; unliking again changes nothing; the count falls by one only when an edge went |
| `Likes.LikeTable.Save` | app/controllers/articles_controller.rb:67-72 | on an accepted save the table becomes `Saved` of the old one, otherwise it is unchanged; uniqueness of triples is kept |
| `Likes.LikeTable.Destroy` | app/controllers/articles_controller.rb:82-87 | the table becomes `Destroyed` of the old one; uniqueness of triples is kept |
| `ArticlesController.CreateLike` | app/controllers/articles_controller.rb:66-78 | on a successful save: the edge is stored exactly once, `like_count` is recounted, and the reply is `liked: true`; on a failed save: status 400, table and counter unchanged |
| `ArticlesController.DestroyLike` | app/controllers/articles_controller.rb:81-90 | the edge is gone afterwards, whether or not it existed; the table is `Destroyed` of the old one; the counter is always recounted |
| `ArticlesController.ReadScenario` | app/controllers/articles_controller.rb:30-43 | a draft is refused to a visitor with Forbidden; once published, the visitor's first read renders and counts one view, and the second read does not count |
| `ArticlesController.LikeScenario` | app/controllers/articles_controller.rb:66-90 | on a new article, like, like again and unlike leave the counter at 1, 1 and 0 |

## Left out

- `create`, `update` and `preview` only branch on the boolean results of `ArticleBuilder#build` and `Revision#valid?`, replying 200 or 400. The builder and the Revision model are not part of this model, so these bodies are not modelled. Their gating is modelled in `Access.BeforeActions`.
- `index` (a redirect), `new` and `edit` (they only prepare a view), and `destroy`: the cascade to likes and revisions happens in the Article model, which is not part of this model. Their gating is modelled in `Access.BeforeActions`.
- Publishing: `published` changes only through the builder. `ArticlesController.ReadScenario` sets the field directly in its place.
- Rendering, JSON output, `respond_to`, decorators and HTTP redirects are presentation. Replies are the datatypes `ShowResponse` and `LikeReply`; `destroy_like`'s empty reply has no value.
- ActiveRecord lookups: a miss from `find_by!` or `find` is the `NotFound` halt. The lookups are inputs: an `Option`, or a nullable `Article`.
- Session storage and cookies: the visited list is a plain sequence on a `Session` object. A missing list is the empty list.
- Concurrency: the atomicity of `increment!`, races on the Like unique index, and transactions. A lost race on the unique index is not modelled: `save` raises `ActiveRecord::RecordNotUnique` there rather than returning false, so `create_like` never reaches its 400 reply. `accepted` false stands for a `save` that returns false (a failed validation or an aborting callback).
- Like actions with nobody signed in: `current_user.id` would fail on nil. `CreateLike` and `DestroyLike` take a user id.
- `Articles.Article.UpdateLikeCount`: the recount is an assumption, because the Article model is not part of this model.
- Integer widths: ids and counters are unbounded. Database column overflow is not modelled.
