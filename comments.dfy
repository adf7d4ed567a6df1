/** The comment endpoints (app/routers/comments.py). */
module CommentsRouter {
  import opened Models
  import opened Schemas
  import opened Listing
  import opened Crud

  /** The query bounds shared by the comment listing: `skip >= 0` and `1 <= limit <= 100`. */
  predicate ValidCommentsQuery(skip: int, limit: int) {
    0 <= skip && 1 <= limit <= 100
  }

  /** `POST /posts/{post_id}/comments`: the post must exist; the comment belongs to it. */
  method CreateComment(store: Store, postId: Id, body: CommentCreate, now: Time) returns (r: Result<Comment>)
    requires store.Valid()
    modifies store
    ensures store.Valid()
    ensures !ValidCommentCreate(body) ==> r == Err(Invalid)
    ensures r == Err(NotFound(PostEntity)) <==> ValidCommentCreate(body) && postId !in old(store.posts)
    ensures r.Ok? <==> ValidCommentCreate(body) && postId in old(store.posts)
    ensures r.Err? ==> unchanged(store)
    ensures r.Ok? ==>
              var c := r.value;
              && c.id > 0 && c.id !in old(store.comments)
              && c == Comment(c.id, body.content, body.author, now, postId)
              && store.comments == old(store.comments)[c.id := c]
              && store.topics == old(store.topics) && store.posts == old(store.posts)
    ensures old(store.RowsOk()) ==> store.RowsOk()
  {
    if !ValidCommentCreate(body) {
      return Err(Invalid);
    }
    var post := store.GetPost(postId);
    if post.None? {
      return Err(NotFound(PostEntity));
    }
    var c := store.CreateComment(body, postId, now);
    r := Ok(c);
  }

  /** `GET /posts/{post_id}/comments?skip&limit`: the post must exist, even for an empty page. */
  function GetCommentsByPost(store: Store, postId: Id, skip: int, limit: int): (r: Result<seq<Comment>>)
    reads store
    requires store.Valid()
    ensures !ValidCommentsQuery(skip, limit) ==> r == Err(Invalid)
    ensures r == Err(NotFound(PostEntity)) <==> ValidCommentsQuery(skip, limit) && postId !in store.posts
    ensures r.Ok? <==> ValidCommentsQuery(skip, limit) && postId in store.posts
    ensures r.Ok? ==>
              && |r.value| == Min(limit, Max(0, |CommentsOn(store.comments, {postId})| - skip))
              && (forall i :: 0 <= i < |r.value| ==> r.value[i] == store.CommentsByDate(postId)[skip + i])
  {
    if !ValidCommentsQuery(skip, limit) then Err(Invalid)
    else if store.GetPost(postId).None? then Err(NotFound(PostEntity))
    else Ok(store.GetCommentsByPost(postId, skip, limit))
  }

  /** A page of `GET /posts/{post_id}/comments` lists stored comments of that post only, each once,
      oldest first. */
  lemma CommentsListed(store: Store, postId: Id, skip: int, limit: int)
    requires store.Valid() && GetCommentsByPost(store, postId, skip, limit).Ok?
    ensures var page := GetCommentsByPost(store, postId, skip, limit).value;
            && (forall c :: c in page ==> store.StoredComment(c) && c.postId == postId)
            && (forall i, j :: 0 <= i < j < |page| ==> page[i].createdAt <= page[j].createdAt && page[i] != page[j])
  {
    store.CommentsPage(postId, skip, limit);
  }

  /** `GET /comments/{comment_id}` */
  function GetComment(store: Store, id: Id): (r: Result<Comment>)
    reads store
    requires store.Valid()
    ensures r.Ok? <==> id in store.comments
    ensures r.Ok? ==> r.value == store.comments[id] && r.value.id == id && r.value.postId in store.posts
    ensures r.Err? ==> r.error == NotFound(CommentEntity)
  {
    var c := store.GetComment(id);
    if c.None? then Err(NotFound(CommentEntity)) else Ok(c.value)
  }

  /** `PUT /comments/{comment_id}` */
  method UpdateComment(store: Store, id: Id, u: CommentUpdate) returns (r: Result<Comment>)
    requires store.Valid()
    modifies store
    ensures store.Valid()
    ensures !ValidCommentUpdate(u) ==> r == Err(Invalid)
    ensures r == Err(NotFound(CommentEntity)) <==> ValidCommentUpdate(u) && id !in old(store.comments)
    ensures r.Ok? <==> ValidCommentUpdate(u) && id in old(store.comments)
    ensures r.Err? ==> unchanged(store)
    ensures r.Ok? ==>
              var c := old(store.comments)[id];
              && r.value.id == id && r.value.createdAt == c.createdAt && r.value.postId == c.postId
              && r.value.content == u.content.Or(c.content)
              && r.value.author == u.author.Or(c.author)
              && store.comments == old(store.comments)[id := r.value]
              && store.topics == old(store.topics) && store.posts == old(store.posts)
    ensures old(store.RowsOk()) ==> store.RowsOk()
  {
    if !ValidCommentUpdate(u) {
      return Err(Invalid);
    }
    var updated := store.UpdateComment(id, u);
    if updated.None? {
      return Err(NotFound(CommentEntity));
    }
    r := Ok(updated.value);
  }

  /** `DELETE /comments/{comment_id}` */
  method DeleteComment(store: Store, id: Id) returns (r: Result<()>)
    requires store.Valid()
    modifies store
    ensures store.Valid()
    ensures r.Ok? <==> id in old(store.comments)
    ensures r.Err? ==> r.error == NotFound(CommentEntity) && unchanged(store)
    ensures r.Ok? ==>
              store.comments == old(store.comments) - {id}
              && store.topics == old(store.topics) && store.posts == old(store.posts)
    ensures id !in store.comments
    ensures old(store.RowsOk()) ==> store.RowsOk()
  {
    var deleted := store.DeleteComment(id);
    if !deleted {
      return Err(NotFound(CommentEntity));
    }
    r := Ok(());
  }
}
