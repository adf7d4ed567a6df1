/** The post endpoints (app/routers/posts.py), with the page arithmetic of the listing. */
module PostsRouter {
  import opened Wrappers
  import opened Models
  import opened Schemas
  import opened Listing
  import opened Crud

  /**** Page arithmetic ****/

  /** The offset of a page: `(page - 1) * size`. */
  function Skip(page: int, size: int): (skip: int) {
    (page - 1) * size
  }

  /** The number of pages, `ceil(total / size)`, and 1 for an empty listing. */
  function Pages(total: nat, size: int): (pages: int)
    requires size >= 1
  {
    if total > 0 then (total + size - 1) / size else 1
  }

  /** Page 1 starts at offset 0, offsets are never negative, and consecutive pages are adjacent. */
  lemma SkipBounds(page: int, size: int)
    requires page >= 1 && size >= 1
    ensures Skip(1, size) == 0
    ensures 0 <= Skip(page, size)
    ensures Skip(page + 1, size) == Skip(page, size) + size
  {
  }

  /** There is at least one page; a non-empty listing has just enough pages to hold every item,
      which is what makes the count the ceiling of total / size. */
  lemma PagesBounds(total: nat, size: int)
    requires size >= 1
    ensures Pages(total, size) >= 1
    ensures total == 0 ==> Pages(total, size) == 1
    ensures total > 0 ==> (Pages(total, size) - 1) * size < total <= Pages(total, size) * size
  {
    if total > 0 {
      var q := (total + size - 1) / size;
      var m := (total + size - 1) % size;
      assert total + size - 1 == q * size + m && 0 <= m < size;
      assert q * size == total + size - 1 - m;
      assert (q - 1) * size == q * size - size;
    }
  }

  /** Item i of a listing lies on page i / size + 1, which is one of its pages, and on no other. */
  lemma PageOfItem(total: nat, size: int, i: int)
    requires size >= 1 && 0 <= i < total
    ensures var page := i / size + 1;
            && 1 <= page <= Pages(total, size)
            && Skip(page, size) <= i < Skip(page, size) + size
    ensures forall page :: Skip(page, size) <= i < Skip(page, size) + size ==> page == i / size + 1
  {
    var q := i / size;
    Division(size, i);
    assert Skip(q + 1, size) == q * size;
    PageWithinPages(total, size, i);
    forall page | Skip(page, size) <= i < Skip(page, size) + size ensures page == q + 1 {
      OnlyPage(size, i, page);
    }
  }

  lemma Division(size: int, i: int)
    requires size >= 1 && i >= 0
    ensures 0 <= i / size && (i / size) * size <= i < (i / size) * size + size
  {
    var q := i / size;
    var m := i % size;
    assert i == q * size + m && 0 <= m < size;
  }

  /** The page of an item is one of the listing's pages. */
  lemma PageWithinPages(total: nat, size: int, i: int)
    requires size >= 1 && 0 <= i < total
    ensures i / size + 1 <= Pages(total, size)
  {
    var q := i / size;
    Division(size, i);
    PagesBounds(total, size);
    var pages := Pages(total, size);
    if q + 1 > pages {
      MulLeft(pages, q, size);
      assert false;
    }
  }

  /** A page holding item i is page i / size + 1. */
  lemma OnlyPage(size: int, i: int, page: int)
    requires size >= 1 && i >= 0
    requires Skip(page, size) <= i < Skip(page, size) + size
    ensures page == i / size + 1
  {
    var q := i / size;
    Division(size, i);
    if page < q + 1 {
      MulLeft(page, q, size);
    } else if page > q + 1 {
      MulLeft(q + 1, page - 1, size);
    }
  }

  lemma MulLeft(a: int, b: int, size: int)
    requires a <= b && size >= 1
    ensures a * size <= b * size
  {
    assert b * size - a * size == (b - a) * size;
  }

  /**** Handlers ****/

  /** The query bounds of `GET /posts`: `page >= 1`, `1 <= size <= 100`, and a given topic id `>= 1`. */
  predicate ValidPostsQuery(page: int, size: int, topicId: Option<int>) {
    page >= 1 && 1 <= size <= 100 && (topicId.Some? ==> topicId.value >= 1)
  }

  /** `POST /posts`: the topic must exist. */
  method CreatePost(store: Store, body: PostCreate, now: Time) returns (r: Result<PostWithRelations>)
    requires store.Valid()
    modifies store
    ensures store.Valid()
    ensures !ValidPostCreate(body) ==> r == Err(Invalid)
    ensures r == Err(NotFound(TopicEntity)) <==> ValidPostCreate(body) && body.topicId !in old(store.topics)
    ensures r.Ok? <==> ValidPostCreate(body) && body.topicId in old(store.topics)
    ensures r.Err? ==> unchanged(store)
    ensures r.Ok? ==>
              var p := r.value.post;
              && p.id > 0 && p.id !in old(store.posts)
              && p == Post(p.id, body.title, body.content, now, now, body.topicId)
              && store.posts == old(store.posts)[p.id := p]
              && store.topics == old(store.topics) && store.comments == old(store.comments)
              && r.value.topic == store.topics[body.topicId] && r.value.comments == []
              && store.GetPost(p.id) == Some(r.value)
    ensures old(store.RowsOk()) ==> store.RowsOk()
  {
    if !ValidPostCreate(body) {
      return Err(Invalid);
    }
    var topic := store.GetTopic(body.topicId);
    if topic.None? {
      return Err(NotFound(TopicEntity));
    }
    var created := store.CreatePost(body, now);
    r := Ok(created);
  }

  /** `GET /posts?page&size&topic_id`: one page of post summaries with the count of all posts that
      pass the filter and the number of pages. A filter naming no topic is an error. Which posts the
      page holds is stated by PageContents. */
  function GetPosts(store: Store, page: int, size: int, topicId: Option<int>): (r: Result<PostList>)
    reads store
    requires store.Valid()
    ensures !ValidPostsQuery(page, size, topicId) ==> r == Err(Invalid)
    ensures r == Err(NotFound(TopicEntity)) <==>
              ValidPostsQuery(page, size, topicId) && topicId.Some? && topicId.value !in store.topics
    ensures r.Ok? <==>
              ValidPostsQuery(page, size, topicId) && (topicId.Some? ==> topicId.value in store.topics)
    ensures r.Ok? ==>
              && r.value.page == page && r.value.size == size
              && r.value.total == |PostsWhere(store.posts, topicId)|
              && r.value.pages == Pages(r.value.total, size)
              && |r.value.items| == Min(size, Max(0, r.value.total - Skip(page, size)))
  {
    if !ValidPostsQuery(page, size, topicId) then Err(Invalid)
    else if FilterGiven(topicId) && store.GetTopic(topicId.value).None? then Err(NotFound(TopicEntity))
    else
      SkipBounds(page, size);
      var found := store.GetPosts(Skip(page, size), size, topicId);
      Ok(PostList(Summaries(found.0), found.1, page, size, Pages(found.1, size)))
  }

  /** The page holds the summaries of the posts that pass the filter, newest first, from offset
      `(page - 1) * size` on. */
  lemma PageContents(store: Store, page: int, size: int, topicId: Option<int>)
    requires store.Valid() && GetPosts(store, page, size, topicId).Ok?
    ensures var items := GetPosts(store, page, size, topicId).value.items;
            forall i :: 0 <= i < |items| ==>
              && 0 <= Skip(page, size) + i < |store.PostsByDate(topicId)|
              && items[i] == Summarize(store.PostsByDate(topicId)[Skip(page, size) + i])
  {
    PageItems(store, page, size, topicId);
    SummariesAt(store, Skip(page, size), size, topicId);
  }

  /** A page's items are the summaries of the store's page at offset `(page - 1) * size`. */
  lemma PageItems(store: Store, page: int, size: int, topicId: Option<int>)
    requires store.Valid() && GetPosts(store, page, size, topicId).Ok?
    ensures Skip(page, size) >= 0
    ensures GetPosts(store, page, size, topicId).value.items
         == Summaries(store.GetPosts(Skip(page, size), size, topicId).0)
  {
    SkipBounds(page, size);
  }

  /** The summaries of the posts from offset skip on are those of the listing from skip on. */
  lemma SummariesAt(store: Store, skip: nat, size: nat, topicId: Option<int>)
    requires store.Valid()
    ensures var items := Summaries(store.GetPosts(skip, size, topicId).0);
            forall i :: 0 <= i < |items| ==>
              && skip + i < |store.PostsByDate(topicId)|
              && items[i] == Summarize(store.PostsByDate(topicId)[skip + i])
  {
  }

  /** `[PostSummary(...) for post in posts]` */
  function Summaries(posts: seq<Post>): (items: seq<PostSummary>)
    ensures |items| == |posts|
    ensures forall i :: 0 <= i < |posts| ==> items[i] == Summarize(posts[i])
  {
    seq(|posts|, i requires 0 <= i < |posts| => Summarize(posts[i]))
  }

  /** A page lists each post at most once, newest first, and only posts of the filtered topic. */
  lemma PageListing(store: Store, page: int, size: int, topicId: Option<int>)
    requires store.Valid() && GetPosts(store, page, size, topicId).Ok?
    ensures var items := GetPosts(store, page, size, topicId).value.items;
            && (forall i, j :: 0 <= i < j < |items| ==> items[i].createdAt >= items[j].createdAt)
            && (forall i, j :: 0 <= i < j < |items| ==> items[i].id != items[j].id)
            && (topicId.Some? ==> forall i :: 0 <= i < |items| ==> items[i].topicId == topicId.value)
  {
    SkipBounds(page, size);
    var skip: nat := Skip(page, size);
    var posts := store.GetPosts(skip, size, topicId).0;
    store.PostsPage(skip, size, topicId);
    var items := GetPosts(store, page, size, topicId).value.items;
    assert items == Summaries(posts);
    SummariesKeep(posts, items, topicId);
  }

  /** Summaries keep the order, the ids and the topics of the posts they summarise. */
  lemma SummariesKeep(posts: seq<Post>, items: seq<PostSummary>, topicId: Option<int>)
    requires items == Summaries(posts)
    requires forall i, j :: 0 <= i < j < |posts| ==> posts[i].createdAt >= posts[j].createdAt && posts[i].id != posts[j].id
    requires forall p :: p in posts ==> InTopic(p, topicId)
    requires topicId.Some? ==> topicId.value >= 1
    ensures forall i, j :: 0 <= i < j < |items| ==> items[i].createdAt >= items[j].createdAt
    ensures forall i, j :: 0 <= i < j < |items| ==> items[i].id != items[j].id
    ensures topicId.Some? ==> forall i :: 0 <= i < |items| ==> items[i].topicId == topicId.value
  {
    forall i | 0 <= i < |items| && topicId.Some? ensures items[i].topicId == topicId.value {
      assert posts[i] in posts;
    }
  }

  /** Walking the pages 1 .. pages of a listing meets every post that passes the filter, when no
      two of those posts share a creation time (each page is a query of its own, and with ties the
      database may order the tied rows differently from one query to the next). */
  lemma EveryPostOnAPage(store: Store, size: int, topicId: Option<int>, p: Post)
    requires store.Valid() && DistinctPostTimes(store.posts, topicId)
    requires ValidPostsQuery(1, size, topicId) && (topicId.Some? ==> topicId.value in store.topics)
    requires store.StoredPost(p) && InTopic(p, topicId)
    ensures exists page ::
              && 1 <= page <= Pages(|PostsWhere(store.posts, topicId)|, size)
              && Summarize(p) in GetPosts(store, page, size, topicId).value.items
  {
    var all := store.PostsByDate(topicId);
    assert p in all;
    var i :| 0 <= i < |all| && all[i] == p;
    var page := i / size + 1;
    PageOfItem(|all|, size, i);
    PageItems(store, page, size, topicId);
    SummaryAt(store, Skip(page, size), size, topicId, i);
  }

  /** Item i of the listing is summarised on the page that starts at offset skip and holds i. */
  lemma SummaryAt(store: Store, skip: nat, size: nat, topicId: Option<int>, i: int)
    requires store.Valid()
    requires 0 <= i < |store.PostsByDate(topicId)|
    requires skip <= i < skip + size
    ensures Summarize(store.PostsByDate(topicId)[i]) in Summaries(store.GetPosts(skip, size, topicId).0)
  {
    var found := store.GetPosts(skip, size, topicId).0;
    assert found[i - skip] == store.PostsByDate(topicId)[i];
    assert Summaries(found)[i - skip] == Summarize(found[i - skip]);
  }

  /** `GET /posts/{post_id}` */
  function GetPost(store: Store, id: Id): (r: Result<PostWithRelations>)
    reads store
    requires store.Valid()
    ensures r.Ok? <==> id in store.posts
    ensures r.Err? ==> r.error == NotFound(PostEntity)
    ensures r.Ok? ==>
              && r.value.post == store.posts[id]
              && r.value.topic == store.topics[store.posts[id].topicId]
              && (forall c :: c in r.value.comments <==> store.StoredComment(c) && c.postId == id)
              && NoDup(r.value.comments)
  {
    var p := store.GetPost(id);
    if p.None? then Err(NotFound(PostEntity)) else Ok(p.value)
  }

  /** `PUT /posts/{post_id}`: a supplied topic id must name a topic, which is checked before the
      check that the post exists. */
  method UpdatePost(store: Store, id: Id, u: PostUpdate, now: Time) returns (r: Result<PostWithRelations>)
    requires store.Valid()
    modifies store
    ensures store.Valid()
    ensures !ValidPostUpdate(u) ==> r == Err(Invalid)
    ensures r == Err(NotFound(TopicEntity)) <==>
              ValidPostUpdate(u) && u.topicId.Set? && u.topicId.value !in old(store.topics)
    ensures r == Err(NotFound(PostEntity)) <==>
              && ValidPostUpdate(u)
              && (u.topicId.Set? ==> u.topicId.value in old(store.topics))
              && id !in old(store.posts)
    ensures r.Ok? <==>
              && ValidPostUpdate(u)
              && (u.topicId.Set? ==> u.topicId.value in old(store.topics))
              && id in old(store.posts)
    ensures r.Err? ==> unchanged(store)
    ensures r.Ok? ==>
              var p := old(store.posts)[id];
              var q := r.value.post;
              && q.id == id && q.createdAt == p.createdAt && q.updatedAt == now
              && q.title == u.title.Or(p.title)
              && q.content == u.content.Or(p.content)
              && q.topicId == u.topicId.Or(p.topicId)
              && store.posts == old(store.posts)[id := q]
              && store.topics == old(store.topics) && store.comments == old(store.comments)
              && store.GetPost(id) == Some(r.value)
    ensures old(store.RowsOk()) ==> store.RowsOk()
  {
    if !ValidPostUpdate(u) {
      return Err(Invalid);
    }
    if u.topicId.Set? && u.topicId.value != 0 {
      var topic := store.GetTopic(u.topicId.value);
      if topic.None? {
        return Err(NotFound(TopicEntity));
      }
    }
    var updated := store.UpdatePost(id, u, now);
    if updated.None? {
      return Err(NotFound(PostEntity));
    }
    r := Ok(updated.value);
  }

  /** `DELETE /posts/{post_id}`: removes the post with its comments. */
  method DeletePost(store: Store, id: Id) returns (r: Result<()>)
    requires store.Valid()
    modifies store
    ensures store.Valid()
    ensures r.Ok? <==> id in old(store.posts)
    ensures r.Err? ==> r.error == NotFound(PostEntity) && unchanged(store)
    ensures r.Ok? ==>
              && store.posts == old(store.posts) - {id}
              && store.comments == old(store.comments) - CommentsOn(old(store.comments), {id})
              && store.topics == old(store.topics)
    ensures id !in store.posts
    ensures old(store.RowsOk()) ==> store.RowsOk()
  {
    var deleted := store.DeletePost(id);
    if !deleted {
      return Err(NotFound(PostEntity));
    }
    r := Ok(());
  }
}
