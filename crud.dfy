/** The repository operations of app/crud.py (`TopicCRUD`, `PostCRUD`, `CommentCRUD`) over an
    in-memory store holding the three tables. Reads are functions of the store; writes are methods
    that change it, each one committed as a single step. */
module Crud {
  import opened Wrappers
  import opened Models
  import opened Schemas
  import opened Listing

  /**** The `setattr` loop of a partial update ****/

  /** The record after `setattr` of each (field, value) of data, in order. */
  function SetAll<R, F>(row: R, data: seq<F>, setattr: (R, F) -> R): (r: R)
    decreases |data|
  {
    if data == [] then row else SetAll(setattr(row, data[0]), data[1..], setattr)
  }

  /** `for field, value in update_data.items(): setattr(db_row, field, value)` */
  method ApplyUpdate<R, F>(row: R, data: seq<F>, setattr: (R, F) -> R) returns (r: R)
    ensures r == SetAll(row, data, setattr)
  {
    r := row;
    var i := 0;
    while i < |data|
      invariant 0 <= i <= |data|
      invariant SetAll(r, data[i..], setattr) == SetAll(row, data, setattr)
    {
      assert data[i..][1..] == data[i + 1..];
      r := setattr(r, data[i]);
      i := i + 1;
    }
  }

  lemma {:induction false} SetAllAppend<R, F>(row: R, a: seq<F>, b: seq<F>, setattr: (R, F) -> R)
    ensures SetAll(row, a + b, setattr) == SetAll(SetAll(row, a, setattr), b, setattr)
    decreases |a|
  {
    if a == [] {
      assert a + b == b;
    } else {
      assert (a + b)[0] == a[0] && (a + b)[1..] == a[1..] + b;
      SetAllAppend(setattr(row, a[0]), a[1..], b, setattr);
    }
  }

  function SetTopicField(t: Topic, f: TopicField): (t': Topic) {
    match f
    case TopicName(name) => t.(name := name)
    case TopicDescription(description) => t.(description := description)
  }

  function SetCommentField(c: Comment, f: CommentField): (c': Comment) {
    match f
    case CommentContent(content) => c.(content := content)
    case CommentAuthor(author) => c.(author := author)
  }

  function SetPostField(p: Post, f: PostField): (p': Post) {
    match f
    case PostTitle(title) => p.(title := title)
    case PostContent(content) => p.(content := content)
    case PostTopicId(topicId) => p.(topicId := topicId)
  }

  /** A topic update changes exactly the supplied fields; id and creation time stay. */
  lemma TopicUpdateApplied(t: Topic, u: TopicUpdate)
    ensures var r := SetAll(t, TopicUpdateData(u), SetTopicField);
            && r.id == t.id && r.createdAt == t.createdAt
            && r.name == u.name.Or(t.name)
            && r.description == u.description.Or(t.description)
  {
    var name := if u.name.Set? then [TopicName(u.name.value)] else [];
    var description := if u.description.Set? then [TopicDescription(u.description.value)] else [];
    SetAllAppend(t, name, description, SetTopicField);
  }

  /** A comment update changes exactly the supplied fields; id, post and creation time stay. */
  lemma CommentUpdateApplied(c: Comment, u: CommentUpdate)
    ensures var r := SetAll(c, CommentUpdateData(u), SetCommentField);
            && r.id == c.id && r.createdAt == c.createdAt && r.postId == c.postId
            && r.content == u.content.Or(c.content)
            && r.author == u.author.Or(c.author)
  {
    var content := if u.content.Set? then [CommentContent(u.content.value)] else [];
    var author := if u.author.Set? then [CommentAuthor(u.author.value)] else [];
    SetAllAppend(c, content, author, SetCommentField);
  }

  /** A post update changes exactly the supplied fields; id and both timestamps stay
      (`updated_at` is then set separately). */
  lemma PostUpdateApplied(p: Post, u: PostUpdate)
    ensures var r := SetAll(p, PostUpdateData(u), SetPostField);
            && r.id == p.id && r.createdAt == p.createdAt && r.updatedAt == p.updatedAt
            && r.title == u.title.Or(p.title)
            && r.content == u.content.Or(p.content)
            && r.topicId == u.topicId.Or(p.topicId)
  {
    var title := if u.title.Set? then [PostTitle(u.title.value)] else [];
    var content := if u.content.Set? then [PostContent(u.content.value)] else [];
    var topicId := if u.topicId.Set? then [PostTopicId(u.topicId.value)] else [];
    SetAllAppend(p, title + content, topicId, SetPostField);
    SetAllAppend(p, title, content, SetPostField);
  }

  /**** ORDER BY keys ****/

  /** `ORDER BY topics.name` */
  function ByName(a: Topic, b: Topic): (le: bool) { LexLe(a.name, b.name) }

  /** `ORDER BY posts.created_at DESC` */
  function NewestFirst(a: Post, b: Post): (le: bool) { a.createdAt >= b.createdAt }

  /** `ORDER BY comments.created_at` */
  function OldestFirst(a: Comment, b: Comment): (le: bool) { a.createdAt <= b.createdAt }

  lemma NewestFirstIsPreorder()
    ensures TotalPreorder(NewestFirst)
  {
  }

  lemma OldestFirstIsPreorder()
    ensures TotalPreorder(OldestFirst)
  {
  }

  lemma ByNameIsPreorder()
    ensures TotalPreorder(ByName)
  {
    forall a: Topic, b: Topic ensures ByName(a, b) || ByName(b, a) {
      LexLeTotal(a.name, b.name);
    }
    forall a: Topic, b: Topic, c: Topic | ByName(a, b) && ByName(b, c) ensures ByName(a, c) {
      LexLeTransitive(a.name, b.name, c.name);
    }
  }

  /** Rows of a name-sorted listing of distinct topics from a table with unique names are in
      strictly ascending name order. */
  lemma StrictlyByName(o: seq<Topic>, topics: map<Id, Topic>)
    requires Sorted(o, ByName) && NoDup(o)
    requires forall t :: t in o ==> t.id in topics && topics[t.id] == t
    requires UniqueNames(topics)
    ensures forall i, j :: 0 <= i < j < |o| ==> LexLe(o[i].name, o[j].name) && o[i].name != o[j].name
  {
    forall i, j | 0 <= i < j < |o| ensures LexLe(o[i].name, o[j].name) && o[i].name != o[j].name {
      assert ByName(o[i], o[j]);
      assert o[i] in o && o[j] in o;
    }
  }

  /** The primary key of each record, and the WHERE clause that keeps every row. */
  function TopicKey(t: Topic): (k: int) { t.id }

  function PostKey(p: Post): (k: int) { p.id }

  function CommentKey(c: Comment): (k: int) { c.id }

  predicate AnyTopic(t: Topic) { true }

  /** `WHERE comments.post_id = postId` */
  function OnPost(postId: Id): (keep: Comment -> bool) {
    (c: Comment) => c.postId == postId
  }

  /** The keys the comment filter keeps are those of the post's comments. */
  lemma CommentsOnKeys(comments: map<Id, Comment>, postId: Id)
    ensures KeysWhere(comments, OnPost(postId)) == CommentsOn(comments, {postId})
  {
  }

  /** The comments of one post in a table: each once, and as many as the post owns. */
  lemma CommentScan(comments: map<Id, Comment>, n: nat, postId: Id)
    requires IdsBelow(comments, n) && CommentsKeyed(comments)
    ensures var cs := Scan(comments, OnPost(postId), n);
            && (forall c :: c in cs <==> c.id in comments && comments[c.id] == c && c.postId == postId)
            && NoDup(cs)
            && |cs| == |CommentsOn(comments, {postId})|
  {
    ScanTable(comments, OnPost(postId), n, CommentKey);
    CommentsOnKeys(comments, postId);
  }

  /** The same comments, oldest first. */
  lemma CommentListing(comments: map<Id, Comment>, n: nat, postId: Id)
    requires IdsBelow(comments, n) && CommentsKeyed(comments)
    ensures var o := Select(comments, OnPost(postId), n, OldestFirst);
            && (forall c :: c in o <==> c.id in comments && comments[c.id] == c && c.postId == postId)
            && NoDup(o)
            && |o| == |CommentsOn(comments, {postId})|
            && (forall i, j :: 0 <= i < j < |o| ==> o[i].createdAt <= o[j].createdAt)
  {
    OldestFirstIsPreorder();
    SelectTable(comments, OnPost(postId), n, CommentKey, OldestFirst);
    CommentsOnKeys(comments, postId);
    var o := Select(comments, OnPost(postId), n, OldestFirst);
    forall i, j | 0 <= i < j < |o| ensures o[i].createdAt <= o[j].createdAt {
      assert OldestFirst(o[i], o[j]);
    }
  }

  /** The posts passing the topic filter in a table: each once, newest first. */
  lemma PostListing(posts: map<Id, Post>, n: nat, topicId: Option<Id>)
    requires IdsBelow(posts, n) && PostsKeyed(posts)
    ensures var o := Select(posts, InTopicFilter(topicId), n, NewestFirst);
            && (forall p :: p in o <==> p.id in posts && posts[p.id] == p && InTopic(p, topicId))
            && NoDup(o)
            && |o| == |PostsWhere(posts, topicId)|
            && (forall i, j :: 0 <= i < j < |o| ==> o[i].createdAt >= o[j].createdAt)
            && (forall i, j :: 0 <= i < j < |o| ==> o[i].id != o[j].id)
  {
    NewestFirstIsPreorder();
    SelectTable(posts, InTopicFilter(topicId), n, PostKey, NewestFirst);
    NewestFirstIds(Select(posts, InTopicFilter(topicId), n, NewestFirst), posts);
  }

  /** Rows of a newest-first listing of distinct stored posts have distinct ids. */
  lemma NewestFirstIds(o: seq<Post>, posts: map<Id, Post>)
    requires Sorted(o, NewestFirst) && NoDup(o)
    requires forall p :: p in o ==> p.id in posts && posts[p.id] == p
    ensures forall i, j :: 0 <= i < j < |o| ==> o[i].createdAt >= o[j].createdAt && o[i].id != o[j].id
  {
    forall i, j | 0 <= i < j < |o| ensures o[i].createdAt >= o[j].createdAt && o[i].id != o[j].id {
      assert NewestFirst(o[i], o[j]);
      assert o[i] in o && o[j] in o;
    }
  }

  /** The topic listing of a table: every topic once, in strictly ascending name order. */
  lemma TopicListing(topics: map<Id, Topic>, n: nat)
    requires IdsBelow(topics, n) && TopicsKeyed(topics) && UniqueNames(topics)
    ensures var o := Select(topics, AnyTopic, n, ByName);
            && |o| == |topics|
            && (forall t :: t in o <==> t.id in topics && topics[t.id] == t)
            && (forall i, j :: 0 <= i < j < |o| ==> LexLe(o[i].name, o[j].name) && o[i].name != o[j].name)
  {
    ByNameIsPreorder();
    SelectTable(topics, AnyTopic, n, TopicKey, ByName);
    assert KeysWhere(topics, AnyTopic) == topics.Keys;
    StrictlyByName(Select(topics, AnyTopic, n, ByName), topics);
  }

  /** `if topic_id:` applies the filter only for a supplied, non-zero topic id. */
  predicate FilterGiven(topicId: Option<Id>) { topicId.Some? && topicId.value != 0 }

  /** The WHERE clause of the post listing and its count. */
  predicate InTopic(p: Post, topicId: Option<Id>) {
    FilterGiven(topicId) ==> p.topicId == topicId.value
  }

  function InTopicFilter(topicId: Option<Id>): (keep: Post -> bool) {
    (p: Post) => InTopic(p, topicId)
  }

  /** The keys of the posts the listing counts. */
  function PostsWhere(posts: map<Id, Post>, topicId: Option<Id>): (ks: set<Id>) {
    KeysWhere(posts, InTopicFilter(topicId))
  }

  /** No two posts passing the filter share a creation time: ORDER BY created_at DESC has no ties. */
  ghost predicate DistinctPostTimes(posts: map<Id, Post>, topicId: Option<Id>) {
    forall a, b :: a in posts && b in posts && a != b && InTopic(posts[a], topicId) && InTopic(posts[b], topicId)
      ==> posts[a].createdAt != posts[b].createdAt
  }

  /** No two comments of the post share a creation time: ORDER BY created_at has no ties. */
  ghost predicate DistinctCommentTimes(comments: map<Id, Comment>, postId: Id) {
    forall a, b :: a in comments && b in comments && a != b && comments[a].postId == postId && comments[b].postId == postId
      ==> comments[a].createdAt != comments[b].createdAt
  }

  class Store {
    var topics: map<Id, Topic>
    var posts: map<Id, Post>
    var comments: map<Id, Comment>
    /** The primary key each table hands out next. */
    var nextTopicId: nat
    var nextPostId: nat
    var nextCommentId: nat

    ghost predicate Valid()
      reads this
    {
      && 0 < nextTopicId && 0 < nextPostId && 0 < nextCommentId
      && IdsBelow(topics, nextTopicId) && IdsBelow(posts, nextPostId) && IdsBelow(comments, nextCommentId)
      && TopicsKeyed(topics) && PostsKeyed(posts) && CommentsKeyed(comments)
      && Integrity(topics, posts, comments)
    }

    /** t is the row stored under its id. */
    ghost predicate StoredTopic(t: Topic)
      reads this
    {
      t.id in topics && topics[t.id] == t
    }

    ghost predicate StoredPost(p: Post)
      reads this
    {
      p.id in posts && posts[p.id] == p
    }

    ghost predicate StoredComment(c: Comment)
      reads this
    {
      c.id in comments && comments[c.id] == c
    }

    /** Every stored record meets the payload bounds. */
    ghost predicate RowsOk()
      reads this
    {
      && (forall k :: k in topics ==> TopicRowOk(topics[k]))
      && (forall k :: k in posts ==> PostRowOk(posts[k]))
      && (forall k :: k in comments ==> CommentRowOk(comments[k]))
    }

    /** The freshly created, empty tables. */
    constructor ()
      ensures Valid() && RowsOk()
      ensures topics == map[] && posts == map[] && comments == map[]
    {
      topics, posts, comments := map[], map[], map[];
      nextTopicId, nextPostId, nextCommentId := 1, 1, 1;
    }

    /**** TopicCRUD ****/

    function GetTopic(id: Id): (r: Option<Topic>)
      reads this
      requires Valid()
      ensures r.Some? <==> id in topics
      ensures r.Some? ==> r.value == topics[id] && r.value.id == id
    {
      if id in topics then Some(topics[id]) else None
    }

    function GetTopicByName(name: string): (r: Option<Topic>)
      reads this
      requires Valid()
      ensures r.Some? <==> NameHeld(topics, name)
      ensures r.Some? ==> r.value.id in topics && topics[r.value.id] == r.value && r.value.name == name
    {
      var named := (t: Topic) => t.name == name;
      ScanTable(topics, named, nextTopicId, TopicKey);
      var hits := Scan(topics, named, nextTopicId);
      if |hits| == 0 then None
      else
        assert hits[0] in hits;
        Some(hits[0])
    }

    /** Every topic exactly once, in strictly ascending name order. */
    function TopicsByName(): (o: seq<Topic>)
      reads this
      requires Valid()
      ensures |o| == |topics|
      ensures forall t :: t in o <==> StoredTopic(t)
      ensures forall i, j :: 0 <= i < j < |o| ==> LexLe(o[i].name, o[j].name) && o[i].name != o[j].name
    {
      TopicListing(topics, nextTopicId);
      Select(topics, AnyTopic, nextTopicId, ByName)
    }

    /** `get_topics`: at most limit topics in ascending name order, starting after the first skip. */
    function GetTopics(skip: nat, limit: nat): (r: seq<Topic>)
      reads this
      requires Valid()
      ensures |r| == Min(limit, Max(0, |topics| - skip))
      ensures forall i :: 0 <= i < |r| ==> r[i] == TopicsByName()[skip + i]
    {
      Window(TopicsByName(), skip, limit)
    }

    /** A page of topics holds stored topics only, in strictly ascending name order. */
    lemma TopicsPage(skip: nat, limit: nat)
      requires Valid()
      ensures var r := GetTopics(skip, limit);
              && (forall t :: t in r ==> StoredTopic(t))
              && (forall i, j :: 0 <= i < j < |r| ==> LexLe(r[i].name, r[j].name) && r[i].name != r[j].name)
    {
      var all := TopicsByName();
      var r := GetTopics(skip, limit);
      forall i, j | 0 <= i < j < |r| ensures LexLe(r[i].name, r[j].name) && r[i].name != r[j].name {
        assert r[i] == all[skip + i] && r[j] == all[skip + j];
      }
      forall t | t in r ensures StoredTopic(t) {
        var i :| 0 <= i < |r| && r[i] == t;
        assert all[skip + i] in all;
      }
    }

    /** The `topics.name` UNIQUE constraint rejects a second topic of the same name; the caller checks. */
    method CreateTopic(body: TopicCreate, now: Time) returns (t: Topic)
      requires Valid()
      requires forall k :: k in topics ==> topics[k].name != body.name
      modifies this
      ensures Valid()
      ensures t.id > 0 && t.id !in old(topics)
      ensures t.name == body.name && t.description == body.description && t.createdAt == now
      ensures topics == old(topics)[t.id := t] && posts == old(posts) && comments == old(comments)
      ensures nextTopicId == old(nextTopicId) + 1 && nextPostId == old(nextPostId) && nextCommentId == old(nextCommentId)
      ensures GetTopic(t.id) == Some(t)
    {
      t := Topic(nextTopicId, body.name, body.description, now);
      topics := topics[t.id := t];
      nextTopicId := nextTopicId + 1;
    }

    /** No other topic may hold a supplied new name (UNIQUE constraint); the caller checks. */
    method UpdateTopic(id: Id, u: TopicUpdate) returns (r: Option<Topic>)
      requires Valid()
      requires u.name.Set? ==> forall k :: k in topics && topics[k].name == u.name.value ==> k == id
      modifies this
      ensures Valid()
      ensures r.Some? <==> id in old(topics)
      ensures r.None? ==> unchanged(this)
      ensures r.Some? ==>
                var t := old(topics)[id];
                && r.value.id == id && r.value.createdAt == t.createdAt
                && r.value.name == u.name.Or(t.name)
                && r.value.description == u.description.Or(t.description)
                && topics == old(topics)[id := r.value]
                && posts == old(posts) && comments == old(comments)
                && nextTopicId == old(nextTopicId) && nextPostId == old(nextPostId) && nextCommentId == old(nextCommentId)
    {
      if id !in topics {
        return None;
      }
      var row := ApplyUpdate(topics[id], TopicUpdateData(u), SetTopicField);
      TopicUpdateApplied(topics[id], u);
      topics := topics[id := row];
      r := Some(row);
    }

    /** Deleting a topic cascades to its posts and their comments. */
    method DeleteTopic(id: Id) returns (deleted: bool)
      requires Valid()
      modifies this
      ensures Valid()
      ensures deleted == (id in old(topics))
      ensures !deleted ==> unchanged(this)
      ensures deleted ==>
                && topics == old(topics) - {id}
                && posts == old(posts) - PostsOf(old(posts), id)
                && comments == old(comments) - CommentsOn(old(comments), PostsOf(old(posts), id))
                && nextTopicId == old(nextTopicId) && nextPostId == old(nextPostId) && nextCommentId == old(nextCommentId)
      ensures GetTopic(id).None?
      ensures forall p :: p in posts ==> posts[p].topicId != id
    {
      if id !in topics {
        return false;
      }
      DeleteTopicCascade(topics, posts, comments, id);
      var owned := PostsOf(posts, id);
      comments := comments - CommentsOn(comments, owned);
      posts := posts - owned;
      topics := topics - {id};
      deleted := true;
    }

    /**** PostCRUD ****/

    /** The comments of a post as its `comments` relationship loads them (in no particular order). */
    function CommentsOf(postId: Id): (cs: seq<Comment>)
      reads this
      requires Valid()
      ensures forall c :: c in cs <==> StoredComment(c) && c.postId == postId
      ensures NoDup(cs)
      ensures |cs| == |CommentsOn(comments, {postId})|
    {
      CommentScan(comments, nextCommentId, postId);
      Scan(comments, OnPost(postId), nextCommentId)
    }

    /** `get_post`: the post with its topic and its comments. */
    function GetPost(id: Id): (r: Option<PostWithRelations>)
      reads this
      requires Valid()
      ensures r.Some? <==> id in posts
      ensures r.Some? ==>
                && r.value.post == posts[id] && r.value.post.id == id
                && r.value.topic.id == r.value.post.topicId && r.value.topic == topics[r.value.post.topicId]
                && (forall c :: c in r.value.comments <==> StoredComment(c) && c.postId == id)
                && NoDup(r.value.comments)
    {
      if id in posts then Some(PostWithRelations(posts[id], topics[posts[id].topicId], CommentsOf(id)))
      else None
    }

    /** The posts passing the topic filter, each exactly once, newest first. */
    function PostsByDate(topicId: Option<Id>): (o: seq<Post>)
      reads this
      requires Valid()
      ensures forall p :: p in o <==> StoredPost(p) && InTopic(p, topicId)
      ensures NoDup(o)
      ensures |o| == |PostsWhere(posts, topicId)|
      ensures forall i, j :: 0 <= i < j < |o| ==> o[i].createdAt >= o[j].createdAt
      ensures forall i, j :: 0 <= i < j < |o| ==> o[i].id != o[j].id
    {
      PostListing(posts, nextPostId, topicId);
      Select(posts, InTopicFilter(topicId), nextPostId, NewestFirst)
    }

    /** `get_posts`: one page of the filtered posts, newest first, and the count of all of them. */
    function GetPosts(skip: nat, limit: nat, topicId: Option<Id>): (r: (seq<Post>, nat))
      reads this
      requires Valid()
      ensures r.1 == |PostsWhere(posts, topicId)|
      ensures |r.0| == Min(limit, Max(0, r.1 - skip))
      ensures forall i :: 0 <= i < |r.0| ==> r.0[i] == PostsByDate(topicId)[skip + i]
    {
      var all := PostsByDate(topicId);
      (Window(all, skip, limit), |all|)
    }

    /** A page of posts holds stored posts passing the filter only, each once, newest first. */
    lemma PostsPage(skip: nat, limit: nat, topicId: Option<Id>)
      requires Valid()
      ensures var r := GetPosts(skip, limit, topicId).0;
              && (forall p :: p in r ==> StoredPost(p) && InTopic(p, topicId))
              && (forall i, j :: 0 <= i < j < |r| ==> r[i].createdAt >= r[j].createdAt && r[i].id != r[j].id)
    {
      var all := PostsByDate(topicId);
      var r := GetPosts(skip, limit, topicId).0;
      forall i, j | 0 <= i < j < |r| ensures r[i].createdAt >= r[j].createdAt && r[i].id != r[j].id {
        assert r[i] == all[skip + i] && r[j] == all[skip + j];
      }
      forall p | p in r ensures StoredPost(p) && InTopic(p, topicId) {
        var i :| 0 <= i < |r| && r[i] == p;
        assert all[skip + i] in all;
      }
    }

    /** Without ties on created_at the newest-first order is the only one the database may return:
        every listing of the filtered posts, each once, newest first, is this model's. */
    lemma PostsByDateUnique(topicId: Option<Id>, o: seq<Post>)
      requires Valid() && DistinctPostTimes(posts, topicId)
      requires forall p :: p in o <==> StoredPost(p) && InTopic(p, topicId)
      requires NoDup(o)
      requires forall i, j :: 0 <= i < j < |o| ==> o[i].createdAt >= o[j].createdAt
      ensures o == PostsByDate(topicId)
    {
      var all := PostsByDate(topicId);
      NewestFirstIsPreorder();
      assert Sorted(o, NewestFirst) && Sorted(all, NewestFirst);
      forall x, y | x in o && y in o && NewestFirst(x, y) && NewestFirst(y, x) ensures x == y {
        assert StoredPost(x) && StoredPost(y);
      }
      SortedUnique(o, all, NewestFirst);
    }

    /** Posts reference an existing topic (foreign key); the caller checks. */
    method CreatePost(body: PostCreate, now: Time) returns (r: PostWithRelations)
      requires Valid()
      requires body.topicId in topics
      modifies this
      ensures Valid()
      ensures r.post.id > 0 && r.post.id !in old(posts)
      ensures r.post == Post(r.post.id, body.title, body.content, now, now, body.topicId)
      ensures posts == old(posts)[r.post.id := r.post] && topics == old(topics) && comments == old(comments)
      ensures nextPostId == old(nextPostId) + 1 && nextTopicId == old(nextTopicId) && nextCommentId == old(nextCommentId)
      ensures r.topic == topics[body.topicId] && r.comments == []
      ensures GetPost(r.post.id) == Some(r)
    {
      var p := Post(nextPostId, body.title, body.content, now, now, body.topicId);
      forall k | k in comments ensures comments[k].postId != p.id {
        assert comments[k].postId in posts;
      }
      assert CommentsOn(comments, {p.id}) == {};
      posts := posts[p.id := p];
      nextPostId := nextPostId + 1;
      r := GetPost(p.id).value;
    }

    /** A supplied topic id must reference an existing topic (foreign key); the caller checks. */
    method UpdatePost(id: Id, u: PostUpdate, now: Time) returns (r: Option<PostWithRelations>)
      requires Valid()
      requires u.topicId.Set? ==> u.topicId.value in topics
      modifies this
      ensures Valid()
      ensures r.Some? <==> id in old(posts)
      ensures r.None? ==> unchanged(this)
      ensures r.Some? ==>
                var p := old(posts)[id];
                var q := r.value.post;
                && q.id == id && q.createdAt == p.createdAt && q.updatedAt == now
                && q.title == u.title.Or(p.title)
                && q.content == u.content.Or(p.content)
                && q.topicId == u.topicId.Or(p.topicId)
                && posts == old(posts)[id := q]
                && topics == old(topics) && comments == old(comments)
                && nextTopicId == old(nextTopicId) && nextPostId == old(nextPostId) && nextCommentId == old(nextCommentId)
                && GetPost(id) == r
    {
      if id !in posts {
        return None;
      }
      var row := ApplyUpdate(posts[id], PostUpdateData(u), SetPostField);
      PostUpdateApplied(posts[id], u);
      row := row.(updatedAt := now);
      posts := posts[id := row];
      r := GetPost(id);
    }

    /** Deleting a post cascades to its comments. */
    method DeletePost(id: Id) returns (deleted: bool)
      requires Valid()
      modifies this
      ensures Valid()
      ensures deleted == (id in old(posts))
      ensures !deleted ==> unchanged(this)
      ensures deleted ==>
                && posts == old(posts) - {id}
                && comments == old(comments) - CommentsOn(old(comments), {id})
                && topics == old(topics)
                && nextTopicId == old(nextTopicId) && nextPostId == old(nextPostId) && nextCommentId == old(nextCommentId)
      ensures GetPost(id).None?
      ensures forall c :: c in comments ==> comments[c].postId != id
    {
      if id !in posts {
        return false;
      }
      DeletePostCascade(topics, posts, comments, id);
      comments := comments - CommentsOn(comments, {id});
      posts := posts - {id};
      deleted := true;
    }

    /**** CommentCRUD ****/

    function GetComment(id: Id): (r: Option<Comment>)
      reads this
      requires Valid()
      ensures r.Some? <==> id in comments
      ensures r.Some? ==> r.value == comments[id] && r.value.id == id && r.value.postId in posts
    {
      if id in comments then Some(comments[id]) else None
    }

    /** The comments of a post, each exactly once, oldest first. */
    function CommentsByDate(postId: Id): (o: seq<Comment>)
      reads this
      requires Valid()
      ensures forall c :: c in o <==> StoredComment(c) && c.postId == postId
      ensures NoDup(o)
      ensures |o| == |CommentsOn(comments, {postId})|
      ensures forall i, j :: 0 <= i < j < |o| ==> o[i].createdAt <= o[j].createdAt
    {
      CommentListing(comments, nextCommentId, postId);
      Select(comments, OnPost(postId), nextCommentId, OldestFirst)
    }

    /** `get_comments_by_post`: at most limit comments of the post, oldest first, after the first skip. */
    function GetCommentsByPost(postId: Id, skip: nat, limit: nat): (r: seq<Comment>)
      reads this
      requires Valid()
      ensures |r| == Min(limit, Max(0, |CommentsOn(comments, {postId})| - skip))
      ensures forall i :: 0 <= i < |r| ==> r[i] == CommentsByDate(postId)[skip + i]
    {
      Window(CommentsByDate(postId), skip, limit)
    }

    /** A page of a post's comments holds stored comments of that post only, each once, oldest first. */
    lemma CommentsPage(postId: Id, skip: nat, limit: nat)
      requires Valid()
      ensures var r := GetCommentsByPost(postId, skip, limit);
              && (forall c :: c in r ==> StoredComment(c) && c.postId == postId)
              && (forall i, j :: 0 <= i < j < |r| ==> r[i].createdAt <= r[j].createdAt && r[i] != r[j])
    {
      var all := CommentsByDate(postId);
      var r := GetCommentsByPost(postId, skip, limit);
      forall i, j | 0 <= i < j < |r| ensures r[i].createdAt <= r[j].createdAt && r[i] != r[j] {
        assert r[i] == all[skip + i] && r[j] == all[skip + j];
      }
      forall c | c in r ensures StoredComment(c) && c.postId == postId {
        var i :| 0 <= i < |r| && r[i] == c;
        assert all[skip + i] in all;
      }
    }

    /** Without ties on created_at the oldest-first order is the only one the database may return:
        every listing of the post's comments, each once, oldest first, is this model's. */
    lemma CommentsByDateUnique(postId: Id, o: seq<Comment>)
      requires Valid() && DistinctCommentTimes(comments, postId)
      requires forall c :: c in o <==> StoredComment(c) && c.postId == postId
      requires NoDup(o)
      requires forall i, j :: 0 <= i < j < |o| ==> o[i].createdAt <= o[j].createdAt
      ensures o == CommentsByDate(postId)
    {
      var all := CommentsByDate(postId);
      OldestFirstIsPreorder();
      assert Sorted(o, OldestFirst) && Sorted(all, OldestFirst);
      forall x, y | x in o && y in o && OldestFirst(x, y) && OldestFirst(y, x) ensures x == y {
        assert StoredComment(x) && StoredComment(y);
      }
      SortedUnique(o, all, OldestFirst);
    }

    /** Comments reference an existing post (foreign key); the caller checks. */
    method CreateComment(body: CommentCreate, postId: Id, now: Time) returns (c: Comment)
      requires Valid()
      requires postId in posts
      modifies this
      ensures Valid()
      ensures c.id > 0 && c.id !in old(comments)
      ensures c == Comment(c.id, body.content, body.author, now, postId)
      ensures comments == old(comments)[c.id := c] && topics == old(topics) && posts == old(posts)
      ensures nextCommentId == old(nextCommentId) + 1 && nextTopicId == old(nextTopicId) && nextPostId == old(nextPostId)
      ensures GetComment(c.id) == Some(c)
    {
      c := Comment(nextCommentId, body.content, body.author, now, postId);
      comments := comments[c.id := c];
      nextCommentId := nextCommentId + 1;
    }

    method UpdateComment(id: Id, u: CommentUpdate) returns (r: Option<Comment>)
      requires Valid()
      modifies this
      ensures Valid()
      ensures r.Some? <==> id in old(comments)
      ensures r.None? ==> unchanged(this)
      ensures r.Some? ==>
                var c := old(comments)[id];
                && r.value.id == id && r.value.createdAt == c.createdAt && r.value.postId == c.postId
                && r.value.content == u.content.Or(c.content)
                && r.value.author == u.author.Or(c.author)
                && comments == old(comments)[id := r.value]
                && topics == old(topics) && posts == old(posts)
                && nextTopicId == old(nextTopicId) && nextPostId == old(nextPostId) && nextCommentId == old(nextCommentId)
    {
      if id !in comments {
        return None;
      }
      var row := ApplyUpdate(comments[id], CommentUpdateData(u), SetCommentField);
      CommentUpdateApplied(comments[id], u);
      comments := comments[id := row];
      r := Some(row);
    }

    method DeleteComment(id: Id) returns (deleted: bool)
      requires Valid()
      modifies this
      ensures Valid()
      ensures deleted == (id in old(comments))
      ensures !deleted ==> unchanged(this)
      ensures deleted ==> comments == old(comments) - {id} && topics == old(topics) && posts == old(posts)
      ensures deleted ==> nextTopicId == old(nextTopicId) && nextPostId == old(nextPostId) && nextCommentId == old(nextCommentId)
      ensures GetComment(id).None?
    {
      if id !in comments {
        return false;
      }
      comments := comments - {id};
      deleted := true;
    }
  }
}
