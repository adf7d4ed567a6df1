/** The three persisted records (app/models.py) and the integrity rules of their tables:
    unique topic names, non-null foreign keys, and the cascade topic -> posts -> comments. */
module Models {
  import opened Wrappers

  /** Primary and foreign keys. A path parameter may carry any integer; stored keys are positive. */
  type Id = int

  /** An abstract reading of the server clock (`datetime.utcnow()`); one reading per request. */
  type Time = int

  datatype Topic = Topic(id: Id, name: string, description: Option<string>, createdAt: Time)

  datatype Post = Post(id: Id, title: string, content: string, createdAt: Time, updatedAt: Time, topicId: Id)

  datatype Comment = Comment(id: Id, content: string, author: string, createdAt: Time, postId: Id)

  /** Every key of a table is positive and below the next key the table will hand out. */
  ghost predicate IdsBelow<V>(m: map<Id, V>, next: Id) {
    forall k :: k in m ==> 0 < k < next
  }

  /** Each row is stored under its own id. */
  ghost predicate TopicsKeyed(topics: map<Id, Topic>) {
    forall k :: k in topics ==> topics[k].id == k
  }

  ghost predicate PostsKeyed(posts: map<Id, Post>) {
    forall k :: k in posts ==> posts[k].id == k
  }

  ghost predicate CommentsKeyed(comments: map<Id, Comment>) {
    forall k :: k in comments ==> comments[k].id == k
  }

  /** `topics.name` is UNIQUE. */
  ghost predicate UniqueNames(topics: map<Id, Topic>) {
    forall a, b :: a in topics && b in topics && topics[a].name == topics[b].name ==> a == b
  }

  /** Some topic holds the name. */
  ghost predicate NameHeld(topics: map<Id, Topic>, name: string) {
    exists k :: k in topics && topics[k].name == name
  }

  /** A topic other than the one stored under id holds the name. */
  ghost predicate NameHeldByOther(topics: map<Id, Topic>, name: string, id: Id) {
    exists k :: k in topics && topics[k].name == name && k != id
  }

  /** With unique names, the one topic holding a name is another topic's exactly when its key is not id. */
  lemma NameHolder(topics: map<Id, Topic>, name: string, holder: Id, id: Id)
    requires UniqueNames(topics)
    requires holder in topics && topics[holder].name == name
    ensures NameHeldByOther(topics, name, id) <==> holder != id
  {
  }

  /** `posts.topic_id` is NOT NULL and references `topics.id`. */
  ghost predicate PostsHaveTopics(posts: map<Id, Post>, topics: map<Id, Topic>) {
    forall p :: p in posts ==> posts[p].topicId in topics
  }

  /** `comments.post_id` is NOT NULL and references `posts.id`. */
  ghost predicate CommentsHavePosts(comments: map<Id, Comment>, posts: map<Id, Post>) {
    forall c :: c in comments ==> comments[c].postId in posts
  }

  /** The integrity rules of the three tables: no duplicate name, no orphan post, no orphan comment. */
  ghost predicate Integrity(topics: map<Id, Topic>, posts: map<Id, Post>, comments: map<Id, Comment>) {
    && UniqueNames(topics)
    && PostsHaveTopics(posts, topics)
    && CommentsHavePosts(comments, posts)
  }

  /** The keys of the posts a topic owns (`Topic.posts`). */
  function PostsOf(posts: map<Id, Post>, topicId: Id): (ps: set<Id>) {
    set p | p in posts && posts[p].topicId == topicId
  }

  /** The keys of the comments owned by any of the given posts (`Post.comments`). */
  function CommentsOn(comments: map<Id, Comment>, postIds: set<Id>): (cs: set<Id>) {
    set c | c in comments && comments[c].postId in postIds
  }

  /** Deleting a topic with the cascade of `Topic.posts` and `Post.comments` removes exactly the topic's
      posts and their comments, keeps every other row as it was, and leaves no orphan post or comment. */
  lemma DeleteTopicCascade(topics: map<Id, Topic>, posts: map<Id, Post>, comments: map<Id, Comment>, id: Id)
    requires Integrity(topics, posts, comments)
    ensures var posts' := posts - PostsOf(posts, id);
            var comments' := comments - CommentsOn(comments, PostsOf(posts, id));
            && Integrity(topics - {id}, posts', comments')
            && (forall p :: p in posts' <==> p in posts && posts[p].topicId != id)
            && (forall c :: c in comments' <==> c in comments && comments[c].postId in posts')
            && (forall p :: p in posts' ==> posts'[p] == posts[p])
            && (forall c :: c in comments' ==> comments'[c] == comments[c])
  {
  }

  /** Deleting a post with the cascade of `Post.comments` removes exactly its comments. */
  lemma DeletePostCascade(topics: map<Id, Topic>, posts: map<Id, Post>, comments: map<Id, Comment>, id: Id)
    requires Integrity(topics, posts, comments)
    ensures var comments' := comments - CommentsOn(comments, {id});
            && Integrity(topics, posts - {id}, comments')
            && (forall c :: c in comments' <==> c in comments && comments[c].postId != id)
            && (forall c :: c in comments' ==> comments'[c] == comments[c])
  {
  }
}
