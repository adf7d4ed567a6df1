/** Request and response shapes (app/schemas.py): the create and update payloads with their field
    bounds, the listing shapes `PostSummary` and `PostList`, and the outcome of a request. */
module Schemas {
  import opened Wrappers
  import opened Models

  /**** Outcomes of a request ****/

  datatype Entity = TopicEntity | PostEntity | CommentEntity

  /** Invalid: the body or a query parameter fails its bounds (422, raised before the handler runs).
      NotFound: the named entity does not exist (404). Conflict: the topic name is taken (400). */
  datatype ApiError = Invalid | NotFound(missing: Entity) | Conflict

  datatype Result<+T> = Ok(value: T) | Err(error: ApiError)

  /**** Payloads ****/

  datatype TopicCreate = TopicCreate(name: string, description: Option<string>)

  /** `description` is nullable: `Set(None)` clears it. */
  datatype TopicUpdate = TopicUpdate(name: Patch<string>, description: Patch<Option<string>>)

  datatype CommentCreate = CommentCreate(content: string, author: string)

  datatype CommentUpdate = CommentUpdate(content: Patch<string>, author: Patch<string>)

  datatype PostCreate = PostCreate(title: string, content: string, topicId: int)

  datatype PostUpdate = PostUpdate(title: Patch<string>, content: Patch<string>, topicId: Patch<int>)

  /**** Field bounds (Pydantic counts characters) ****/

  predicate TopicNameOk(name: string) { 1 <= |name| <= 100 }

  predicate TopicDescriptionOk(description: Option<string>) {
    description.Some? ==> |description.value| <= 500
  }

  predicate CommentContentOk(content: string) { 1 <= |content| <= 1000 }

  predicate CommentAuthorOk(author: string) { 1 <= |author| <= 100 }

  predicate PostTitleOk(title: string) { 1 <= |title| <= 200 }

  predicate PostContentOk(content: string) { 1 <= |content| }

  predicate PostTopicIdOk(topicId: int) { topicId > 0 }

  predicate ValidTopicCreate(b: TopicCreate) {
    TopicNameOk(b.name) && TopicDescriptionOk(b.description)
  }

  /** Every field is optional; a supplied one meets the bound it has in the create payload. */
  predicate ValidTopicUpdate(u: TopicUpdate) {
    && (u.name.Set? ==> TopicNameOk(u.name.value))
    && (u.description.Set? ==> TopicDescriptionOk(u.description.value))
  }

  predicate ValidCommentCreate(b: CommentCreate) {
    CommentContentOk(b.content) && CommentAuthorOk(b.author)
  }

  predicate ValidCommentUpdate(u: CommentUpdate) {
    && (u.content.Set? ==> CommentContentOk(u.content.value))
    && (u.author.Set? ==> CommentAuthorOk(u.author.value))
  }

  predicate ValidPostCreate(b: PostCreate) {
    PostTitleOk(b.title) && PostContentOk(b.content) && PostTopicIdOk(b.topicId)
  }

  predicate ValidPostUpdate(u: PostUpdate) {
    && (u.title.Set? ==> PostTitleOk(u.title.value))
    && (u.content.Set? ==> PostContentOk(u.content.value))
    && (u.topicId.Set? ==> PostTopicIdOk(u.topicId.value))
  }

  /** A create payload read as an update that supplies every field. */
  function TopicCreateAsUpdate(b: TopicCreate): (u: TopicUpdate) {
    TopicUpdate(Set(b.name), Set(b.description))
  }

  function CommentCreateAsUpdate(b: CommentCreate): (u: CommentUpdate) {
    CommentUpdate(Set(b.content), Set(b.author))
  }

  function PostCreateAsUpdate(b: PostCreate): (u: PostUpdate) {
    PostUpdate(Set(b.title), Set(b.content), Set(b.topicId))
  }

  /** Create and update payloads share their bounds: a create payload is valid exactly when the update
      supplying all of its fields is. */
  lemma TopicBoundsShared(b: TopicCreate)
    ensures ValidTopicCreate(b) <==> ValidTopicUpdate(TopicCreateAsUpdate(b))
  {
  }

  lemma CommentBoundsShared(b: CommentCreate)
    ensures ValidCommentCreate(b) <==> ValidCommentUpdate(CommentCreateAsUpdate(b))
  {
  }

  lemma PostBoundsShared(b: PostCreate)
    ensures ValidPostCreate(b) <==> ValidPostUpdate(PostCreateAsUpdate(b))
  {
  }

  /** A stored record whose fields meet the payload bounds. */
  predicate TopicRowOk(t: Topic) { TopicNameOk(t.name) && TopicDescriptionOk(t.description) }

  predicate CommentRowOk(c: Comment) { CommentContentOk(c.content) && CommentAuthorOk(c.author) }

  predicate PostRowOk(p: Post) { PostTitleOk(p.title) && PostContentOk(p.content) && PostTopicIdOk(p.topicId) }

  /**** `model_dump(exclude_unset=True)`: the supplied fields, in declaration order ****/

  datatype TopicField = TopicName(name: string) | TopicDescription(description: Option<string>)

  datatype CommentField = CommentContent(content: string) | CommentAuthor(author: string)

  datatype PostField = PostTitle(title: string) | PostContent(content: string) | PostTopicId(topicId: int)

  function TopicUpdateData(u: TopicUpdate): (data: seq<TopicField>) {
    (if u.name.Set? then [TopicName(u.name.value)] else [])
    + (if u.description.Set? then [TopicDescription(u.description.value)] else [])
  }

  function CommentUpdateData(u: CommentUpdate): (data: seq<CommentField>) {
    (if u.content.Set? then [CommentContent(u.content.value)] else [])
    + (if u.author.Set? then [CommentAuthor(u.author.value)] else [])
  }

  function PostUpdateData(u: PostUpdate): (data: seq<PostField>) {
    (if u.title.Set? then [PostTitle(u.title.value)] else [])
    + (if u.content.Set? then [PostContent(u.content.value)] else [])
    + (if u.topicId.Set? then [PostTopicId(u.topicId.value)] else [])
  }

  /**** Response shapes ****/

  /** A post as `GET /posts/{id}` returns it: with its topic and its comments loaded. */
  datatype PostWithRelations = PostWithRelations(post: Post, topic: Topic, comments: seq<Comment>)

  datatype PostSummary = PostSummary(id: Id, title: string, createdAt: Time, topicId: Id)

  datatype PostList = PostList(items: seq<PostSummary>, total: int, page: int, size: int, pages: int)

  /** `PostSummary` keeps the id, title, creation time and topic of a post and drops the rest. */
  function Summarize(p: Post): (s: PostSummary) {
    PostSummary(p.id, p.title, p.createdAt, p.topicId)
  }
}
