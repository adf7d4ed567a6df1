/** The topic endpoints (app/routers/topics.py). Each handler first rejects a payload or query that
    fails its bounds, then runs its own checks in the order the handler does, and only then calls into
    the store; a request that fails leaves the store as it was. */
module TopicsRouter {
  import opened Models
  import opened Schemas
  import opened Listing
  import opened Crud

  /** `POST /topics`: a name already taken is a conflict. */
  method CreateTopic(store: Store, body: TopicCreate, now: Time) returns (r: Result<Topic>)
    requires store.Valid()
    modifies store
    ensures store.Valid()
    ensures !ValidTopicCreate(body) ==> r == Err(Invalid)
    ensures ValidTopicCreate(body) && NameHeld(old(store.topics), body.name) ==> r == Err(Conflict)
    ensures r.Ok? <==> ValidTopicCreate(body) && !NameHeld(old(store.topics), body.name)
    ensures r.Err? ==> unchanged(store)
    ensures r.Ok? ==>
              && r.value.name == body.name && r.value.description == body.description
              && r.value.createdAt == now && r.value.id > 0 && r.value.id !in old(store.topics)
              && store.topics == old(store.topics)[r.value.id := r.value]
              && store.posts == old(store.posts) && store.comments == old(store.comments)
    ensures old(store.RowsOk()) ==> store.RowsOk()
  {
    if !ValidTopicCreate(body) {
      return Err(Invalid);
    }
    var existing := store.GetTopicByName(body.name);
    if existing.Some? {
      return Err(Conflict);
    }
    var t := store.CreateTopic(body, now);
    r := Ok(t);
  }

  /** `GET /topics?skip&limit`: a page of the topics in ascending name order. */
  function GetTopics(store: Store, skip: int, limit: int): (r: Result<seq<Topic>>)
    reads store
    requires store.Valid()
    ensures r.Err? <==> !(0 <= skip && 1 <= limit <= 100)
    ensures r.Err? ==> r.error == Invalid
    ensures r.Ok? ==>
              && |r.value| == Min(limit, Max(0, |store.topics| - skip)) && |r.value| <= 100
              && (forall i :: 0 <= i < |r.value| ==> r.value[i] == store.TopicsByName()[skip + i])
  {
    if !(0 <= skip && 1 <= limit <= 100) then Err(Invalid)
    else Ok(store.GetTopics(skip, limit))
  }

  /** A page of `GET /topics` lists stored topics only, in strictly ascending name order. */
  lemma TopicsListed(store: Store, skip: int, limit: int)
    requires store.Valid() && GetTopics(store, skip, limit).Ok?
    ensures var page := GetTopics(store, skip, limit).value;
            && (forall t :: t in page ==> store.StoredTopic(t))
            && (forall i, j :: 0 <= i < j < |page| ==>
                  LexLe(page[i].name, page[j].name) && page[i].name != page[j].name)
  {
    store.TopicsPage(skip, limit);
  }

  /** `GET /topics/{topic_id}` */
  function GetTopic(store: Store, id: Id): (r: Result<Topic>)
    reads store
    requires store.Valid()
    ensures r.Ok? <==> id in store.topics
    ensures r.Ok? ==> r.value == store.topics[id] && r.value.id == id
    ensures r.Err? ==> r.error == NotFound(TopicEntity)
  {
    var t := store.GetTopic(id);
    if t.None? then Err(NotFound(TopicEntity)) else Ok(t.value)
  }

  /** The uniqueness check of `PUT /topics/{topic_id}`: a supplied, non-empty name found by
      `get_topic_by_name` on a topic with another id. */
  function NameTaken(store: Store, id: Id, u: TopicUpdate): (taken: bool)
    reads store
    requires store.Valid() && ValidTopicUpdate(u)
    ensures taken <==> u.name.Set? && NameHeldByOther(store.topics, u.name.value, id)
  {
    if u.name.Set? && u.name.value != "" then
      var existing := store.GetTopicByName(u.name.value);
      if existing.Some? then
        NameHolder(store.topics, u.name.value, existing.value.id, id);
        existing.value.id != id
      else false
    else false
  }

  /** `PUT /topics/{topic_id}`: a supplied name held by another topic is a conflict, and that check
      comes before the check that the topic exists. */
  method UpdateTopic(store: Store, id: Id, u: TopicUpdate) returns (r: Result<Topic>)
    requires store.Valid()
    modifies store
    ensures store.Valid()
    ensures !ValidTopicUpdate(u) ==> r == Err(Invalid)
    ensures r == Err(Conflict) <==>
              ValidTopicUpdate(u) && u.name.Set? && NameHeldByOther(old(store.topics), u.name.value, id)
    ensures r == Err(NotFound(TopicEntity)) <==>
              && ValidTopicUpdate(u)
              && !(u.name.Set? && NameHeldByOther(old(store.topics), u.name.value, id))
              && id !in old(store.topics)
    ensures r.Ok? <==>
              && ValidTopicUpdate(u)
              && !(u.name.Set? && NameHeldByOther(old(store.topics), u.name.value, id))
              && id in old(store.topics)
    ensures r.Err? ==> unchanged(store)
    ensures r.Ok? ==>
              var t := old(store.topics)[id];
              && r.value.id == id && r.value.createdAt == t.createdAt
              && r.value.name == u.name.Or(t.name)
              && r.value.description == u.description.Or(t.description)
              && store.topics == old(store.topics)[id := r.value]
              && store.posts == old(store.posts) && store.comments == old(store.comments)
    ensures old(store.RowsOk()) ==> store.RowsOk()
  {
    if !ValidTopicUpdate(u) {
      return Err(Invalid);
    }
    if NameTaken(store, id, u) {
      return Err(Conflict);
    }
    var updated := store.UpdateTopic(id, u);
    if updated.None? {
      return Err(NotFound(TopicEntity));
    }
    r := Ok(updated.value);
  }

  /** `DELETE /topics/{topic_id}`: removes the topic with its posts and their comments. */
  method DeleteTopic(store: Store, id: Id) returns (r: Result<()>)
    requires store.Valid()
    modifies store
    ensures store.Valid()
    ensures r.Ok? <==> id in old(store.topics)
    ensures r.Err? ==> r.error == NotFound(TopicEntity) && unchanged(store)
    ensures r.Ok? ==>
              && store.topics == old(store.topics) - {id}
              && store.posts == old(store.posts) - PostsOf(old(store.posts), id)
              && store.comments == old(store.comments) - CommentsOn(old(store.comments), PostsOf(old(store.posts), id))
    ensures id !in store.topics
    ensures old(store.RowsOk()) ==> store.RowsOk()
  {
    var deleted := store.DeleteTopic(id);
    if !deleted {
      return Err(NotFound(TopicEntity));
    }
    r := Ok(());
  }
}
