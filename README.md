# Blog store: topics, posts and comments

A Dafny model of a small blog backend. It models three related records:

- **topics**, with unique names;
- **posts**, each in one topic;
- **comments**, each on one post.

It models them at three levels:

- **Repository** (app/crud.py): the listing functions and the state-changing operations. This layer is the class `Crud.Store`, which holds the three tables as maps keyed by id plus the next id each table hands out.
- **Request handlers** (app/routers/*.py): methods and functions over a `Store` that return `Result<T>`. A result is `Ok(value)` or `Err(Invalid | NotFound(entity) | Conflict)`.
- **Schemas and table definitions** underneath both (app/schemas.py, app/models.py): payload bounds and integrity rules.

What is proved:

- **Integrity:** every operation keeps the store's integrity invariant `Store.Valid()`. It covers unique topic names, no post without its topic and no comment without its post, and each row stored under its own id.
- **Row bounds:** every handler keeps `Store.RowsOk()`: every stored row meets the payload bounds.
- **Reads:** each read says exactly which rows it returns, in what order, and how a page is cut from them.
- **Writes:** each write states its whole new state, including which fields a partial update changes.
- **Handlers:** each handler runs its checks in the order the code does and leaves the store untouched when it fails.

Files:

- `wrappers.dfy`: `Option` and `Patch`. A `Patch` is one field of a partial update: `Unset`, or `Set(v)`.
- `listing.dfy`: how a SELECT shapes its result:
  - a scan of a table in key order;
  - a WHERE filter;
  - `ORDER BY` as a stable insertion sort under a total preorder;
  - `OFFSET`/`LIMIT` as `Window`;
  - the code-point order of strings.
- `models.dfy`: the three records, the table invariants and the cascade deletes.
- `schemas.dfy`: payloads, field bounds, the `model_dump(exclude_unset=True)` field list, and the response shapes.
- `crud.dfy`: the `setattr` loop, the ORDER BY keys, and the `Store` class with `TopicCRUD`, `PostCRUD` and `CommentCRUD`.
- `topics.dfy`, `posts.dfy`, `comments.dfy`: the handlers. `posts.dfy` also has the page arithmetic.

Modelling choices:

- **Validation first:** FastAPI validates the body, path and query before a handler runs. So every handler first returns `Err(Invalid)` when a bound fails.
- **Clock:** the clock is a parameter `now`, read once per request. A new post therefore has `created_at == updated_at`.
- **Ids:** fresh ids come from a per-table counter. The repository contracts state how each counter moves: a create advances its own table's counter by one, and every other write leaves all three as they were. About the id itself they promise only that it is positive and not in use.
- **Truthiness tests:** `if topic_id:`, `if topic_update.name:` and `if post_update.topic_id:` are modelled as written: a supplied, non-zero or non-empty value. When validation passes, that is the same as "supplied".
- **Name order:** `ORDER BY topics.name` is code-point lexicographic order. That is the order SQLite's default BINARY collation gives on UTF-8 text.
- **Clashing names and missing parents:** unique topic names, and the existence of the topic or post a new or moved row refers to, are preconditions of the repository's write methods. The handlers check them before calling, as the source does.
- **Page count:** `pages = math.ceil(total / size)` is integer ceiling division, `(total + size - 1) / size`, with 1 for an empty listing. `PagesBounds` proves it is the least page count that holds every item.

## Model

| member | source | states |
|---|---|---|
| Listing.Window | app/crud.py:23 | OFFSET skip LIMIT limit returns min(limit, max(0, n - skip)) elements, element i being element skip + i of the input |
| Listing.LexLe | app/crud.py:23 | name a is at or before name b when a is a prefix of b or, at the first position where they differ, a has the smaller code point |
| Listing.LexLeTotal | app/crud.py:23 | the name order compares any two names |
| Listing.LexLeTransitive | app/crud.py:23 | the name order is transitive |
| Listing.LexLeAntisymmetric | app/crud.py:23 | two names each at or before the other are equal, so the order has no ties between distinct names |
| Listing.Sort | app/crud.py:103 | ORDER BY returns a permutation of its input: same multiset and same length |
| Listing.SortSorted | app/crud.py:103 | under a total preorder, every element of the sorted result is at or before every later one |
| Listing.SortNoDup | app/crud.py:103 | sorting introduces no repeated row |
| Listing.SortSameElements | app/crud.py:103 | sorting keeps exactly the rows it is given |
| Listing.KeysBelow | app/crud.py:88-91 | the scan visits exactly the keys below n whose rows satisfy the WHERE clause, in strictly ascending order |
| Listing.ScanFinds | app/crud.py:91 | every row satisfying the WHERE clause is returned |
| Listing.ScanKeeps | app/crud.py:91 | only rows that satisfy the WHERE clause and are stored under their own key are returned |
| Listing.ScanCount | app/crud.py:94-99 | the number of rows returned equals the number of keys whose rows satisfy the WHERE clause (the COUNT query) |
| Listing.ScanDistinct | app/crud.py:91 | no row is returned twice |
| Listing.ScanTable | app/crud.py:88-91 | a filtered scan returns exactly the matching rows, each once, and as many as COUNT counts |
| Listing.SelectTable | app/crud.py:102-104 | a filtered, ordered select returns exactly the matching rows, each once, sorted, as many as COUNT counts |
| Listing.Scan | app/crud.py:88-91 | the rows of the table whose keys lie below the next id and that satisfy the WHERE clause, in key order |
| Listing.Select | app/crud.py:102-104 | those rows put in ORDER BY order, rows with equal keys staying in key order |
| Listing.SortedUnique | app/crud.py:103 | two sorted orderings of the same distinct rows are equal when the order has no ties between distinct rows |
| Models.PostsOf | app/models.py:18 | the keys of the posts the topic owns through `Topic.posts` |
| Models.CommentsOn | app/models.py:35 | the keys of the comments owned through `Post.comments` by any of the given posts |
| Models.NameHolder | app/models.py:13 | when names are unique and a given topic holds a name, a topic other than id holds it exactly when that topic is not id |
| Models.Integrity | app/models.py:13-47 | no two topics share a name, every post's topic exists, every comment's post exists |
| Models.DeleteTopicCascade | app/models.py:17-18 | deleting a topic removes exactly its posts and the comments on them; every other row stays as it was and no orphan post or comment remains |
| Models.DeletePostCascade | app/models.py:35 | deleting a post removes exactly its comments; the other comments stay as they were and integrity holds |
| Schemas.TopicBoundsShared | app/schemas.py:7-18 | a topic create payload is valid exactly when the update supplying all of its fields is: the update repeats the create bounds |
| Schemas.CommentBoundsShared | app/schemas.py:33-44 | the same for comment payloads |
| Schemas.PostBoundsShared | app/schemas.py:56-69 | the same for post payloads |
| Schemas.ValidTopicCreate | app/schemas.py:7-9 | a topic name of 1 to 100 characters and a description of at most 500 when one is given |
| Schemas.ValidTopicUpdate | app/schemas.py:16-18 | each supplied topic field meets its create bound; an absent field is not checked |
| Schemas.ValidCommentCreate | app/schemas.py:33-35 | comment content of 1 to 1000 characters and an author of 1 to 100 |
| Schemas.ValidCommentUpdate | app/schemas.py:42-44 | each supplied comment field meets its create bound |
| Schemas.ValidPostCreate | app/schemas.py:56-59 | a title of 1 to 200 characters, non-empty content and a positive topic id |
| Schemas.ValidPostUpdate | app/schemas.py:66-69 | each supplied post field meets its create bound |
| Schemas.TopicUpdateData | app/crud.py:49 | `model_dump(exclude_unset=True)`: the supplied topic fields only, in declaration order |
| Schemas.CommentUpdateData | app/crud.py:200 | the supplied comment fields only, in declaration order |
| Schemas.PostUpdateData | app/crud.py:132 | the supplied post fields only, in declaration order |
| Schemas.Summarize | app/schemas.py:72-78 | a post summary keeps the id, title, creation time and topic of the post |
| Crud.SetAll | app/crud.py:50-51 | the record after `setattr` of each (field, value) pair in turn |
| Crud.SetTopicField | app/crud.py:51 | `setattr` of one topic field changes that field and no other |
| Crud.SetCommentField | app/crud.py:202 | `setattr` of one comment field changes that field and no other |
| Crud.SetPostField | app/crud.py:134 | `setattr` of one post field changes that field and no other |
| Crud.ApplyUpdate | app/crud.py:49-51 | the setattr loop over the supplied fields yields the record with each field set in turn |
| Crud.SetAllAppend | app/crud.py:50-51 | applying the fields of a + b is applying those of a, then those of b |
| Crud.TopicUpdateApplied | app/crud.py:49-51 | a topic update changes exactly the supplied name and description; id and creation time stay |
| Crud.CommentUpdateApplied | app/crud.py:200-202 | a comment update changes exactly the supplied content and author; id, post and creation time stay |
| Crud.PostUpdateApplied | app/crud.py:132-134 | a post update changes exactly the supplied title, content and topic; id and both timestamps stay |
| Crud.ByName | app/crud.py:23 | `ORDER BY topics.name`: a topic is at or before another when its name is at or before the other's |
| Crud.NewestFirst | app/crud.py:103 | `ORDER BY created_at DESC`: a post is at or before another when it was created no earlier |
| Crud.OldestFirst | app/crud.py:178 | `ORDER BY created_at`: a comment is at or before another when it was created no later |
| Crud.ByNameIsPreorder | app/crud.py:23 | ordering topics by name is a total preorder |
| Crud.NewestFirstIsPreorder | app/crud.py:103 | ORDER BY created_at DESC is a total preorder |
| Crud.OldestFirstIsPreorder | app/crud.py:178 | ORDER BY created_at is a total preorder |
| Crud.StrictlyByName | app/models.py:13 | in a name-sorted listing of distinct stored topics, names strictly increase, because names are unique |
| Crud.FilterGiven | app/crud.py:90 | `if topic_id:` filters exactly when a topic id is supplied and is not 0 |
| Crud.InTopic | app/crud.py:90-96 | a post passes the WHERE clause of the listing and of the COUNT query when no filter applies or its topic is the given one |
| Crud.InTopicFilter | app/crud.py:90-91 | the WHERE clause of the post listing as a test on rows: InTopic for the given topic id |
| Crud.PostsWhere | app/crud.py:94-96 | the keys the COUNT query counts: those of the posts passing the same WHERE clause |
| Crud.OnPost | app/crud.py:177 | `WHERE comments.post_id = post_id`: keeps exactly the comments of that post |
| Crud.TopicListing | app/crud.py:22-25 | listing a topics table returns every topic once, in strictly ascending name order |
| Crud.PostListing | app/crud.py:88-105 | listing posts returns exactly the posts passing the topic filter, each once, newest first, as many as the count |
| Crud.CommentScan | app/crud.py:75 | a post's comments relationship holds exactly the comments of that post, each once |
| Crud.CommentListing | app/crud.py:175-178 | a post's comments, each once, in ascending creation time |
| Crud.Store.Valid | app/models.py:12-47 | every row is stored under its own id, ids lie below the next id each table hands out, and the tables keep their integrity rules |
| Crud.Store.constructor | app/database.py:28-31 | the freshly created tables are empty and valid |
| Crud.Store.GetTopic | app/crud.py:14-17 | found exactly when the id is stored, and then the stored topic |
| Crud.Store.GetTopicByName | app/crud.py:28-31 | found exactly when some topic holds the name, and then a stored topic of that name |
| Crud.Store.TopicsByName | app/crud.py:22-25 | every stored topic exactly once, in strictly ascending name order |
| Crud.Store.GetTopics | app/crud.py:20-25 | the topics at name-order positions skip .. skip + limit - 1, as many as exist |
| Crud.Store.TopicsPage | app/crud.py:20-25 | a page of topics holds stored topics only, in strictly ascending name order |
| Crud.Store.CreateTopic | app/crud.py:34-40 | adds one topic with a fresh positive id and the given fields; nothing else changes; it is then retrievable |
| Crud.Store.UpdateTopic | app/crud.py:43-55 | absent id: None and no change; otherwise only the supplied fields of that topic change and it is the only row that changes |
| Crud.Store.DeleteTopic | app/crud.py:58-66 | reports whether the topic existed; absent: no change; present: removes it with its posts and their comments |
| Crud.Store.CommentsOf | app/crud.py:75 | the comments loaded with a post are exactly those of the post, each once, as many as it owns |
| Crud.Store.GetPost | app/crud.py:71-78 | found exactly when the id is stored; then the post with its own topic and exactly its comments |
| Crud.Store.PostsByDate | app/crud.py:88-105 | the posts passing the filter, each once, newest first, as many as the count |
| Crud.Store.GetPosts | app/crud.py:81-107 | total is the count of all posts passing the filter, whatever skip and limit; the page holds positions skip .. skip + limit - 1 of the newest-first listing |
| Crud.Store.PostsPage | app/crud.py:101-105 | a page of posts holds stored posts passing the filter only, with distinct ids, newest first |
| Crud.Store.PostsByDateUnique | app/crud.py:103 | when no two filtered posts share a creation time, every listing of them, each once, newest first, is the model's listing |
| Crud.Store.CreatePost | app/crud.py:110-123 | adds one post with a fresh id, the given fields and both timestamps now; returns it with its topic and no comments, as get_post would |
| Crud.Store.UpdatePost | app/crud.py:126-146 | absent id: None and no change; otherwise only the supplied fields change, updated_at becomes now, and the result is what get_post returns |
| Crud.Store.DeletePost | app/crud.py:149-157 | reports whether the post existed; absent: no change; present: removes it with its comments |
| Crud.Store.GetComment | app/crud.py:162-165 | found exactly when the id is stored, and then the stored comment, whose post exists |
| Crud.Store.CommentsByDate | app/crud.py:175-178 | the comments of a post, each once, oldest first, as many as it owns |
| Crud.Store.GetCommentsByPost | app/crud.py:168-182 | the comments at oldest-first positions skip .. skip + limit - 1 of the post's comments |
| Crud.Store.CommentsPage | app/crud.py:175-182 | a page of comments holds stored comments of that post only, each once, oldest first |
| Crud.Store.CommentsByDateUnique | app/crud.py:178 | when no two comments of the post share a creation time, every listing of them, each once, oldest first, is the model's listing |
| Crud.Store.CreateComment | app/crud.py:185-191 | adds one comment with a fresh id on the given post; nothing else changes; it is then retrievable |
| Crud.Store.UpdateComment | app/crud.py:194-206 | absent id: None and no change; otherwise only the supplied content and author change |
| Crud.Store.DeleteComment | app/crud.py:209-217 | reports whether the comment existed; absent: no change; present: removes only it |
| TopicsRouter.CreateTopic | app/routers/topics.py:12-26 | invalid body: Invalid; a name already held: Conflict; in both cases nothing changes; otherwise adds the topic, keeping names unique and rows within bounds |
| TopicsRouter.GetTopics | app/routers/topics.py:29-36 | rejected exactly when skip < 0 or limit is outside 1..100; otherwise the topics at positions skip .. skip + limit - 1 of the name-ordered listing, as many as exist |
| TopicsRouter.TopicsListed | app/routers/topics.py:29-36 | a page of topics lists stored topics only, in strictly ascending name order |
| TopicsRouter.NameTaken | app/routers/topics.py:59-65 | the uniqueness check fires exactly when a name is supplied and a topic with a different id holds it |
| TopicsRouter.GetTopic | app/routers/topics.py:39-48 | Ok with the stored topic exactly when the id exists, NotFound otherwise |
| TopicsRouter.UpdateTopic | app/routers/topics.py:51-70 | Conflict exactly when a topic with a different id holds the supplied name, whether or not the id exists; renaming a topic to its own name is allowed; NotFound when no conflict and the id is absent; otherwise only the supplied fields change |
| TopicsRouter.DeleteTopic | app/routers/topics.py:73-82 | NotFound and no change for an absent id; otherwise removes the topic, its posts and their comments |
| PostsRouter.Skip | app/routers/posts.py:38 | the offset of a page: the number of items on the pages before it |
| PostsRouter.Pages | app/routers/posts.py:61 | the ceiling of total / size, and 1 for an empty listing |
| PostsRouter.SkipBounds | app/routers/posts.py:38 | page 1 starts at offset 0, offsets are non-negative, and each page starts size items after the previous one |
| PostsRouter.PagesBounds | app/routers/posts.py:61 | pages is at least 1, is 1 for an empty listing, and otherwise (pages - 1) * size < total <= pages * size |
| PostsRouter.PageOfItem | app/routers/posts.py:38-61 | item i lies on page i / size + 1, which is between 1 and pages, and on no other page |
| PostsRouter.ValidPostsQuery | app/routers/posts.py:32-34 | page at least 1, size from 1 to 100, and a topic id of at least 1 when one is given |
| PostsRouter.CreatePost | app/routers/posts.py:13-27 | NotFound(topic) and no change exactly when the body is valid but names no topic; otherwise the new post is retrievable with its topic and an empty comment list |
| PostsRouter.GetPosts | app/routers/posts.py:30-69 | Invalid outside the query bounds; NotFound when the filter names no topic, rather than an empty list; otherwise echoes page and size, counts every matching post, computes pages, and returns min(size, total - skip) items |
| PostsRouter.PageContents | app/routers/posts.py:49-59 | item i of the page is the summary of the post at position (page - 1) * size + i of the newest-first filtered listing |
| PostsRouter.PageListing | app/routers/posts.py:49-59 | a page lists distinct posts, newest first, all of the filtered topic when a filter is given |
| PostsRouter.Summaries | app/routers/posts.py:52-59 | one summary per post, in the order of the posts |
| PostsRouter.SummariesKeep | app/schemas.py:72-78 | summaries keep the id, creation time and topic of each post, so order, distinctness and topic carry over |
| PostsRouter.EveryPostOnAPage | app/routers/posts.py:38-61 | when no two posts passing the filter share a creation time, every such post appears on one of the pages 1 .. pages |
| PostsRouter.GetPost | app/routers/posts.py:72-81 | Ok with the post, its topic and exactly its comments when the id exists; NotFound otherwise |
| PostsRouter.UpdatePost | app/routers/posts.py:84-103 | a supplied topic id naming no topic gives NotFound(topic) before the post's existence is checked; an absent post gives NotFound(post); either way nothing changes; otherwise the supplied fields change and updated_at becomes now |
| PostsRouter.DeletePost | app/routers/posts.py:106-115 | NotFound and no change for an absent id; otherwise removes the post and its comments |
| CommentsRouter.ValidCommentsQuery | app/routers/comments.py:30-31 | skip at least 0 and limit from 1 to 100 |
| CommentsRouter.CreateComment | app/routers/comments.py:12-24 | NotFound(post) and no change when the body is valid but the post is absent; otherwise the new comment belongs to the post of the path |
| CommentsRouter.GetCommentsByPost | app/routers/comments.py:27-40 | Invalid outside skip >= 0 and 1 <= limit <= 100; NotFound for an absent post, not an empty list; otherwise the comments at positions skip .. skip + limit - 1 of the post's oldest-first comments |
| CommentsRouter.CommentsListed | app/routers/comments.py:27-40 | a page of comments lists stored comments of that post only, each once, oldest first |
| CommentsRouter.GetComment | app/routers/comments.py:43-52 | Ok with the stored comment exactly when the id exists, NotFound otherwise |
| CommentsRouter.UpdateComment | app/routers/comments.py:55-65 | NotFound and no change for an absent id; otherwise only the supplied content and author change |
| CommentsRouter.DeleteComment | app/routers/comments.py:68-77 | NotFound and no change for an absent id; otherwise removes only that comment |

## Left out

- **Runtime plumbing:** database sessions, commit, refresh, rollback and async I/O (app/database.py) are abstracted away. Each handler is one atomic step on the store.
- **Concurrency:** concurrent requests are not modelled, so neither is the race between two creates of the same topic name.
- **Web layer:** the HTTP wiring is not modelled: status codes, error messages, `/` and `/health`, CORS and startup (main.py).
- **Request defaults:** the defaults of query parameters (skip 0, limit 100, page 1, size 10) are not modelled. Handlers take the values as arguments.
- **Clock:** `datetime.utcnow()` is a parameter. A request reads the clock once, so the code's separate `created_at` and `updated_at` defaults on a new post are equal here.
- **Id allocation:** SQLite's choice of a new key (largest key plus one, which can reuse a freed key) is replaced by a counter. The contracts only promise a fresh positive id.
- **Explicit null:** an explicit `null` for a non-nullable field in an update payload (`{"title": null}`) cannot be expressed. The database would reject it at its NOT NULL constraint. An explicit `null` description is expressed, as `Set(None)`, and clears the description.
- **Repository constraint errors:** the repository methods `Crud.Store.CreateTopic`, `Crud.Store.UpdateTopic`, `Crud.Store.CreatePost`, `Crud.Store.UpdatePost` and `Crud.Store.CreateComment` require a free topic name and an existing parent row instead of modelling what the database does otherwise. A clashing name violates the UNIQUE constraint (app/models.py:13), which raises an IntegrityError. A missing parent would not be caught at all: the default SQLite database (app/database.py:6) never turns on foreign-key enforcement, so the repository would silently store an orphan post or comment. Every handler checks both before calling, so neither case arises through the API.
- **Equal timestamps:** the SQL orders by `created_at` alone, so the database may return rows with equal creation times in any order, and may even order them differently in two queries for two pages. The model puts such rows in key order. The page contracts (`Crud.Store.GetPosts`, `Crud.Store.GetCommentsByPost` and the handlers above them) index into that fixed order, so with ties they describe one of the orders the database may return. `Crud.Store.PostsByDateUnique` and `Crud.Store.CommentsByDateUnique` prove that without ties every order the database may return is the model's.
- PostsRouter.EveryPostOnAPage: it requires that no two posts passing the filter share a creation time. With ties, one row can fall on two separately queried pages and another on none.
- **Integer width:** ids, `skip`, `limit`, `page` and `size` are unbounded integers in the model. SQLite parameters are 64-bit, so an id of 2^63 or more in a path, or an offset `(page - 1) * size` of 2^63 or more, makes the database driver raise an OverflowError, answered with status 500. The model answers NotFound, or an empty page, instead.
- Crud.Store.CommentsOf: the order of a post's `comments` relationship is not specified. The contract states membership, distinctness and count only.
- **Float arithmetic:** `math.ceil(total / size)` is computed in floating point by the source. The model uses exact integer ceiling division.
- **Validation messages:** Pydantic's 422 error bodies are reduced to `Err(Invalid)`. Pydantic's count of string length (code points) is taken as the length of the `string`.
- **Unused schemas:** `TopicWithPosts` and `MessageResponse` are not modelled. `TopicWithPosts` is never used by a handler. The delete handlers return `Ok(())` in place of the message.
- **SQL pagination edge cases:** negative OFFSET or LIMIT cannot reach the repository, because every handler validates them first. The repository functions take `nat`.
