# Blog and image store with ownership-gated mutation

A Dafny model of the core of a small blogging backend. Users author blogs, and
blogs carry images. The repository layer performs single-row create, read,
update and delete with a read-before-write title-uniqueness check. The route
handlers gate every write behind two checks: the blog must exist (404), and
the caller must be its author (403).

The database is replaced by an abstract store (`Models.Store`). It holds a map
from blog id to `Blog` row and a map from image id to `Image` row. It also
holds the next key of each autoincrement column and an abstract clock. Each
repository call is one atomic transition, written as a pure function. Each
HTTP request is one step of the state machine `Service.Serve`.

Modules, following the source layout:

- `Models` (`models.dfy`) — `models/blogs.py`: the `Blog` and `Image` rows, the store, the cascade of a blog deletion, and the store invariant `Valid`. `Valid` says four things: rows sit under their own keys, titles are unique, every image references a stored blog, and stamps are ordered.
- `Errors` (`errors.dfy`) — the `HTTPException`s raised (400/403/404 with their detail strings) and a `Result` type.
- `Ordering` (`ordering.dfy`) — the order the two listing queries return rows in.
- `Repository` (`repository.dfy`) — `repository/blogs.py`.
- `BlogRoutes` (`blog_routes.dfy`) — `routers/blogs.py`.
- `ImageRoutes` (`image_routes.dfy`) — `routers/image.py`.
- `Service` (`service.dfy`) — the requests of both routers as one state machine, and the properties that hold across all endpoints.

Modelling choices:

- `datetime.utcnow` is an abstract clock. Every committed INSERT, and every UPDATE of a blog that changes a column, is stamped one tick past the store's clock and advances it. `created_at` and `updated_at` of a new blog get the same tick. Image updates and deletions leave the clock alone, since images carry no `onupdate` column.
- `updated_at` moves only when an update really changes `title` or `content`. SQLAlchemy issues no UPDATE statement for unchanged columns, so `onupdate` does not fire. The update still answers with the blog.
- A commit that the database refuses with an `IntegrityError` is an input, `rejected`. The refused write leaves the store as it was and answers 400 "Database constraint error". For images, the `blog_id` foreign key is also modelled: the database refuses an image whose blog does not exist.
- Python truthiness of an `Optional[str]` argument is `Models.Truthy`: present and not empty.
- Ids are unbounded integers. A request may name a negative id; it is simply absent.

Both duplicate-title refusals, on creation and on update, are HTTP 400 with
detail "A blog with this title already exists".

## Model

| member | source | states |
|---|---|---|
| Models.Empty | models/blogs.py:9-19 | a fresh database has no rows, no taken title, and satisfies the store invariant |
| Models.Cascade | models/blogs.py:23-26 | deleting blog b keeps exactly the images whose blog_id is not b, each unchanged |
| Repository.CreateBlog | repository/blogs.py:12-28 | a taken title fails with 400 "A blog with this title already exists" before any commit; a refused commit fails with 400 "Database constraint error"; it succeeds exactly when neither holds, adding exactly one blog under a fresh key with the given title, content and author, stamped later than the clock, and leaving all other rows unchanged |
| Repository.GetBlog | repository/blogs.py:31-34 | None exactly when the key is absent, never an error; otherwise the stored row, whose id is the key |
| Repository.GetAllBlogs | repository/blogs.py:37-40 | the listing is ordered by created_at, newest first |
| Repository.AllBlogsListedOnce | repository/blogs.py:37-40 | in a valid store the listing holds every stored blog exactly once and nothing else, newest first, and is as long as the blog table |
| Ordering.ByCreationDescListsOnce | repository/blogs.py:37-40 | walking the key range lists each blog with a key below the bound once, under its own key, with no id repeated |
| Ordering.ByCreationDescStored | repository/blogs.py:37-40 | every blog the listing holds is a stored row, under its own key, below the bound |
| Ordering.ByCreationDescDistinct | repository/blogs.py:37-40 | the listing never holds the same id twice |
| Ordering.ByCreationDescCovers | repository/blogs.py:37-40 | every stored blog whose key is below the bound appears in the listing |
| Repository.ListedIdsAreTheKeys | repository/blogs.py:37-40 | a listing of distinct stored blogs that covers the table is as long as the table |
| Repository.UpdateBlog | repository/blogs.py:43-69 | an absent key answers None and changes nothing; a refusal is always the duplicate-title 400 on an existing blog; otherwise only that blog changes, a truthy title or content replaces the column and a falsy one keeps it, id, author and created_at never change, and updated_at moves to a fresh tick exactly when the row changed; an update whose title and content equal the stored ones leaves the whole store, clock included, unchanged, and conversely |
| Repository.UpdateRefusedIffTitleHeldElsewhere | repository/blogs.py:49-55 | with unique titles, an update of an existing blog is refused if and only if its truthy title is held by a different blog; re-submitting the blog's own title never conflicts |
| Repository.DeleteBlog | repository/blogs.py:72-78 | an absent key answers None and changes nothing; otherwise exactly that blog goes, its images go with it by cascade, every other image stays unchanged, and the prior row is returned |
| Repository.CreateImage | repository/blogs.py:80-89 | fails with 400 "Database constraint error" exactly when the blog is absent or the commit is refused; otherwise adds exactly one image under a fresh key with the given blog, url and description, leaving the blogs unchanged |
| Repository.GetImage | repository/blogs.py:92-95 | None exactly when the key is absent, never an error; otherwise the stored row |
| Repository.GetImagesByBlog | repository/blogs.py:98-101 | every listed image belongs to the requested blog |
| Repository.ImagesByBlogListedOnce | repository/blogs.py:98-101 | in a valid store the listing holds exactly the blog's images, each once, in ascending key order |
| Ordering.ImagesOfBlog | repository/blogs.py:98-101 | the `WHERE blog_id == b` filter: every listed image belongs to blog b |
| Ordering.ImagesOfBlogListsOnce | repository/blogs.py:98-101 | walking the key range lists every image of the blog below the bound once, under its own key, with strictly increasing ids |
| Repository.UpdateImage | repository/blogs.py:104-115 | an absent key answers None and changes nothing; otherwise only that image changes, a truthy url or description replaces the column and a falsy one keeps it, and its blog and upload stamp never change |
| Repository.DeleteImage | repository/blogs.py:118-124 | an absent key answers None and changes nothing; otherwise exactly that image goes, blogs untouched, and its prior row is returned |
| Repository.CreateBlogKeepsValid | repository/blogs.py:14-25 | a successful creation keeps the store invariant, in particular title uniqueness |
| Repository.UpdateBlogKeepsValid | repository/blogs.py:49-67 | a successful update keeps the store invariant, in particular title uniqueness and updated_at >= created_at |
| Repository.DeleteBlogKeepsValid | models/blogs.py:23-26 | a blog deletion keeps the invariant, and no remaining image references the deleted blog |
| Repository.CreateImageKeepsValid | models/blogs.py:32 | a successful image creation keeps the invariant: the new image references a stored blog |
| Repository.UpdateImageKeepsValid | repository/blogs.py:104-115 | an image update keeps the store invariant |
| Repository.DeleteImageKeepsValid | repository/blogs.py:118-124 | an image deletion keeps the store invariant |
| Ordering.InsertByCreation | repository/blogs.py:38 | inserting one blog lengthens the listing by one; the result holds exactly that blog and the blogs listed before |
| Ordering.InsertByCreationPermutes | repository/blogs.py:38 | insertion is a permutation: the result's multiset is the old listing's plus the one new blog |
| Ordering.InsertKeepsNewestFirst | repository/blogs.py:38 | inserting into a newest-first listing keeps it newest first |
| Ordering.InsertKeepsIdsDistinct | repository/blogs.py:38 | inserting a blog whose id is not yet listed keeps the listed ids distinct |
| Ordering.ByCreationDesc | repository/blogs.py:38 | the constructed listing is newest first |
| BlogRoutes.CreateBlog | routers/blogs.py:52-55 | the created blog's author is always the authenticated caller, with the body's title and content; creation succeeds exactly when the title is free and the commit is accepted |
| BlogRoutes.ReadBlogs | routers/blogs.py:58-61 | the page is the contiguous run of the newest-first listing starting at skip, of length min(limit, max(0, n - skip)) |
| BlogRoutes.PagesConcatenate | routers/blogs.py:58-61 | two consecutive pages together are the page spanning both, so paging neither skips nor repeats a blog |
| BlogRoutes.DefaultPageIsNewestTen | routers/blogs.py:59-61 | with the default skip 0 and limit 10 the page is the ten newest blogs, or all of them when there are fewer |
| BlogRoutes.ReadBlog | routers/blogs.py:64-69 | 404 "Blog not found" exactly when the blog is absent; otherwise the stored blog |
| BlogRoutes.UpdateBlog | routers/blogs.py:72-80 | 404 for an absent blog before any ownership check, then 403 for a non-author; the repository is reached only by the author, and a success returns the author's blog |
| BlogRoutes.DeleteBlog | routers/blogs.py:83-91 | 404 for an absent blog, then 403 for a non-author; it succeeds exactly for the author, removing that blog and, by cascade, exactly its images; every surviving image, both key counters and the clock stay as they were |
| ImageRoutes.AddImage | routers/image.py:34-47 | 404 for an absent blog, then 403 for a non-author, with no image created; it succeeds exactly for the author when the commit is accepted, creating one image of the requested blog with the saved file location and the given description |
| ImageRoutes.GetImages | routers/image.py:50-56 | 404 exactly when the blog is absent; otherwise only images of that blog |
| ImageRoutes.GetImagesListsExactlyTheBlogsImages | routers/image.py:50-56 | for a stored blog in a valid store, the answer lists exactly the images whose blog_id is that blog, each once |
| ImageRoutes.DeleteImage | routers/image.py:73-84 | checks in order: blog exists (404), caller is its author (403), image exists in that blog (404); it succeeds if and only if all three hold, and a success removes exactly that image, leaving blogs and other images unchanged |
| Service.Serve | routers/blogs.py:52-91 | a refused request of any endpoint leaves the store exactly as it was, and read requests never change it |
| Service.ServeKeepsValid | models/blogs.py:9-34 | every request keeps the store invariant: unique titles, no dangling image, updated_at >= created_at |
| Service.NonAuthorIsForbidden | routers/blogs.py:84-89 | a caller who is not the author of an existing blog gets 403 from every mutating request on it, and the store, including that blog and its images, stays as it was |
| Service.ChangesBelongToCaller | routers/image.py:37-41 | every blog a request adds, changes or removes is authored by the caller, every image it adds or removes belongs to a blog of the caller's, and no request alters an image that it keeps |
| Service.ServeAnswersDeclaredStatus | routers/blogs.py:52-91 | a successful reply carries the status its route declares: 201 for creating a blog or an image, 204 for deleting one, 200 for reads and blog updates |
| Service.ReachableStoresAreValid | repository/blogs.py:14-18 | every store reached from a fresh database by any sequence of requests satisfies the invariant, so titles stay unique and no image references a missing blog |
| Service.TitleConflictScenario | repository/blogs.py:49-55 | a worked trace: the first "A" gets id 1, a second "A" is refused, re-submitting "A" for blog 1 succeeds unchanged, renaming another blog to "A" is refused, and a non-author cannot delete blog 1 |

## Left out

- Sessions, ORM queries, `commit`/`refresh`/`rollback`: each repository call is one atomic transition on the abstract store.
- Concurrency: title uniqueness is claimed only for sequential execution. The check-then-insert race between two concurrent creations is not modelled.
- `save_image_to_static_folder` (repository/blogs.py:126-135) is filesystem I/O. The saved location is an opaque string input of `ImageRoutes.AddImage`. A file written before a refused image commit stays on disk; this is not modelled.
- Real time: `datetime.utcnow` is an abstract monotone tick. The two separate `default_factory` calls for `created_at` and `updated_at` become one tick.
- The `IntegrityError` branches are modelled only as the `rejected` input. The users table is not modelled, so a foreign-key failure on `author_id` is one such refusal.
- Users (models/user.py): only the caller's id matters here. Username/email uniqueness and password hashing are database and library concerns.
- Pydantic request/response schemas and serialisation: for example, the `images` field of `BlogResponse` and the message body of a blog deletion.
- routers/api.py: router mounting only.
- alembic/versions/403adac01ad1_generate_initial_schema.py is a bookstore schema no route uses, and is not part of this model.
- The commented-out image update route (routers/image.py:59-70). The repository's `update_image` is modelled.
- BlogRoutes.ReadBlogs: skip and limit are natural numbers. Python's slicing with negative bounds is not modelled.
- Repository.GetAllBlogs: the query leaves blogs with equal created_at in no particular order. The model puts the later-inserted one first; only the newest-first order is claimed.
- Repository.GetImagesByBlog: the query has no ORDER BY, so the database may return the rows in any order. Ascending key order (`Ordering.AscendingImageIds`) is this model's own choice; of the source's behaviour, only which images are listed, each once, is claimed.
