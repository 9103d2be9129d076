/**
 The `/blogs` handlers. Each mutating handler fetches the blog first and
 answers 404 when it is absent, then 403 when the caller is not its author,
 and only then hands over to the repository.
 */
module BlogRoutes {
  import opened Models
  import opened Errors
  import Repository

  /** Request bodies. The author of a new blog is never part of the body. */
  datatype BlogCreate = BlogCreate(title: string, content: string)
  datatype BlogUpdate = BlogUpdate(title: Option<string>, content: Option<string>)

  const DefaultSkip: nat := 0
  const DefaultLimit: nat := 10

  function Min(a: int, b: int): int { if a <= b then a else b }
  function Max(a: int, b: int): int { if a <= b then b else a }

  /** POST /blogs: the author is the authenticated caller, whatever the client sends. */
  function CreateBlog(s: Store, caller: Id, body: BlogCreate, rejected: bool): (r: Result<(Store, Blog)>)
    ensures r.Success? <==> !TitleTaken(s.blogs, body.title) && !rejected
    ensures r.Success? ==>
      var (t, b) := r.value;
      && b.authorId == caller && b.title == body.title && b.content == body.content
      && (KeyedById(s) ==> Repository.AddsBlog(s, t, b))
    ensures TitleTaken(s.blogs, body.title) ==> r == Failure(BadRequest(TitleExists))
  {
    Repository.CreateBlog(s, body.title, body.content, caller, rejected)
  }

  /**
   GET /blogs: the page `[skip, skip + limit)` of the newest-first listing,
   with Python's clamping of slice bounds to the list length.
   */
  function ReadBlogs(s: Store, skip: nat, limit: nat): (r: seq<Blog>)
    ensures var all := Repository.GetAllBlogs(s);
      && |r| == Min(limit, Max(0, |all| - skip))
      && forall i :: 0 <= i < |r| ==> skip + i < |all| && r[i] == all[skip + i]
  {
    var all := Repository.GetAllBlogs(s);
    all[Min(skip, |all|)..Min(skip + limit, |all|)]
  }

  /** Two consecutive pages are the page that spans both: paging neither skips nor repeats a blog. */
  lemma PagesConcatenate(s: Store, skip: nat, a: nat, b: nat)
    ensures ReadBlogs(s, skip, a) + ReadBlogs(s, skip + a, b) == ReadBlogs(s, skip, a + b)
  {
  }

  /** Without query parameters the page is the ten newest blogs, or all of them when there are fewer. */
  lemma DefaultPageIsNewestTen(s: Store)
    ensures var all := Repository.GetAllBlogs(s);
      ReadBlogs(s, DefaultSkip, DefaultLimit) == all[..Min(10, |all|)]
  {
  }

  /** GET /blogs/{id}: the blog, or 404. */
  function ReadBlog(s: Store, id: Id): (r: Result<Blog>)
    ensures r.Failure? <==> id !in s.blogs
    ensures r.Failure? ==> r.error == NotFound(BlogNotFound)
    ensures r.Success? ==> r.value == s.blogs[id]
  {
    match Repository.GetBlog(s, id)
    case None => Failure(NotFound(BlogNotFound))
    case Some(b) => Success(b)
  }

  /**
   PUT /blogs/{id}: 404 for an absent blog before any ownership check, 403 for
   a caller who is not the author; only the author reaches the repository.
   */
  function UpdateBlog(s: Store, caller: Id, id: Id, body: BlogUpdate): (r: Result<(Store, Option<Blog>)>)
    ensures id !in s.blogs ==> r == Failure(NotFound(BlogNotFound))
    ensures id in s.blogs && s.blogs[id].authorId != caller ==> r == Failure(Forbidden(UpdateForbidden))
    ensures id in s.blogs && s.blogs[id].authorId == caller ==>
      r == Repository.UpdateBlog(s, id, body.title, body.content)
    ensures r.Success? ==> r.value.1.Some? && r.value.1.value.authorId == caller
  {
    match Repository.GetBlog(s, id)
    case None => Failure(NotFound(BlogNotFound))
    case Some(b) =>
      if b.authorId != caller then Failure(Forbidden(UpdateForbidden))
      else Repository.UpdateBlog(s, id, body.title, body.content)
  }

  /**
   DELETE /blogs/{id}: the same 404-then-403 guard; the author's request
   removes the blog and, by cascade, its images.
   */
  function DeleteBlog(s: Store, caller: Id, id: Id): (r: Result<Store>)
    ensures id !in s.blogs ==> r == Failure(NotFound(BlogNotFound))
    ensures id in s.blogs && s.blogs[id].authorId != caller ==> r == Failure(Forbidden(DeleteForbidden))
    ensures r.Success? <==> id in s.blogs && s.blogs[id].authorId == caller
    ensures r.Success? ==>
      && r.value.blogs == s.blogs - {id}
      && (forall k :: k in r.value.images <==> k in s.images && s.images[k].blogId != id)
      && (forall k :: k in r.value.images ==> r.value.images[k] == s.images[k])
      && r.value.nextBlogId == s.nextBlogId && r.value.nextImageId == s.nextImageId
      && r.value.clock == s.clock
  {
    match Repository.GetBlog(s, id)
    case None => Failure(NotFound(BlogNotFound))
    case Some(b) =>
      if b.authorId != caller then Failure(Forbidden(DeleteForbidden))
      else Success(Repository.DeleteBlog(s, id).0)
  }
}
