/**
 The whole service as a sequential state machine: one request from one
 authenticated caller is one atomic step on the store. The properties that
 concern every endpoint at once live here: the store invariant holds in
 every reachable state, a refused request changes nothing, and only a blog's
 author can change that blog or its images.
 */
module Service {
  import opened Models
  import opened Errors
  import Repository
  import BlogRoutes
  import ImageRoutes

  /** The requests the routers accept, with their path, query and body parameters. */
  datatype Request =
    | CreateBlog(create: BlogRoutes.BlogCreate)
    | ReadBlogs(skip: nat, limit: nat)
    | ReadBlog(blogId: Id)
    | UpdateBlog(blogId: Id, update: BlogRoutes.BlogUpdate)
    | DeleteBlog(blogId: Id)
    | AddImage(blogId: Id, fileLocation: string, description: Option<string>)
    | GetImages(blogId: Id)
    | DeleteImage(blogId: Id, imageId: Id)

  datatype Reply =
    | BlogCreated(blog: Blog)
    | BlogPage(blogs: seq<Blog>)
    | OneBlog(blog: Blog)
    | BlogUpdated(updated: Option<Blog>)
    | ImageCreated(image: Image)
    | ImageList(images: seq<Image>)
    | NoContent

  /** The status of a successful reply: 201 for a creation, 204 for a deletion, 200 otherwise. */
  function SuccessStatus(reply: Reply): nat {
    match reply
    case BlogCreated(_) => 201
    case ImageCreated(_) => 201
    case NoContent => 204
    case _ => 200
  }

  /** The requests that only read. */
  predicate IsRead(req: Request) {
    req.ReadBlogs? || req.ReadBlog? || req.GetImages?
  }

  /** The existing blog a mutating request acts on; only its author may proceed. */
  function Target(req: Request): Option<Id> {
    match req
    case UpdateBlog(b, _) => Some(b)
    case DeleteBlog(b) => Some(b)
    case AddImage(b, _, _) => Some(b)
    case DeleteImage(b, _) => Some(b)
    case _ => None
  }

  /**
   Serves one request. `rejected` says whether the database would refuse a
   commit with an integrity error; requests that commit nothing ignore it.
   */
  function Serve(s: Store, caller: Id, req: Request, rejected: bool): (r: (Store, Result<Reply>))
    ensures r.1.Failure? ==> r.0 == s
    ensures IsRead(req) ==> r.0 == s
  {
    match req
    case CreateBlog(body) =>
      (match BlogRoutes.CreateBlog(s, caller, body, rejected)
       case Success((t, b)) => (t, Success(BlogCreated(b)))
       case Failure(e) => (s, Failure(e)))
    case ReadBlogs(skip, limit) => (s, Success(BlogPage(BlogRoutes.ReadBlogs(s, skip, limit))))
    case ReadBlog(id) =>
      (match BlogRoutes.ReadBlog(s, id)
       case Success(b) => (s, Success(OneBlog(b)))
       case Failure(e) => (s, Failure(e)))
    case UpdateBlog(id, body) =>
      (match BlogRoutes.UpdateBlog(s, caller, id, body)
       case Success((t, ob)) => (t, Success(BlogUpdated(ob)))
       case Failure(e) => (s, Failure(e)))
    case DeleteBlog(id) =>
      (match BlogRoutes.DeleteBlog(s, caller, id)
       case Success(t) => (t, Success(NoContent))
       case Failure(e) => (s, Failure(e)))
    case AddImage(id, location, description) =>
      (match ImageRoutes.AddImage(s, caller, id, location, description, rejected)
       case Success((t, i)) => (t, Success(ImageCreated(i)))
       case Failure(e) => (s, Failure(e)))
    case GetImages(id) =>
      (match ImageRoutes.GetImages(s, id)
       case Success(imgs) => (s, Success(ImageList(imgs)))
       case Failure(e) => (s, Failure(e)))
    case DeleteImage(id, imageId) =>
      (match ImageRoutes.DeleteImage(s, caller, id, imageId)
       case Success(t) => (t, Success(NoContent))
       case Failure(e) => (s, Failure(e)))
  }

  /** Every step keeps the store invariant, so titles stay unique and no image dangles. */
  lemma ServeKeepsValid(s: Store, caller: Id, req: Request, rejected: bool)
    requires Valid(s)
    ensures Valid(Serve(s, caller, req, rejected).0)
  {
  }

  /**
   A caller who is not the author of the blog a mutating request targets is
   refused with 403 and the store stays as it was.
   */
  lemma NonAuthorIsForbidden(s: Store, caller: Id, req: Request, rejected: bool)
    requires Target(req).Some? && Target(req).value in s.blogs
    requires s.blogs[Target(req).value].authorId != caller
    ensures var (t, r) := Serve(s, caller, req, rejected);
      t == s && r.Failure? && Status(r.error) == 403
  {
  }

  /**
   Ownership-gated mutation: whatever a request changes belongs to the caller.
   Every blog that appears, changes or disappears is authored by the caller,
   and every image that appears or disappears belongs to (or belonged to) a
   blog of the caller's.
   */
  lemma ChangesBelongToCaller(s: Store, caller: Id, req: Request, rejected: bool)
    requires Valid(s)
    ensures var t := Serve(s, caller, req, rejected).0;
      && (forall k :: k in t.blogs && (k !in s.blogs || t.blogs[k] != s.blogs[k]) ==>
            t.blogs[k].authorId == caller)
      && (forall k :: k in s.blogs && k !in t.blogs ==> s.blogs[k].authorId == caller)
      && (forall k :: k in t.images && k !in s.images ==>
            t.images[k].blogId in t.blogs && t.blogs[t.images[k].blogId].authorId == caller)
      && (forall k :: k in s.images && k !in t.images ==> s.blogs[s.images[k].blogId].authorId == caller)
      && (forall k :: k in s.images && k in t.images ==> t.images[k] == s.images[k])
  {
  }

  /**
   A successful reply carries the status its route declares: 201 for the two
   creations, 204 for the two deletions, 200 for reads and blog updates.
   */
  lemma ServeAnswersDeclaredStatus(s: Store, caller: Id, req: Request, rejected: bool)
    ensures var r := Serve(s, caller, req, rejected).1;
      r.Success? ==>
        SuccessStatus(r.value) ==
          if req.CreateBlog? || req.AddImage? then 201
          else if req.DeleteBlog? || req.DeleteImage? then 204
          else 200
  {
  }

  /** One step of a trace: who asked, what, and whether the database refused a commit. */
  datatype Step = Step(caller: Id, req: Request, rejected: bool)

  /** The store after serving the steps of `trace` one after another. */
  function Run(s: Store, trace: seq<Step>): Store
  {
    if trace == [] then s
    else
      var last := trace[|trace| - 1];
      Serve(Run(s, trace[..|trace| - 1]), last.caller, last.req, last.rejected).0
  }

  /** The invariant holds in every state reached from a fresh database. */
  lemma {:induction false} ReachableStoresAreValid(trace: seq<Step>)
    ensures Valid(Run(Empty(), trace))
    ensures TitlesUnique(Run(Empty(), trace).blogs)
    ensures ImagesReferenceBlogs(Run(Empty(), trace))
  {
    if trace != [] {
      var last := trace[|trace| - 1];
      ReachableStoresAreValid(trace[..|trace| - 1]);
      ServeKeepsValid(Run(Empty(), trace[..|trace| - 1]), last.caller, last.req, last.rejected);
    }
  }

  /**
   A worked scenario on a fresh database: user 1 creates "A" and gets id 1;
   user 2 cannot create another "A"; user 1 may re-submit "A" as the title of
   blog 1; a second blog "B" cannot be renamed to "A"; user 2 cannot delete
   blog 1, which stays.
   */
  lemma TitleConflictScenario()
    ensures var s1 := Serve(Empty(), 1, CreateBlog(BlogRoutes.BlogCreate("A", "c1")), false);
      && s1.1.Success? && s1.1.value.blog.id == 1 && s1.1.value.blog.authorId == 1
      && Serve(s1.0, 2, CreateBlog(BlogRoutes.BlogCreate("A", "c2")), false)
         == (s1.0, Failure(BadRequest(TitleExists)))
      && Serve(s1.0, 1, UpdateBlog(1, BlogRoutes.BlogUpdate(Some("A"), None)), false)
         == (s1.0, Success(BlogUpdated(Some(s1.0.blogs[1]))))
      && var s2 := Serve(s1.0, 2, CreateBlog(BlogRoutes.BlogCreate("B", "c3")), false);
      && s2.1.Success? && s2.1.value.blog.id == 2
      && Serve(s2.0, 2, UpdateBlog(2, BlogRoutes.BlogUpdate(Some("A"), None)), false)
         == (s2.0, Failure(BadRequest(TitleExists)))
      && Serve(s2.0, 2, DeleteBlog(1), false) == (s2.0, Failure(Forbidden(DeleteForbidden)))
      && 1 in s2.0.blogs
  {
    var s1 := Serve(Empty(), 1, CreateBlog(BlogRoutes.BlogCreate("A", "c1")), false);
    assert !TitleTaken(Empty().blogs, "A");
    assert TitleTaken(s1.0.blogs, "A") by { assert s1.0.blogs[1].title == "A"; }
    assert !TitleTaken(s1.0.blogs, "B") by { assert s1.0.blogs.Keys == {1}; }
    var s2 := Serve(s1.0, 2, CreateBlog(BlogRoutes.BlogCreate("B", "c3")), false);
    assert TitleTaken(s2.0.blogs, "A") by { assert s2.0.blogs[1].title == "A"; }
  }
}
