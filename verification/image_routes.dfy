/**
 The `/image` handlers. Mutations check, in this order: the blog exists
 (404), the caller is its author (403), and, for a deletion, the image exists
 and belongs to that blog (404).
 */
module ImageRoutes {
  import opened Models
  import opened Errors
  import Repository
  import Ordering

  /**
   POST /image?blog_id=…: stores the uploaded file (its saved location is the
   input `fileLocation`) as a new image of the blog.
   */
  function AddImage(s: Store, caller: Id, blogId: Id, fileLocation: string, description: Option<string>, rejected: bool)
    : (r: Result<(Store, Image)>)
    ensures blogId !in s.blogs ==> r == Failure(NotFound(BlogNotFound))
    ensures blogId in s.blogs && s.blogs[blogId].authorId != caller ==> r == Failure(Forbidden(AddImageForbidden))
    ensures r.Success? <==> blogId in s.blogs && s.blogs[blogId].authorId == caller && !rejected
    ensures r.Success? ==>
      var (t, i) := r.value;
      && i.blogId == blogId && i.imageUrl == fileLocation && i.description == description
      && t.blogs == s.blogs
      && (KeyedById(s) ==> i.id !in s.images && t.images == s.images[i.id := i])
  {
    match Repository.GetBlog(s, blogId)
    case None => Failure(NotFound(BlogNotFound))
    case Some(b) =>
      if b.authorId != caller then Failure(Forbidden(AddImageForbidden))
      else Repository.CreateImage(s, blogId, fileLocation, description, rejected)
  }

  /** GET /image?blog_id=…: 404 for an absent blog, otherwise the blog's images; anyone may ask. */
  function GetImages(s: Store, blogId: Id): (r: Result<seq<Image>>)
    ensures r.Failure? <==> blogId !in s.blogs
    ensures r.Failure? ==> r.error == NotFound(BlogNotFound)
    ensures r.Success? ==> forall i :: 0 <= i < |r.value| ==> r.value[i].blogId == blogId
  {
    match Repository.GetBlog(s, blogId)
    case None => Failure(NotFound(BlogNotFound))
    case Some(_) => Success(Repository.GetImagesByBlog(s, blogId))
  }

  /** In a valid store a successful listing holds exactly the blog's images, each once. */
  lemma GetImagesListsExactlyTheBlogsImages(s: Store, blogId: Id)
    requires Valid(s)
    requires blogId in s.blogs
    ensures GetImages(s, blogId).Success?
    ensures Ordering.ListsImagesOf(GetImages(s, blogId).value, s.images, blogId)
  {
    Repository.ImagesByBlogListedOnce(s, blogId);
  }

  /** The image named in a deletion request exists and belongs to the blog named beside it. */
  predicate InBlog(s: Store, blogId: Id, imageId: Id) {
    imageId in s.images && s.images[imageId].blogId == blogId
  }

  /**
   DELETE /image/{image_id}?blog_id=…: blog exists (404), caller is author
   (403), image exists in that blog (404); then exactly that image goes.
   */
  function DeleteImage(s: Store, caller: Id, blogId: Id, imageId: Id): (r: Result<Store>)
    ensures blogId !in s.blogs ==> r == Failure(NotFound(BlogNotFound))
    ensures blogId in s.blogs && s.blogs[blogId].authorId != caller ==> r == Failure(Forbidden(DeleteImageForbidden))
    ensures blogId in s.blogs && s.blogs[blogId].authorId == caller && !InBlog(s, blogId, imageId) ==>
      r == Failure(NotFound(ImageNotFound))
    ensures r.Success? <==> blogId in s.blogs && s.blogs[blogId].authorId == caller && InBlog(s, blogId, imageId)
    ensures r.Success? ==>
      && InBlog(s, blogId, imageId)
      && r.value.images == s.images - {imageId}
      && r.value.blogs == s.blogs
  {
    match Repository.GetBlog(s, blogId)
    case None => Failure(NotFound(BlogNotFound))
    case Some(b) =>
      if b.authorId != caller then Failure(Forbidden(DeleteImageForbidden))
      else
        match Repository.GetImage(s, imageId)
        case None => Failure(NotFound(ImageNotFound))
        case Some(i) =>
          if i.blogId != blogId then Failure(NotFound(ImageNotFound))
          else Success(Repository.DeleteImage(s, imageId).0)
  }
}
