/**
 The repository functions: single-entity create, read, update and delete on
 blogs and images, each one atomic transition of the store. A commit that the
 database refuses with an `IntegrityError` is an outside decision, so it is an
 input here (`rejected`); the refused write leaves no trace in the store.
 */
module Repository {
  import opened Models
  import opened Errors
  import Ordering

  /** The stamp a committed INSERT or UPDATE receives: one tick past the store's clock. */
  function Tick(s: Store): nat {
    s.clock + 1
  }

  /** `true` when the store is exactly `s` except that `t` adds the one blog `b`. */
  predicate AddsBlog(s: Store, t: Store, b: Blog) {
    && b.id !in s.blogs
    && t.blogs == s.blogs[b.id := b]
    && t.images == s.images
  }

  /**
   Inserts a blog, after checking that no stored blog already holds the title.
   Fails with 400 on a taken title, before the commit is even tried, and with
   400 when the database refuses the commit.
   */
  function CreateBlog(s: Store, title: string, content: string, authorId: Id, rejected: bool)
    : (r: Result<(Store, Blog)>)
    ensures TitleTaken(s.blogs, title) ==> r == Failure(BadRequest(TitleExists))
    ensures !TitleTaken(s.blogs, title) && rejected ==> r == Failure(BadRequest(ConstraintError))
    ensures r.Success? <==> !TitleTaken(s.blogs, title) && !rejected
    ensures r.Success? ==>
      var (t, b) := r.value;
      && b.title == title && b.content == content && b.authorId == authorId
      && b.id == s.nextBlogId && t.nextBlogId > b.id
      && b.createdAt == b.updatedAt > s.clock
      && t.images == s.images
      && (KeyedById(s) ==> AddsBlog(s, t, b))
  {
    if TitleTaken(s.blogs, title) then Failure(BadRequest(TitleExists))
    else if rejected then Failure(BadRequest(ConstraintError))
    else
      var now := Tick(s);
      var b := Blog(s.nextBlogId, title, content, authorId, now, now);
      Success((s.(blogs := s.blogs[b.id := b], nextBlogId := s.nextBlogId + 1, clock := now), b))
  }

  /** The blog with key `id`, or `None`; never an error. */
  function GetBlog(s: Store, id: Id): (r: Option<Blog>)
    ensures r.None? <==> id !in s.blogs
    ensures r.Some? ==> r.value == s.blogs[id]
    ensures r.Some? && KeyedById(s) ==> r.value.id == id
  {
    if id in s.blogs then Some(s.blogs[id]) else None
  }

  /** Every blog, newest first. */
  function GetAllBlogs(s: Store): (r: seq<Blog>)
    ensures Ordering.NewestFirst(r)
  {
    Ordering.ByCreationDesc(s.blogs, s.nextBlogId)
  }

  /** In a valid store the listing holds each blog exactly once, newest first. */
  lemma AllBlogsListedOnce(s: Store)
    requires Valid(s)
    ensures Ordering.ListsBlogsOnce(GetAllBlogs(s), s.blogs)
    ensures Ordering.NewestFirst(GetAllBlogs(s))
    ensures |GetAllBlogs(s)| == |s.blogs|
  {
    var r := GetAllBlogs(s);
    Ordering.ByCreationDescListsOnce(s.blogs, s.nextBlogId);
    ListedIdsAreTheKeys(r, s.blogs);
  }

  /** A sequence of distinct stored blogs covering the map is exactly as long as the map. */
  lemma {:induction false} ListedIdsAreTheKeys(bs: seq<Blog>, blogs: map<Id, Blog>)
    requires Ordering.ListsBlogsOnce(bs, blogs)
    requires forall k :: k in blogs ==> blogs[k].id == k
    ensures |bs| == |blogs|
  {
    if bs == [] {
      assert blogs.Keys == {};
    } else {
      var x := bs[|bs| - 1];
      var init := bs[..|bs| - 1];
      var rest := blogs - {x.id};
      forall k | k in rest ensures exists i :: 0 <= i < |init| && init[i].id == k {
        var i :| 0 <= i < |bs| && bs[i].id == k;
        assert init[i] == bs[i];
      }
      forall i | 0 <= i < |init| ensures init[i].id in rest && rest[init[i].id] == init[i] {
        assert bs[i].id != bs[|bs| - 1].id;
      }
      ListedIdsAreTheKeys(init, rest);
      assert blogs.Keys == rest.Keys + {x.id};
    }
  }

  /**
   Updates a blog in place. An absent key is not an error: the answer is
   `None`. A truthy title that differs from the current one is rejected with
   400 when some blog already holds it; a falsy title or content (absent or
   empty) leaves that column as it was. `updated_at` moves only when a column
   actually changes, since no UPDATE statement is issued otherwise.
   */
  function UpdateBlog(s: Store, id: Id, title: Option<string>, content: Option<string>)
    : (r: Result<(Store, Option<Blog>)>)
    ensures id !in s.blogs ==> r == Success((s, None))
    ensures r.Failure? ==> r.error == BadRequest(TitleExists) && id in s.blogs
    ensures r.Success? && id in s.blogs ==>
      var (t, ob) := r.value;
      var prev := s.blogs[id];
      && ob.Some?
      && var b := ob.value;
      && t.blogs == s.blogs[id := b]
      && t.images == s.images
      && t.nextBlogId == s.nextBlogId && t.nextImageId == s.nextImageId
      && b.id == prev.id && b.authorId == prev.authorId && b.createdAt == prev.createdAt
      && b.title == (if Truthy(title) then title.value else prev.title)
      && b.content == (if Truthy(content) then content.value else prev.content)
      && (b.title == prev.title && b.content == prev.content <==> t == s && b == prev)
      && (b != prev ==> b.updatedAt == t.clock > s.clock)
  {
    if id !in s.blogs then Success((s, None))
    else
      var b := s.blogs[id];
      if Truthy(title) && title.value != b.title && TitleTaken(s.blogs, title.value) then
        Failure(BadRequest(TitleExists))
      else
        var newTitle := if Truthy(title) then title.value else b.title;
        var newContent := if Truthy(content) then content.value else b.content;
        if newTitle == b.title && newContent == b.content then Success((s, Some(b)))
        else
          var now := Tick(s);
          var b' := b.(title := newTitle, content := newContent, updatedAt := now);
          Success((s.(blogs := s.blogs[id := b'], clock := now), Some(b')))
  }

  /**
   In a store with unique titles, an update of an existing blog is refused
   exactly when its truthy title is held by ANOTHER blog: re-submitting the
   blog's own title is never a conflict.
   */
  lemma UpdateRefusedIffTitleHeldElsewhere(s: Store, id: Id, title: Option<string>, content: Option<string>)
    requires TitlesUnique(s.blogs)
    requires id in s.blogs
    ensures UpdateBlog(s, id, title, content).Failure? <==>
      Truthy(title) && exists k :: k in s.blogs && k != id && s.blogs[k].title == title.value
  {
  }

  /**
   Deletes a blog. An absent key answers `None`; otherwise the blog goes, its
   images go with it through the cascade, and its prior state is returned.
   */
  function DeleteBlog(s: Store, id: Id): (r: (Store, Option<Blog>))
    ensures id !in s.blogs ==> r == (s, None)
    ensures id in s.blogs ==>
      var (t, ob) := r;
      && ob == Some(s.blogs[id])
      && t.blogs == s.blogs - {id}
      && (forall k :: k in t.images <==> k in s.images && s.images[k].blogId != id)
      && (forall k :: k in t.images ==> t.images[k] == s.images[k])
      && t.nextBlogId == s.nextBlogId && t.nextImageId == s.nextImageId && t.clock == s.clock
  {
    if id !in s.blogs then (s, None)
    else (s.(blogs := s.blogs - {id}, images := Cascade(s.images, id)), Some(s.blogs[id]))
  }

  /**
   Inserts an image. The repository itself checks nothing; the `blog_id`
   foreign key makes the database refuse an image of an absent blog, and any
   other refusal is the `rejected` input. Either way the answer is 400.
   */
  function CreateImage(s: Store, blogId: Id, imageUrl: string, description: Option<string>, rejected: bool)
    : (r: Result<(Store, Image)>)
    ensures r.Failure? <==> blogId !in s.blogs || rejected
    ensures r.Failure? ==> r.error == BadRequest(ConstraintError)
    ensures r.Success? ==>
      var (t, i) := r.value;
      && i.blogId == blogId && i.imageUrl == imageUrl && i.description == description
      && i.id == s.nextImageId && t.nextImageId > i.id
      && i.uploadedAt > s.clock
      && t.blogs == s.blogs
      && (KeyedById(s) ==> i.id !in s.images && t.images == s.images[i.id := i])
  {
    if blogId !in s.blogs || rejected then Failure(BadRequest(ConstraintError))
    else
      var now := Tick(s);
      var i := Image(s.nextImageId, blogId, imageUrl, description, now);
      Success((s.(images := s.images[i.id := i], nextImageId := s.nextImageId + 1, clock := now), i))
  }

  /** The image with key `id`, or `None`; never an error. */
  function GetImage(s: Store, id: Id): (r: Option<Image>)
    ensures r.None? <==> id !in s.images
    ensures r.Some? ==> r.value == s.images[id]
    ensures r.Some? && KeyedById(s) ==> r.value.id == id
  {
    if id in s.images then Some(s.images[id]) else None
  }

  /** The images whose `blog_id` is `blogId`, in key order. */
  function GetImagesByBlog(s: Store, blogId: Id): (r: seq<Image>)
    ensures forall i :: 0 <= i < |r| ==> r[i].blogId == blogId
  {
    Ordering.ImagesOfBlog(s.images, blogId, s.nextImageId)
  }

  /** In a valid store that listing holds exactly the images of the blog, each once. */
  lemma ImagesByBlogListedOnce(s: Store, blogId: Id)
    requires Valid(s)
    ensures Ordering.ListsImagesOf(GetImagesByBlog(s, blogId), s.images, blogId)
  {
    Ordering.ImagesOfBlogListsOnce(s.images, blogId, s.nextImageId);
  }

  /**
   Updates an image in place with the same falsy-means-keep rule as blogs.
   An absent key answers `None`. The owning blog never changes.
   */
  function UpdateImage(s: Store, id: Id, imageUrl: Option<string>, description: Option<string>)
    : (r: (Store, Option<Image>))
    ensures id !in s.images ==> r == (s, None)
    ensures id in s.images ==>
      var (t, oi) := r;
      var prev := s.images[id];
      && oi.Some?
      && t.images == s.images[id := oi.value]
      && t.blogs == s.blogs && t.clock == s.clock
      && t.nextBlogId == s.nextBlogId && t.nextImageId == s.nextImageId
      && oi.value.id == prev.id && oi.value.blogId == prev.blogId && oi.value.uploadedAt == prev.uploadedAt
      && oi.value.imageUrl == (if Truthy(imageUrl) then imageUrl.value else prev.imageUrl)
      && oi.value.description == (if Truthy(description) then description else prev.description)
  {
    if id !in s.images then (s, None)
    else
      var i := s.images[id];
      var i' := i.(imageUrl := if Truthy(imageUrl) then imageUrl.value else i.imageUrl,
                   description := if Truthy(description) then description else i.description);
      (s.(images := s.images[id := i']), Some(i'))
  }

  /** Deletes an image. An absent key answers `None`; otherwise exactly that image goes. */
  function DeleteImage(s: Store, id: Id): (r: (Store, Option<Image>))
    ensures id !in s.images ==> r == (s, None)
    ensures id in s.images ==>
      var (t, oi) := r;
      && oi == Some(s.images[id])
      && t.images == s.images - {id}
      && t.blogs == s.blogs && t.clock == s.clock
      && t.nextBlogId == s.nextBlogId && t.nextImageId == s.nextImageId
  {
    if id !in s.images then (s, None)
    else (s.(images := s.images - {id}), Some(s.images[id]))
  }

  // ----- The store invariant survives every repository transition -----

  lemma CreateBlogKeepsValid(s: Store, title: string, content: string, authorId: Id, rejected: bool)
    requires Valid(s)
    ensures var r := CreateBlog(s, title, content, authorId, rejected);
      r.Success? ==> Valid(r.value.0)
  {
  }

  lemma UpdateBlogKeepsValid(s: Store, id: Id, title: Option<string>, content: Option<string>)
    requires Valid(s)
    ensures var r := UpdateBlog(s, id, title, content);
      r.Success? ==> Valid(r.value.0)
  {
  }

  lemma DeleteBlogKeepsValid(s: Store, id: Id)
    requires Valid(s)
    ensures Valid(DeleteBlog(s, id).0)
    ensures forall k :: k in DeleteBlog(s, id).0.images ==> DeleteBlog(s, id).0.images[k].blogId != id
  {
  }

  lemma CreateImageKeepsValid(s: Store, blogId: Id, imageUrl: string, description: Option<string>, rejected: bool)
    requires Valid(s)
    ensures var r := CreateImage(s, blogId, imageUrl, description, rejected);
      r.Success? ==> Valid(r.value.0)
  {
  }

  lemma UpdateImageKeepsValid(s: Store, id: Id, imageUrl: Option<string>, description: Option<string>)
    requires Valid(s)
    ensures Valid(UpdateImage(s, id, imageUrl, description).0)
  {
  }

  lemma DeleteImageKeepsValid(s: Store, id: Id)
    requires Valid(s)
    ensures Valid(DeleteImage(s, id).0)
  {
  }
}
