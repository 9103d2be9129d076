/**
 The record shapes of the `blogs` and `images` tables and the abstract
 in-memory store that holds them. Every repository call is one atomic
 transition on a `Store`; the database, its sessions and its clock are
 replaced by two maps, two autoincrement counters and a monotone tick.
 */
module Models {

  /** Primary keys and user ids: Python ints, so possibly negative in a request path. */
  type Id = int

  /** The first value an autoincrement primary key hands out. */
  const FirstId: nat := 1

  datatype Option<+T> = None | Some(value: T)

  /** Python truthiness of an `Optional[str]` argument: present and not the empty string. */
  predicate Truthy(o: Option<string>) {
    o.Some? && |o.value| > 0
  }

  /**
   A row of `blogs`. Title and content are non-nullable columns, so they are
   plain strings; the two timestamps are ticks of the abstract clock.
   */
  datatype Blog = Blog(
    id: Id,
    title: string,
    content: string,
    authorId: Id,
    createdAt: nat,
    updatedAt: nat)

  /** A row of `images`: the owning blog is mandatory, the description is nullable. */
  datatype Image = Image(
    id: Id,
    blogId: Id,
    imageUrl: string,
    description: Option<string>,
    uploadedAt: nat)

  /** Both tables, the next key each autoincrement column hands out, and the last tick stamped. */
  datatype Store = Store(
    blogs: map<Id, Blog>,
    images: map<Id, Image>,
    nextBlogId: nat,
    nextImageId: nat,
    clock: nat)

  /** A fresh database: no rows, counters at their first value, clock at zero. */
  function Empty(): (s: Store)
    ensures Valid(s)
    ensures forall t :: !TitleTaken(s.blogs, t)
  {
    Store(map[], map[], FirstId, FirstId, 0)
  }

  /** Some stored blog carries title `t` (the `select(Blog).where(Blog.title == t)` query finds a row). */
  predicate TitleTaken(blogs: map<Id, Blog>, t: string) {
    exists k :: k in blogs && blogs[k].title == t
  }

  /** Every row sits under its own primary key, and every key was handed out by its counter. */
  predicate KeyedById(s: Store) {
    && FirstId <= s.nextBlogId && FirstId <= s.nextImageId
    && (forall k :: k in s.blogs ==> s.blogs[k].id == k && FirstId <= k < s.nextBlogId)
    && (forall k :: k in s.images ==> s.images[k].id == k && FirstId <= k < s.nextImageId)
  }

  /** No two distinct blogs share a title. */
  predicate TitlesUnique(blogs: map<Id, Blog>) {
    forall a, b :: a in blogs && b in blogs && a != b ==> blogs[a].title != blogs[b].title
  }

  /** The `images.blog_id` foreign key: every image belongs to a stored blog. */
  predicate ImagesReferenceBlogs(s: Store) {
    forall k :: k in s.images ==> s.images[k].blogId in s.blogs
  }

  /** Every stamp is in the past of the clock, and no blog was updated before it was created. */
  predicate StampsOrdered(s: Store) {
    && (forall k :: k in s.blogs ==> s.blogs[k].createdAt <= s.blogs[k].updatedAt <= s.clock)
    && (forall k :: k in s.images ==> s.images[k].uploadedAt <= s.clock)
  }

  /** The invariant every reachable store satisfies under sequential execution. */
  predicate Valid(s: Store) {
    && KeyedById(s)
    && TitlesUnique(s.blogs)
    && ImagesReferenceBlogs(s)
    && StampsOrdered(s)
  }

  /**
   The images that survive deleting blog `b`: the `cascade="all, delete-orphan"`
   relationship removes every image whose `blog_id` is `b`.
   */
  function Cascade(images: map<Id, Image>, b: Id): (r: map<Id, Image>)
    ensures forall k :: k in r <==> k in images && images[k].blogId != b
    ensures forall k :: k in r ==> r[k] == images[k]
  {
    map k | k in images && images[k].blogId != b :: images[k]
  }
}
