/**
 The order in which listings come back: all blogs newest first
 (`order_by(Blog.created_at.desc())`), and the images of one blog. The query
 results are built here deterministically from the maps of the store, by
 walking the key range of each table.
 */
module Ordering {
  import opened Models

  /** No blog is listed before a strictly newer one. */
  predicate NewestFirst(bs: seq<Blog>) {
    forall i, j :: 0 <= i < j < |bs| ==> bs[i].createdAt >= bs[j].createdAt
  }

  predicate DistinctBlogIds(bs: seq<Blog>) {
    forall i, j :: 0 <= i < j < |bs| ==> bs[i].id != bs[j].id
  }

  /** Every blog in `bs` is stored in `blogs` under its own id, which lies in `[0, n)`. */
  predicate StoredBelow(bs: seq<Blog>, blogs: map<Id, Blog>, n: int) {
    forall i :: 0 <= i < |bs| ==> 0 <= bs[i].id < n && bs[i].id in blogs && blogs[bs[i].id] == bs[i]
  }

  /** `bs` lists every blog of `blogs` exactly once and nothing else. */
  predicate ListsBlogsOnce(bs: seq<Blog>, blogs: map<Id, Blog>) {
    && (forall i :: 0 <= i < |bs| ==> bs[i].id in blogs && blogs[bs[i].id] == bs[i])
    && DistinctBlogIds(bs)
    && (forall k :: k in blogs ==> exists i :: 0 <= i < |bs| && bs[i].id == k)
  }

  /** Places `b` in front of the first blog that is not newer than it. */
  function InsertByCreation(b: Blog, bs: seq<Blog>): (r: seq<Blog>)
    ensures |r| == |bs| + 1
    ensures forall x :: x in r <==> x == b || x in bs
  {
    if bs == [] || b.createdAt >= bs[0].createdAt then [b] + bs
    else [bs[0]] + InsertByCreation(b, bs[1..])
  }

  /** Insertion is a permutation of `bs` plus `b`: it adds exactly one `b` and drops nothing, duplicates included. */
  lemma {:induction false} InsertByCreationPermutes(b: Blog, bs: seq<Blog>)
    ensures multiset(InsertByCreation(b, bs)) == multiset(bs) + multiset{b}
  {
    if bs != [] && b.createdAt < bs[0].createdAt {
      InsertByCreationPermutes(b, bs[1..]);
      assert bs == [bs[0]] + bs[1..];
    }
  }

  /** Inserting into a newest-first listing keeps it newest first. */
  lemma {:induction false} InsertKeepsNewestFirst(b: Blog, bs: seq<Blog>)
    requires NewestFirst(bs)
    ensures NewestFirst(InsertByCreation(b, bs))
  {
    if bs != [] && b.createdAt < bs[0].createdAt {
      var rest := InsertByCreation(b, bs[1..]);
      InsertKeepsNewestFirst(b, bs[1..]);
      forall j | 0 <= j < |rest|
        ensures rest[j].createdAt <= bs[0].createdAt
      {
        assert rest[j] in rest;
        if rest[j] != b {
          var m :| 0 <= m < |bs[1..]| && bs[1..][m] == rest[j];
          assert bs[m + 1] == rest[j];
        }
      }
    }
  }

  lemma {:induction false} InsertKeepsIdsDistinct(b: Blog, bs: seq<Blog>)
    requires DistinctBlogIds(bs)
    requires forall i :: 0 <= i < |bs| ==> bs[i].id != b.id
    ensures DistinctBlogIds(InsertByCreation(b, bs))
  {
    if bs == [] || b.createdAt >= bs[0].createdAt {
    } else {
      var rest := InsertByCreation(b, bs[1..]);
      InsertKeepsIdsDistinct(b, bs[1..]);
      forall j | 0 <= j < |rest|
        ensures rest[j].id != bs[0].id
      {
        assert rest[j] in rest;
        if rest[j] != b {
          var m :| 0 <= m < |bs[1..]| && bs[1..][m] == rest[j];
          assert bs[m + 1] == rest[j];
        }
      }
    }
  }

  /** The blogs of `blogs` whose keys lie in `[0, n)`, newest first. */
  function ByCreationDesc(blogs: map<Id, Blog>, n: nat): (r: seq<Blog>)
    ensures NewestFirst(r)
  {
    if n == 0 then []
    else
      var rest := ByCreationDesc(blogs, n - 1);
      if n - 1 in blogs then InsertKeepsNewestFirst(blogs[n - 1], rest); InsertByCreation(blogs[n - 1], rest)
      else rest
  }

  /** Every blog the walk lists sits under its own key, which lies below `n`. */
  lemma {:induction false} ByCreationDescStored(blogs: map<Id, Blog>, n: nat)
    requires forall k :: k in blogs ==> blogs[k].id == k
    ensures StoredBelow(ByCreationDesc(blogs, n), blogs, n)
  {
    if n > 0 {
      var rest := ByCreationDesc(blogs, n - 1);
      ByCreationDescStored(blogs, n - 1);
      if n - 1 in blogs {
        var r := InsertByCreation(blogs[n - 1], rest);
        assert r == ByCreationDesc(blogs, n);
        forall i | 0 <= i < |r|
          ensures 0 <= r[i].id < n && r[i].id in blogs && blogs[r[i].id] == r[i]
        {
          assert r[i] in r;
          if r[i] != blogs[n - 1] {
            var j :| 0 <= j < |rest| && rest[j] == r[i];
          }
        }
      } else {
        assert rest == ByCreationDesc(blogs, n);
      }
    }
  }

  /** The walk never lists an id twice. */
  lemma {:induction false} ByCreationDescDistinct(blogs: map<Id, Blog>, n: nat)
    requires forall k :: k in blogs ==> blogs[k].id == k
    ensures DistinctBlogIds(ByCreationDesc(blogs, n))
  {
    if n > 0 {
      var rest := ByCreationDesc(blogs, n - 1);
      ByCreationDescDistinct(blogs, n - 1);
      if n - 1 in blogs {
        ByCreationDescStored(blogs, n - 1);
        assert blogs[n - 1].id == n - 1;
        InsertKeepsIdsDistinct(blogs[n - 1], rest);
        assert InsertByCreation(blogs[n - 1], rest) == ByCreationDesc(blogs, n);
      } else {
        assert rest == ByCreationDesc(blogs, n);
      }
    }
  }

  /** The walk lists every blog whose key lies below `n`. */
  lemma {:induction false} ByCreationDescCovers(blogs: map<Id, Blog>, n: nat)
    ensures forall k :: k in blogs && 0 <= k < n ==> blogs[k] in ByCreationDesc(blogs, n)
  {
    if n > 0 {
      var rest := ByCreationDesc(blogs, n - 1);
      ByCreationDescCovers(blogs, n - 1);
      if n - 1 in blogs {
        var r := InsertByCreation(blogs[n - 1], rest);
        assert r == ByCreationDesc(blogs, n);
        forall k | k in blogs && 0 <= k < n
          ensures blogs[k] in r
        {
          if k < n - 1 {
            assert blogs[k] in rest;
          }
        }
      } else {
        assert rest == ByCreationDesc(blogs, n);
      }
    }
  }

  /** Walking the key range lists each blog with a key below `n` exactly once. */
  lemma ByCreationDescListsOnce(blogs: map<Id, Blog>, n: nat)
    requires forall k :: k in blogs ==> blogs[k].id == k
    ensures var r := ByCreationDesc(blogs, n);
      && (forall i :: 0 <= i < |r| ==> 0 <= r[i].id < n && r[i].id in blogs && blogs[r[i].id] == r[i])
      && DistinctBlogIds(r)
      && (forall k :: k in blogs && 0 <= k < n ==> blogs[k] in r)
  {
    ByCreationDescStored(blogs, n);
    ByCreationDescDistinct(blogs, n);
    ByCreationDescCovers(blogs, n);
  }

  /** Image ids strictly increase along `imgs`, so no image is listed twice. */
  predicate AscendingImageIds(imgs: seq<Image>) {
    forall i, j :: 0 <= i < j < |imgs| ==> imgs[i].id < imgs[j].id
  }

  /** `imgs` lists every image of blog `b` exactly once and nothing else. */
  predicate ListsImagesOf(imgs: seq<Image>, images: map<Id, Image>, b: Id) {
    && (forall i :: 0 <= i < |imgs| ==> imgs[i].id in images && images[imgs[i].id] == imgs[i] && imgs[i].blogId == b)
    && AscendingImageIds(imgs)
    && (forall k :: k in images && images[k].blogId == b ==> images[k] in imgs)
  }

  /** The images of blog `b` whose keys lie in `[0, n)`, in key order. */
  function ImagesOfBlog(images: map<Id, Image>, b: Id, n: nat): (r: seq<Image>)
    ensures forall i :: 0 <= i < |r| ==> r[i].blogId == b
  {
    if n == 0 then []
    else
      var rest := ImagesOfBlog(images, b, n - 1);
      if n - 1 in images && images[n - 1].blogId == b then rest + [images[n - 1]] else rest
  }

  lemma {:induction false} ImagesOfBlogListsOnce(images: map<Id, Image>, b: Id, n: nat)
    requires forall k :: k in images ==> images[k].id == k
    ensures var r := ImagesOfBlog(images, b, n);
      && (forall i :: 0 <= i < |r| ==> 0 <= r[i].id < n && r[i].id in images && images[r[i].id] == r[i])
      && AscendingImageIds(r)
      && (forall k :: k in images && images[k].blogId == b && 0 <= k < n ==> images[k] in r)
  {
    if n > 0 {
      ImagesOfBlogListsOnce(images, b, n - 1);
    }
  }
}
