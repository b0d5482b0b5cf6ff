/** backend/app/routers/blogs.py: the public list of published posts, one post by id,
    and the creation of a post. */
module BlogsRouter {
  import opened Wrappers
  import opened Schemas
  import opened Listing

  const DefaultSkip: nat := 0
  const DefaultLimit: nat := 10

  /** The `blog_posts` table: its rows in insertion order and the next id it hands out. */
  class BlogTable {
    var rows: seq<BlogPostResponse>
    var nextId: int

    /** Ids are positive, increase along the table and stay below `nextId`; the columns
        with a default are never NULL. */
    ghost predicate Valid()
      reads this
    {
      nextId >= 1 &&
      (forall i :: 0 <= i < |rows| ==> 1 <= rows[i].id < nextId) &&
      (forall i, j :: 0 <= i < j < |rows| ==> rows[i].id < rows[j].id) &&
      (forall i :: 0 <= i < |rows| ==> rows[i].post.author.Some? && rows[i].post.published.Some?)
    }

    constructor ()
      ensures Valid() && rows == []
    {
      rows := [];
      nextId := 1;
    }

    /** `create_blog`: one new row with the payload as stored, a fresh id and both
        timestamps at `now`; the rows already there are untouched. A post is listed
        unless the request explicitly unpublished it. */
    method CreateBlog(post: BlogPost, now: int) returns (r: BlogPostResponse)
      requires Valid()
      modifies this
      ensures Valid()
      ensures r.post == StoredPost(post) && r.createdAt == now && r.updatedAt == now
      ensures IsPublished(r) <==> post.published != Some(false)
      ensures rows == old(rows) + [r]
      ensures forall x :: x in old(rows) ==> x.id != r.id
    {
      r := BlogPostResponse(nextId, StoredPost(post), now, now);
      assert post.published == Some(false) || post.published.GetOr(true);
      rows := rows + [r];
      nextId := nextId + 1;
    }
  }

  /** The row the ORM inserts for a post: an attribute left at None is not sent, so the
      column default is stored in its place, "Your Name" for `author` and true for
      `published`. Every other field is stored as given, NULL included. */
  function StoredPost(post: BlogPost): (s: BlogPost)
    ensures s.author == Some(post.author.GetOr("Your Name"))
    ensures s.published == Some(post.published.GetOr(true))
    ensures s.(author := post.author, published := post.published) == post
  {
    post.(author := Some(post.author.GetOr("Your Name")), published := Some(post.published.GetOr(true)))
  }

  predicate IsPublished(b: BlogPostResponse) {
    b.post.published == Some(true)
  }

  /** `created_at.desc()`. */
  predicate NewerFirst(a: BlogPostResponse, b: BlogPostResponse) {
    a.createdAt >= b.createdAt
  }

  lemma NewerFirstIsTotalPreorder()
    ensures TotalPreorder(NewerFirst)
  {
  }

  /** `get_all_blogs(skip, limit)`: published posts only, newest first, at most `limit`
      of them starting at position `skip`. */
  function GetAllBlogs(rows: seq<BlogPostResponse>, skip: nat, limit: nat): (r: seq<BlogPostResponse>)
    ensures |r| <= limit
    ensures var n := |Filter(rows, IsPublished)|;
      |r| == if skip >= n then 0 else if n - skip < limit then n - skip else limit
    ensures forall x :: x in r ==> x in rows && IsPublished(x)
    ensures SortedBy(r, NewerFirst)
  {
    var ordered := SortBy(Filter(rows, IsPublished), NewerFirst);
    NewerFirstIsTotalPreorder();
    SortBySorted(Filter(rows, IsPublished), NewerFirst);
    WindowOfSorted(ordered, skip, limit, NewerFirst);
    assert forall x :: x in ordered ==> x in multiset(Filter(rows, IsPublished));
    Window(ordered, skip, limit)
  }

  /** The first page holds the newest published posts: every published post it leaves
      out is no newer than every post it shows. */
  lemma GetAllBlogsFirstPage(rows: seq<BlogPostResponse>, limit: nat)
    ensures forall x, y :: (x in Filter(rows, IsPublished) && x !in GetAllBlogs(rows, 0, limit) &&
      y in GetAllBlogs(rows, 0, limit)) ==> NewerFirst(y, x)
  {
    var published := Filter(rows, IsPublished);
    var ordered := SortBy(published, NewerFirst);
    NewerFirstIsTotalPreorder();
    SortBySorted(published, NewerFirst);
    WindowFirstPage(ordered, limit, NewerFirst);
    assert forall x :: x in published ==> x in multiset(ordered);
  }

  /** Consecutive pages of the same size tile the listing: page `skip` followed by
      page `skip + limit` is the page of twice the size. */
  lemma GetAllBlogsPagesTile(rows: seq<BlogPostResponse>, skip: nat, limit: nat)
    ensures GetAllBlogs(rows, skip, limit) + GetAllBlogs(rows, skip + limit, limit) ==
      GetAllBlogs(rows, skip, 2 * limit)
  {
    WindowsTile(SortBy(Filter(rows, IsPublished), NewerFirst), skip, limit);
  }

  /** A page as long as the published posts misses none of them and adds nothing: it is
      a rearrangement of the published rows. */
  lemma GetAllBlogsComplete(rows: seq<BlogPostResponse>, limit: nat)
    requires |Filter(rows, IsPublished)| <= limit
    ensures multiset(GetAllBlogs(rows, 0, limit)) == multiset(Filter(rows, IsPublished))
  {
    var ordered := SortBy(Filter(rows, IsPublished), NewerFirst);
    WindowAll(ordered, limit);
  }

  /** `get_blog(blog_id)`: the post with that id, whether published or not, or a 404. */
  function GetBlog(rows: seq<BlogPostResponse>, blogId: int): (r: Result<BlogPostResponse, HttpError>)
    ensures r.Success? ==> r.value in rows && r.value.id == blogId
    ensures r.Failure? <==> forall x :: x in rows ==> x.id != blogId
    ensures r.Failure? ==> r.error == HttpError(404, "Blog post not found")
  {
    match First(rows, (b: BlogPostResponse) => b.id == blogId)
    case Some(b) => Success(b)
    case None => Failure(HttpError(404, "Blog post not found"))
  }

  /** Every stored post is reachable by its id, drafts included. */
  lemma GetBlogFindsEveryRow(t: BlogTable, x: BlogPostResponse)
    requires t.Valid() && x in t.rows
    ensures GetBlog(t.rows, x.id) == Success(x)
  {
    var p := (b: BlogPostResponse) => b.id == x.id;
    forall y | y in t.rows && p(y) ensures y == x {
      var i :| 0 <= i < |t.rows| && t.rows[i] == x;
      var j :| 0 <= j < |t.rows| && t.rows[j] == y;
      assert i == j;
    }
    FirstUnique(t.rows, p, x);
  }
}
