/**
 * The signed-in user's own list: the local update after a delete, the full
 * row of page buttons, and its 150-character previews.
 */
module MyBlogsPage {
  import opened Options
  import opened Pagination
  import opened PageButtons
  import BlogModel

  /** The preview of a post on this page is `Truncate(content, PreviewLength)`. */
  const PreviewLength: nat := 150

  /** `blogs.filter(blog => blog._id !== blogId)` */
  function Without(blogs: seq<BlogModel.Post>, id: BlogModel.PostId): (kept: seq<BlogModel.Post>)
    ensures |kept| <= |blogs|
    ensures forall p :: p in kept ==> p in blogs && p.id != id
  {
    if blogs == [] then []
    else (if blogs[0].id == id then [] else [blogs[0]]) + Without(blogs[1..], id)
  }

  /** Filtering a list is filtering its two halves. */
  lemma {:induction false} WithoutAppend(a: seq<BlogModel.Post>, b: seq<BlogModel.Post>, id: BlogModel.PostId)
    ensures Without(a + b, id) == Without(a, id) + Without(b, id)
  {
    if a == [] {
      assert a + b == b;
    } else {
      var h: seq<BlogModel.Post> := if a[0].id == id then [] else [a[0]];
      var x, y := Without(a[1..], id), Without(b, id);
      WithoutAppend(a[1..], b, id);
      TailOfAppend(a, b);
      assert (a + b)[0] == a[0];
      assert Without(a + b, id) == h + (x + y);
      AppendAssoc(h, x, y);
    }
  }

  lemma TailOfAppend<T>(a: seq<T>, b: seq<T>)
    requires a != []
    ensures (a + b)[1..] == a[1..] + b
  {
  }

  lemma AppendAssoc<T>(a: seq<T>, b: seq<T>, c: seq<T>)
    ensures a + (b + c) == (a + b) + c
  {
  }

  /** Every other post stays, and a list without the id is left as it is. */
  lemma WithoutKeepsOthers(blogs: seq<BlogModel.Post>, id: BlogModel.PostId)
    ensures forall p :: p in blogs && p.id != id ==> p in Without(blogs, id)
    ensures (forall p :: p in blogs ==> p.id != id) ==> Without(blogs, id) == blogs
  {
    WithoutKeepsEach(blogs, id);
    if forall p :: p in blogs ==> p.id != id {
      WithoutNoMatch(blogs, id);
    }
  }

  lemma {:induction false} WithoutKeepsEach(blogs: seq<BlogModel.Post>, id: BlogModel.PostId)
    ensures forall p :: p in blogs && p.id != id ==> p in Without(blogs, id)
  {
    if blogs != [] {
      var rest := blogs[1..];
      WithoutKeepsEach(rest, id);
      assert Without(blogs, id) == (if blogs[0].id == id then [] else [blogs[0]]) + Without(rest, id);
      forall p | p in blogs && p.id != id ensures p in Without(blogs, id) {
        var i :| 0 <= i < |blogs| && blogs[i] == p;
        if i > 0 { assert rest[i - 1] == p; }
      }
    }
  }

  lemma {:induction false} WithoutNoMatch(blogs: seq<BlogModel.Post>, id: BlogModel.PostId)
    requires forall i :: 0 <= i < |blogs| ==> blogs[i].id != id
    ensures Without(blogs, id) == blogs
  {
    if blogs != [] {
      var rest := blogs[1..];
      assert forall i :: 0 <= i < |rest| ==> rest[i] == blogs[i + 1];
      WithoutNoMatch(rest, id);
      assert blogs == [blogs[0]] + rest;
    }
  }

  /** With distinct ids, a list holding the id loses exactly one post. */
  lemma {:induction false} WithoutRemovesOne(blogs: seq<BlogModel.Post>, id: BlogModel.PostId)
    requires forall i, j :: 0 <= i < j < |blogs| ==> blogs[i].id != blogs[j].id
    requires exists p :: p in blogs && p.id == id
    ensures |Without(blogs, id)| == |blogs| - 1
  {
    if blogs[0].id == id {
      WithoutKeepsOthers(blogs[1..], id);
      assert forall p :: p in blogs[1..] ==> p.id != id by {
        forall p | p in blogs[1..] ensures p.id != id {
          var j :| 0 <= j < |blogs[1..]| && blogs[1..][j] == p;
          assert blogs[j + 1] == p;
        }
      }
    } else {
      var p :| p in blogs && p.id == id;
      assert p in blogs[1..];
      WithoutRemovesOne(blogs[1..], id);
    }
  }

  class MyBlogs {
    var blogs: seq<BlogModel.Post>
    /** The pagination object of the last response; `None` before one
        arrives. */
    var pagination: Option<Meta>

    constructor()
      ensures blogs == [] && pagination == None
    {
      blogs := [];
      pagination := None;
    }

    /** `handleDelete` after the confirmation and the delete request: when
        the user declines or the request fails nothing changes; otherwise
        the post leaves the list and `totalBlogs` drops by one, the rest of
        the pagination object staying as it was. */
    method HandleDelete(blogId: BlogModel.PostId, confirmed: bool, deleted: bool)
      modifies this
      ensures !confirmed || !deleted ==> blogs == old(blogs) && pagination == old(pagination)
      ensures confirmed && deleted ==>
        blogs == Without(old(blogs), blogId)
        && (old(pagination).None? ==> pagination.None?)
        && (old(pagination).Some? ==>
              pagination == Some(old(pagination).value.(totalBlogs := old(pagination).value.totalBlogs - 1)))
    {
      if !confirmed || !deleted {
        return;
      }
      blogs := Without(blogs, blogId);
      if pagination.Some? {
        var prev := pagination.value;
        pagination := Some(prev.(totalBlogs := prev.totalBlogs - 1));
      }
    }
  }

  /** The row `renderPagination` builds: nothing without a pagination
      object or with at most one page; otherwise Previous, every page from
      1 to `totalPages`, and Next. */
  function FullItems(pagination: Option<Meta>): (r: Option<seq<PageItem>>)
    ensures r.None? <==> pagination.None? || pagination.value.totalPages <= 1
  {
    if pagination.None? || pagination.value.totalPages <= 1 then None
    else
      var m := pagination.value;
      Some((if m.hasPrevPage then [PrevButton(m.currentPage - 1)] else [])
           + Buttons(1, m.totalPages, m.currentPage)
           + (if m.hasNextPage then [NextButton(m.currentPage + 1)] else []))
  }

  /** `renderPagination`: Previous, the `for` loop over every page, Next. */
  method RenderPagination(pagination: Option<Meta>) returns (row: Option<seq<PageItem>>)
    ensures row == FullItems(pagination)
  {
    if pagination.None? || pagination.value.totalPages <= 1 {
      return None;
    }
    var m := pagination.value;
    var pages: seq<PageItem> := [];
    if m.hasPrevPage {
      pages := pages + [PrevButton(m.currentPage - 1)];
    }
    ghost var prev := pages;
    assert prev == if m.hasPrevPage then [PrevButton(m.currentPage - 1)] else [];
    pages := PushButtons(pages, 1, m.totalPages, m.currentPage);
    ghost var numbered := pages;
    if m.hasNextPage {
      pages := pages + [NextButton(m.currentPage + 1)];
    }
    assert pages == numbered + (if m.hasNextPage then [NextButton(m.currentPage + 1)] else []);
    row := Some(pages);
  }

  /** The row numbers every page from 1 to `totalPages` in order, with no
      ellipsis, and marks one button active exactly when the current page
      is one of them. */
  lemma FullRow(m: Meta)
    requires m.totalPages > 1
    ensures var row := FullItems(Some(m)).value;
      && Numbers(row) == Ints(1, m.totalPages)
      && ActiveCount(row) == (if 1 <= m.currentPage <= m.totalPages then 1 else 0)
      && EllipsisCount(row) == 0
  {
    var prev: seq<PageItem> := if m.hasPrevPage then [PrevButton(m.currentPage - 1)] else [];
    var next: seq<PageItem> := if m.hasNextPage then [NextButton(m.currentPage + 1)] else [];
    var mid := Buttons(1, m.totalPages, m.currentPage);
    assert FullItems(Some(m)).value == prev + mid + next;
    ButtonsCounts(1, m.totalPages, m.currentPage);
    assert Numbers(prev) == [] && ActiveCount(prev) == 0 && EllipsisCount(prev) == 0;
    assert Numbers(next) == [] && ActiveCount(next) == 0 && EllipsisCount(next) == 0;
    NumbersAppend(prev, mid);
    NumbersAppend(prev + mid, next);
    assert Numbers(prev + mid + next) == [] + Ints(1, m.totalPages) + [];
    assert [] + Ints(1, m.totalPages) + [] == Ints(1, m.totalPages);
    ActiveAppend(prev, mid);
    ActiveAppend(prev + mid, next);
    EllipsisAppend(prev, mid);
    EllipsisAppend(prev + mid, next);
  }
}
