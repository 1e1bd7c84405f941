/**
 * The public list page: which page it asks for, the windowed row of
 * pagination buttons it renders, and its 200-character previews.
 */
module BlogListPage {
  import opened Options
  import opened JsText
  import opened Pagination
  import opened PageButtons

  /** The preview of a post on this page is `Truncate(content, PreviewLength)`. */
  const PreviewLength: nat := 200

  /** `parseInt(searchParams.get('page')) || 1`, the same reading the list
      route applies to its own `page` parameter. */
  function CurrentPage(raw: Option<string>): (page: int)
    ensures page != 0
    ensures raw.None? ==> page == 1
  {
    QueryNumber(raw, DefaultPage)
  }

  /** `String(n)` for an integer. */
  function IntToString(n: int): string
  {
    if n < 0 then "-" + ToDecimal(-n) else ToDecimal(n)
  }

  /** The page the page asks for is the page the route reads back from the
      request, negative pages included. */
  lemma RequestedPageRoundTrip(raw: Option<string>)
    ensures QueryNumber(Some(IntToString(CurrentPage(raw))), DefaultPage) == CurrentPage(raw)
  {
    PageRoundTrip(CurrentPage(raw));
  }

  /** `parseInt(String(p))` is `p`, so a page other than 0 survives the trip. */
  lemma PageRoundTrip(p: int)
    requires p != 0
    ensures QueryNumber(Some(IntToString(p)), DefaultPage) == p
  {
    var s := IntToString(p);
    if p < 0 {
      ParseIntNegativePrefix(-p, []);
      assert "-" + ToDecimal(-p) + [] == s;
    } else {
      ParseIntPrefix(p, []);
      assert ToDecimal(p) + [] == s;
    }
    assert JsText.ParseInt(s) == Some(p);
  }

  function StartPage(current: int): int
  {
    if current - 2 < 1 then 1 else current - 2
  }

  function EndPage(current: int, totalPages: int): int
  {
    if totalPages < current + 2 then totalPages else current + 2
  }

  /** The first-page button, with an ellipsis when pages lie between it and
      the window. */
  function Leading(start: int): seq<PageItem>
  {
    if start > 1 then [PageButton(1, false)] + (if start > 2 then [Ellipsis] else []) else []
  }

  /** The last-page button, with an ellipsis when pages lie between the
      window and it. */
  function Trailing(end: int, totalPages: int): seq<PageItem>
  {
    if end < totalPages then (if end < totalPages - 1 then [Ellipsis] else []) + [PageButton(totalPages, false)]
    else []
  }

  function PrevPart(m: Meta): seq<PageItem>
  {
    if m.hasPrevPage then [PrevButton(m.currentPage - 1)] else []
  }

  function NextPart(m: Meta): seq<PageItem>
  {
    if m.hasNextPage then [NextButton(m.currentPage + 1)] else []
  }

  /** The row for a pagination object with more than one page: Previous,
      the first page, the window of up to five pages around the current
      one, the last page and Next. */
  function Row(m: Meta): seq<PageItem>
  {
    var start := StartPage(m.currentPage);
    var end := EndPage(m.currentPage, m.totalPages);
    PrevPart(m) + Leading(start) + Buttons(start, end, m.currentPage)
      + Trailing(end, m.totalPages) + NextPart(m)
  }

  /** The row `renderPagination` builds: nothing without a pagination
      object or with at most one page. */
  function WindowedItems(pagination: Option<Meta>): (r: Option<seq<PageItem>>)
    ensures r.None? <==> pagination.None? || pagination.value.totalPages <= 1
  {
    if pagination.None? || pagination.value.totalPages <= 1 then None
    else Some(Row(pagination.value))
  }

  /** `renderPagination`: pushes the buttons one by one. */
  method RenderPagination(pagination: Option<Meta>) returns (row: Option<seq<PageItem>>)
    ensures row == WindowedItems(pagination)
  {
    if pagination.None? || pagination.value.totalPages <= 1 {
      return None;
    }
    var m := pagination.value;
    var current, totalPages := m.currentPage, m.totalPages;
    var pages: seq<PageItem> := [];
    if m.hasPrevPage {
      pages := pages + [PrevButton(current - 1)];
    }
    var startPage := if current - 2 < 1 then 1 else current - 2;
    var endPage := if totalPages < current + 2 then totalPages else current + 2;
    if startPage > 1 {
      pages := pages + [PageButton(1, false)];
      if startPage > 2 {
        pages := pages + [Ellipsis];
      }
    }
    assert pages == PrevPart(m) + Leading(startPage);
    pages := PushButtons(pages, startPage, endPage, current);
    ghost var middle := pages;
    if endPage < totalPages {
      if endPage < totalPages - 1 {
        pages := pages + [Ellipsis];
      }
      pages := pages + [PageButton(totalPages, false)];
    }
    assert pages == middle + Trailing(endPage, totalPages);
    if m.hasNextPage {
      pages := pages + [NextButton(current + 1)];
    }
    assert pages == middle + Trailing(endPage, totalPages) + NextPart(m);
    assert startPage == StartPage(current) && endPage == EndPage(current, totalPages);
    assert pages == Row(m);
    row := Some(pages);
  }

  /** The counts of a row are the sums of the counts of its five parts. */
  lemma RowAppend(m: Meta)
    ensures var start := StartPage(m.currentPage);
      var end := EndPage(m.currentPage, m.totalPages);
      var parts := [PrevPart(m), Leading(start), Buttons(start, end, m.currentPage),
                    Trailing(end, m.totalPages), NextPart(m)];
      && Numbers(Row(m)) == Numbers(parts[0]) + Numbers(parts[1]) + Numbers(parts[2])
                            + Numbers(parts[3]) + Numbers(parts[4])
      && ActiveCount(Row(m)) == ActiveCount(parts[0]) + ActiveCount(parts[1]) + ActiveCount(parts[2])
                                + ActiveCount(parts[3]) + ActiveCount(parts[4])
      && EllipsisCount(Row(m)) == EllipsisCount(parts[0]) + EllipsisCount(parts[1])
                                  + EllipsisCount(parts[2]) + EllipsisCount(parts[3])
                                  + EllipsisCount(parts[4])
  {
    var start := StartPage(m.currentPage);
    var end := EndPage(m.currentPage, m.totalPages);
    var a, b, c := PrevPart(m), Leading(start), Buttons(start, end, m.currentPage);
    var d, e := Trailing(end, m.totalPages), NextPart(m);
    CountsAppend(a, b);
    CountsAppend(a + b, c);
    CountsAppend(a + b + c, d);
    CountsAppend(a + b + c + d, e);
  }

  /** The outer parts hold no numbered button and no ellipsis; the leading
      and trailing parts hold only inactive buttons for the first and last
      page, each after or before an ellipsis when pages are skipped. */
  lemma PartsCounts(m: Meta)
    ensures var start := StartPage(m.currentPage);
      var end := EndPage(m.currentPage, m.totalPages);
      && Numbers(PrevPart(m)) == [] && Numbers(NextPart(m)) == []
      && ActiveCount(PrevPart(m)) == 0 && ActiveCount(NextPart(m)) == 0
      && EllipsisCount(PrevPart(m)) == 0 && EllipsisCount(NextPart(m)) == 0
      && Numbers(Leading(start)) == (if start > 1 then [1] else [])
      && ActiveCount(Leading(start)) == 0
      && EllipsisCount(Leading(start)) == (if start > 2 then 1 else 0)
      && Numbers(Trailing(end, m.totalPages)) == (if end < m.totalPages then [m.totalPages] else [])
      && ActiveCount(Trailing(end, m.totalPages)) == 0
      && EllipsisCount(Trailing(end, m.totalPages)) == (if end < m.totalPages - 1 then 1 else 0)
  {
    LeadingCounts(StartPage(m.currentPage));
    TrailingCounts(EndPage(m.currentPage, m.totalPages), m.totalPages);
  }

  lemma LeadingCounts(start: int)
    ensures Numbers(Leading(start)) == (if start > 1 then [1] else [])
    ensures ActiveCount(Leading(start)) == 0
    ensures EllipsisCount(Leading(start)) == (if start > 2 then 1 else 0)
  {
    if start > 1 {
      CountsAppend([PageButton(1, false)], if start > 2 then [Ellipsis] else []);
    }
  }

  lemma TrailingCounts(end: int, totalPages: int)
    ensures Numbers(Trailing(end, totalPages)) == (if end < totalPages then [totalPages] else [])
    ensures ActiveCount(Trailing(end, totalPages)) == 0
    ensures EllipsisCount(Trailing(end, totalPages)) == (if end < totalPages - 1 then 1 else 0)
  {
    if end < totalPages {
      CountsAppend(if end < totalPages - 1 then [Ellipsis] else [], [PageButton(totalPages, false)]);
    }
  }

  /** The numbers the row shows: the first page when the window starts
      after it, the window `max(1, cur-2)..min(total, cur+2)`, and the last
      page when the window ends before it. */
  function ShownNumbers(m: Meta): seq<int>
  {
    var start := StartPage(m.currentPage);
    var end := EndPage(m.currentPage, m.totalPages);
    (if start > 1 then [1] else []) + Ints(start, end)
      + (if end < m.totalPages then [m.totalPages] else [])
  }

  /** The numbered buttons of the row show exactly those numbers, in that
      order. */
  lemma WindowedNumbers(m: Meta)
    requires m.totalPages > 1
    ensures Numbers(WindowedItems(Some(m)).value) == ShownNumbers(m)
  {
    var start := StartPage(m.currentPage);
    var end := EndPage(m.currentPage, m.totalPages);
    var a, b, c := PrevPart(m), Leading(start), Buttons(start, end, m.currentPage);
    var d, e := Trailing(end, m.totalPages), NextPart(m);
    PartsCounts(m);
    ButtonsCounts(start, end, m.currentPage);
    var lead: seq<int> := if start > 1 then [1] else [];
    var trail: seq<int> := if end < m.totalPages then [m.totalPages] else [];
    CountsAppend(a, b);
    assert Numbers(a + b) == lead;
    CountsAppend(a + b, c);
    assert Numbers(a + b + c) == lead + Ints(start, end);
    CountsAppend(a + b + c, d);
    assert Numbers(a + b + c + d) == lead + Ints(start, end) + trail;
    CountsAppend(a + b + c + d, e);
    assert Numbers(a + b + c + d + e) == lead + Ints(start, end) + trail;
    assert Row(m) == a + b + c + d + e;
  }

  /** Those numbers are strictly increasing and each lies within
      `1..totalPages`. */
  lemma ShownNumbersOrdered(m: Meta)
    requires m.totalPages > 1
    ensures Increasing(ShownNumbers(m))
    ensures forall k :: 0 <= k < |ShownNumbers(m)| ==> 1 <= ShownNumbers(m)[k] <= m.totalPages
  {
    var start := StartPage(m.currentPage);
    var end := EndPage(m.currentPage, m.totalPages);
    var lead: seq<int> := if start > 1 then [1] else [];
    var mid := Ints(start, end);
    var ns := ShownNumbers(m);
    var l, n := |lead|, |mid|;
    assert forall k :: 0 <= k < |ns| ==>
      ns[k] == (if k < l then 1 else if k < l + n then start + (k - l) else m.totalPages);
  }

  /** The row holds one active button exactly when the current page is one
      of the pages, an ellipsis before the window exactly when it starts
      after page 2 and one after it exactly when it ends before the
      second-to-last page. */
  lemma WindowedCounts(m: Meta)
    requires m.totalPages > 1
    ensures var start := StartPage(m.currentPage);
      var end := EndPage(m.currentPage, m.totalPages);
      var row := WindowedItems(Some(m)).value;
      && ActiveCount(row) == (if 1 <= m.currentPage <= m.totalPages then 1 else 0)
      && EllipsisCount(row) == (if start > 2 then 1 else 0) + (if end < m.totalPages - 1 then 1 else 0)
  {
    RowAppend(m);
    PartsCounts(m);
    ButtonsCounts(StartPage(m.currentPage), EndPage(m.currentPage, m.totalPages), m.currentPage);
  }

  /** Previous comes first exactly when there is a previous page, and Next
      comes last exactly when there is a next page; each goes one page from
      the current one. */
  lemma WindowedEnds(m: Meta)
    requires m.totalPages > 1
    ensures var row := WindowedItems(Some(m)).value;
      && (m.hasPrevPage <==> row != [] && row[0].PrevButton?)
      && (m.hasPrevPage ==> row[0] == PrevButton(m.currentPage - 1))
      && (m.hasNextPage <==> row != [] && row[|row| - 1].NextButton?)
      && (m.hasNextPage ==> row[|row| - 1] == NextButton(m.currentPage + 1))
  {
    var mid := Middle(m);
    MiddleHasNoEnds(m);
    assert Row(m) == PrevPart(m) + mid + NextPart(m);
  }

  /** The row between Previous and Next. */
  function Middle(m: Meta): seq<PageItem>
  {
    var start := StartPage(m.currentPage);
    var end := EndPage(m.currentPage, m.totalPages);
    Leading(start) + Buttons(start, end, m.currentPage) + Trailing(end, m.totalPages)
  }

  lemma MiddleHasNoEnds(m: Meta)
    ensures forall k :: 0 <= k < |Middle(m)| ==> !Middle(m)[k].PrevButton? && !Middle(m)[k].NextButton?
  {
  }
}
