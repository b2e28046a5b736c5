/** The pagination rule shared by the environment and user listings: a 1-based page number
    and a page size give an SQL OFFSET/LIMIT window over the ordered rows, the total row
    count, and relative links to the next and previous pages. */
module Pagination {
  import opened Http

  /** A relative URL `<path>?page=<page>&page_size=<pageSize>`, kept as its three parts. */
  datatype PageLink = PageLink(path: string, page: int, pageSize: int)

  /** The paginated envelope `{count, next, previous, results}`. */
  datatype Page<T> = Page(count: nat, next: Option<PageLink>, previous: Option<PageLink>, results: seq<T>)

  /** Rows skipped before the requested page. */
  function Offset(page: int, pageSize: int): (r: int)
    ensures page >= 1 && pageSize >= 0 ==> r >= 0
  {
    (page - 1) * pageSize
  }

  /** The rows `OFFSET offset LIMIT limit` selects. A negative offset counts as zero and a
      negative limit as no limit, which is SQLite's documented reading of those clauses. */
  function Window<T>(rows: seq<T>, offset: int, limit: int): (w: seq<T>)
    ensures 0 <= limit ==> |w| <= limit
    ensures 0 <= offset ==> |w| == if |rows| <= offset then 0
                                   else if limit < 0 || |rows| - offset < limit then |rows| - offset
                                   else limit
    ensures 0 <= offset ==> forall i :: 0 <= i < |w| ==> offset + i < |rows| && w[i] == rows[offset + i]
    ensures offset < 0 ==> |w| == if limit < 0 || |rows| < limit then |rows| else limit
    ensures offset < 0 ==> forall i :: 0 <= i < |w| ==> w[i] == rows[i]
  {
    var start := if offset < 0 then 0 else if offset > |rows| then |rows| else offset;
    var stop := if limit < 0 || |rows| - start < limit then |rows| else start + limit;
    rows[start..stop]
  }

  function NextLink(path: string, page: int, pageSize: int, total: int): Option<PageLink>
  {
    if page * pageSize < total then Some(PageLink(path, page + 1, pageSize)) else None
  }

  function PreviousLink(path: string, page: int, pageSize: int): Option<PageLink>
  {
    if page > 1 then Some(PageLink(path, page - 1, pageSize)) else None
  }

  /** One page of `rows`, which are already in the order the query returns them. */
  function Paginate<T>(path: string, rows: seq<T>, page: int, pageSize: int): (r: Page<T>)
    ensures r.count == |rows|
    ensures r.results == Window(rows, Offset(page, pageSize), pageSize)
    ensures r.next.Some? <==> page * pageSize < |rows|
    ensures r.next.Some? ==> r.next.value == PageLink(path, page + 1, pageSize)
    ensures r.previous.Some? <==> page > 1
    ensures r.previous.Some? ==> r.previous.value == PageLink(path, page - 1, pageSize)
  {
    Page(|rows|, NextLink(path, page, pageSize, |rows|), PreviousLink(path, page, pageSize),
         Window(rows, Offset(page, pageSize), pageSize))
  }

  /** A `next` link is offered exactly when the page it names holds at least one row. */
  lemma NextLinkIffNextPageHasRows<T>(path: string, rows: seq<T>, page: int, pageSize: int)
    requires page >= 1 && pageSize >= 1
    ensures Paginate(path, rows, page, pageSize).next.Some?
            <==> Paginate(path, rows, page + 1, pageSize).results != []
  {
    assert Offset(page + 1, pageSize) == page * pageSize;
  }

  /** The next page starts right after this one: at `page * pageSize`. */
  lemma OffsetOfNextPage(page: int, pageSize: int)
    ensures Offset(page + 1, pageSize) == Offset(page, pageSize) + pageSize == page * pageSize
  {
  }

  lemma MulMonotone(a: int, b: int, c: int)
    requires 0 <= a <= b && 0 <= c
    ensures a * c <= b * c
  {
  }

  /** When a page holds rows, every earlier page is full. */
  lemma EarlierPagesAreFull<T>(path: string, rows: seq<T>, earlier: int, page: int, pageSize: int)
    requires 1 <= earlier < page && pageSize >= 1
    requires Paginate(path, rows, page, pageSize).results != []
    ensures |Paginate(path, rows, earlier, pageSize).results| == pageSize
  {
    MulMonotone(earlier, page - 1, pageSize);
    assert Offset(earlier, pageSize) + pageSize == earlier * pageSize;
    assert Offset(page, pageSize) < |rows|;
  }

  /** The rows a client collects by fetching `page` and then following each `next` link
      until a page offers none. */
  function FollowNext<T>(path: string, rows: seq<T>, page: int, pageSize: int): seq<T>
    requires page >= 1 && pageSize >= 1
    decreases |rows| - Offset(page, pageSize)
  {
    var here := Paginate(path, rows, page, pageSize);
    if here.next.Some? then
      assert here.next.value.page == page + 1 && here.next.value.pageSize == pageSize;
      OffsetOfNextPage(page, pageSize);
      here.results + FollowNext(path, rows, here.next.value.page, here.next.value.pageSize)
    else
      here.results
  }

  /** A window of at least one row either is full or runs to the end of the rows. */
  lemma WindowFrom<T>(rows: seq<T>, offset: int, limit: int)
    requires 0 <= offset <= |rows| && limit >= 1
    ensures offset + limit < |rows| ==> Window(rows, offset, limit) == rows[offset..offset + limit]
    ensures offset + limit >= |rows| ==> Window(rows, offset, limit) == rows[offset..]
  {
  }

  /** One step of `FollowNext`: this page's window, then the walk from the next page if
      this one links to it. */
  lemma FollowNextStep<T>(path: string, rows: seq<T>, page: int, pageSize: int)
    requires page >= 1 && pageSize >= 1
    ensures Offset(page, pageSize) + pageSize < |rows| ==>
              FollowNext(path, rows, page, pageSize)
              == Window(rows, Offset(page, pageSize), pageSize) + FollowNext(path, rows, page + 1, pageSize)
    ensures Offset(page, pageSize) + pageSize >= |rows| ==>
              FollowNext(path, rows, page, pageSize) == Window(rows, Offset(page, pageSize), pageSize)
    ensures 0 <= Offset(page, pageSize) && Offset(page + 1, pageSize) == Offset(page, pageSize) + pageSize
  {
    OffsetOfNextPage(page, pageSize);
    MulMonotone(0, page - 1, pageSize);
  }

  lemma {:induction false} FollowNextCollectsTheRest<T>(path: string, rows: seq<T>, page: int, pageSize: int)
    requires page >= 1 && pageSize >= 1 && Offset(page, pageSize) <= |rows|
    ensures FollowNext(path, rows, page, pageSize) == rows[Offset(page, pageSize)..]
    decreases |rows| - Offset(page, pageSize)
  {
    var off := Offset(page, pageSize);
    FollowNextStep(path, rows, page, pageSize);
    WindowFrom(rows, off, pageSize);
    if off + pageSize < |rows| {
      FollowNextCollectsTheRest(path, rows, page + 1, pageSize);
      assert rows[off..] == rows[off..off + pageSize] + rows[off + pageSize..];
    }
  }

  /** Following `next` links from page 1 returns every row exactly once, in order. */
  lemma {:induction false} FollowNextFromFirstPageVisitsEveryRow<T>(path: string, rows: seq<T>, pageSize: int)
    requires pageSize >= 1
    ensures FollowNext(path, rows, 1, pageSize) == rows
  {
    FollowNextCollectsTheRest(path, rows, 1, pageSize);
  }

  /** 25 rows, 10 per page: page 1 is full, links to page 2 and has no previous page;
      page 3 holds the last 5 rows and has no next page. */
  lemma TwentyFiveRowsTenPerPage<T>(path: string, rows: seq<T>)
    requires |rows| == 25
    ensures var p1 := Paginate(path, rows, 1, 10);
            |p1.results| == 10 && p1.next == Some(PageLink(path, 2, 10)) && p1.previous == None
    ensures var p3 := Paginate(path, rows, 3, 10);
            |p3.results| == 5 && p3.results == rows[20..] && p3.next == None
            && p3.previous == Some(PageLink(path, 2, 10))
  {
    var p3 := Paginate(path, rows, 3, 10);
    assert p3.results == rows[20..];
  }
}
