/** The `paginate` template tag: it resolves the requested page, asks `get_left` and
    `get_right` for the page numbers around it, and writes the results into the
    template context, key by key. */
module PaginateTag {
  import opened PyList
  import opened PageWindow

  /** How far the window reaches on each side (the tag's `left = 3`, `right = 3`). */
  const LEFT := 3
  const RIGHT := 3

  /** The `page` query parameter as the paginator sees it: absent or not an integer
      string, or an integer. */
  datatype RawPage = NotInteger | Int(n: int)

  /** How `paginator.page(page)` ends: with the page, or with one of the two
      exceptions the tag catches. */
  datatype PageLookup = Found(page: int) | PageNotAnInteger | EmptyPage

  /** The paginator's validation of a page number against `num_pages` pages. */
  function Lookup(raw: RawPage, numPages: int): (r: PageLookup)
    requires numPages >= 1
    ensures r.Found? <==> raw.Int? && 1 <= raw.n <= numPages
    ensures r.Found? ==> raw == Int(r.page)
    ensures r.PageNotAnInteger? <==> raw.NotInteger?
  {
    match raw
    case NotInteger => PageNotAnInteger
    case Int(n) => if 1 <= n <= numPages then Found(n) else EmptyPage
  }

  /** The page the tag stores under `current_page`. Every request, valid or not,
      resolves to a page that exists: the requested one when it is valid, page 1
      when it is not an integer, the last page when it is out of range. */
  function CurrentPage(raw: RawPage, numPages: int): (c: int)
    requires numPages >= 1
    ensures 1 <= c <= numPages
    ensures raw.Int? && 1 <= raw.n <= numPages ==> c == raw.n
    ensures raw.NotInteger? ==> c == 1
    ensures raw.Int? && !(1 <= raw.n <= numPages) ==> c == numPages
  {
    match Lookup(raw, numPages)
    case Found(page) => page
    case PageNotAnInteger => 1
    case EmptyPage => numPages
  }

  /** The list the tag stores under `pages`; each exception branch asks only for the
      half of the window that can be non-empty. Whatever the request, the list is in
      ascending order and has at most `LEFT + RIGHT - 1` entries. */
  function Pages(raw: RawPage, numPages: int): (r: seq<int>)
    requires numPages >= 1
    ensures Ascending(r)
    ensures |r| <= LEFT + RIGHT - 1
  {
    match Lookup(raw, numPages)
    case Found(page) =>
      LeftThenRightAscending(page, numPages);
      GetLeft(page, LEFT, numPages) + GetRight(page, RIGHT, numPages)
    case PageNotAnInteger =>
      LeftThenRightAscending(1, numPages);
      assert GetLeft(1, LEFT, numPages) + GetRight(1, RIGHT, numPages) == GetRight(1, RIGHT, numPages);
      GetRight(1, RIGHT, numPages)
    case EmptyPage =>
      LeftThenRightAscending(numPages, numPages);
      assert GetLeft(numPages, LEFT, numPages) + GetRight(numPages, RIGHT, numPages) == GetLeft(numPages, LEFT, numPages);
      GetLeft(numPages, LEFT, numPages)
  }

  /** For a page that exists, the left window followed by the right window is in
      ascending order and has at most `LEFT + RIGHT - 1` entries. */
  lemma LeftThenRightAscending(currentPage: int, numPages: int)
    requires 1 <= currentPage <= numPages
    ensures Ascending(GetLeft(currentPage, LEFT, numPages) + GetRight(currentPage, RIGHT, numPages))
    ensures |GetLeft(currentPage, LEFT, numPages) + GetRight(currentPage, RIGHT, numPages)| <= LEFT + RIGHT - 1
  {
    var l, r := GetLeft(currentPage, LEFT, numPages), GetRight(currentPage, RIGHT, numPages);
    if currentPage == numPages {
      assert r == [];
      assert l + r == l;
    } else {
      GetRightBeforeLastPage(currentPage, RIGHT, numPages);
      if currentPage == 1 {
        assert l == [];
        assert l + r == r;
      } else {
        GetLeftBeforeLastPage(currentPage, LEFT, numPages);
        var lo, hi := Max(2, currentPage - LEFT + 1), Min(currentPage + RIGHT, numPages);
        RangeUpSplit(lo, currentPage + 1, hi);
        assert l + r == RangeUp(lo, hi);
      }
    }
  }

  /** Everything the tag publishes about the page numbers. */
  datatype Window = Window(
    currentPage: int,
    pages: seq<int>,
    lastPage: int,
    firstPage: int,
    pagesFirst: int,
    pagesLast: int)

  /** The window the tag publishes for a request: the markers `pages_first` and
      `pages_last` are the first entry of `pages` and one past its last entry, or
      1 and 2 when `pages` is empty. */
  function Paginated(raw: RawPage, numPages: int): (w: Window)
    requires numPages >= 1
    ensures 1 <= w.currentPage <= w.lastPage == numPages
    ensures w.firstPage == 1
    ensures w.pages != [] ==> w.pagesFirst == w.pages[0] && w.pagesLast == w.pages[|w.pages| - 1] + 1
    ensures w.pages == [] ==> w.pagesFirst == 1 && w.pagesLast == 2
  {
    var pages := Pages(raw, numPages);
    if pages != [] then
      Window(CurrentPage(raw, numPages), pages, numPages, 1, pages[0], pages[|pages| - 1] + 1)
    else
      Window(CurrentPage(raw, numPages), pages, numPages, 1, 1, 2)
  }

  /** A value in the template context; `Other` stands for the values this model does
      not interpret (the request, the page of articles, ...). */
  datatype Entry = IntValue(i: int) | ListValue(items: seq<int>) | Other

  const CURRENT_PAGE := "current_page"
  const ARTICLE_LIST := "article_list"
  const PAGES := "pages"
  const LAST_PAGE := "last_page"
  const FIRST_PAGE := "first_page"
  const PAGES_FIRST := "pages_first"
  const PAGES_LAST := "pages_last"

  /** The context keys the tag writes, with the values it writes under them; the page
      of articles under `article_list` is not interpreted here. */
  function Published(w: Window): (m: map<string, Entry>)
    ensures m.Keys == {CURRENT_PAGE, ARTICLE_LIST, PAGES, LAST_PAGE, FIRST_PAGE, PAGES_FIRST, PAGES_LAST}
  {
    map[CURRENT_PAGE := IntValue(w.currentPage),
        ARTICLE_LIST := Other,
        PAGES := ListValue(w.pages),
        LAST_PAGE := IntValue(w.lastPage),
        FIRST_PAGE := IntValue(w.firstPage),
        PAGES_FIRST := IntValue(w.pagesFirst),
        PAGES_LAST := IntValue(w.pagesLast)]
  }

  /** The template context, a dictionary shared with the rest of the page rendering. */
  class Context {
    var entries: map<string, Entry>
  }

  /** `paginate(context, object_list, page_count)`: overwrites the seven keys of
      `Published` in the shared context and leaves every other key as it was. */
  method Paginate(context: Context, raw: RawPage, numPages: int)
    requires numPages >= 1
    modifies context
    ensures context.entries == old(context.entries) + Published(Paginated(raw, numPages))
  {
    ghost var before := context.entries;
    var current: int;
    var pages: seq<int>;
    match Lookup(raw, numPages) {
      case Found(page) =>
        current := page;
        context.entries := context.entries[CURRENT_PAGE := IntValue(current)];
        pages := GetLeft(current, LEFT, numPages) + GetRight(current, RIGHT, numPages);
      case PageNotAnInteger =>
        current := 1;
        context.entries := context.entries[CURRENT_PAGE := IntValue(current)];
        pages := GetRight(current, RIGHT, numPages);
      case EmptyPage =>
        current := numPages;
        context.entries := context.entries[CURRENT_PAGE := IntValue(current)];
        pages := GetLeft(current, LEFT, numPages);
    }
    context.entries := context.entries[ARTICLE_LIST := Other];
    context.entries := context.entries[PAGES := ListValue(pages)];
    context.entries := context.entries[LAST_PAGE := IntValue(numPages)];
    context.entries := context.entries[FIRST_PAGE := IntValue(1)];
    var pagesFirst, pagesLast;
    if |pages| > 0 {
      pagesFirst := pages[0];
      context.entries := context.entries[PAGES_FIRST := IntValue(pagesFirst)];
      pagesLast := pages[|pages| - 1] + 1;
      context.entries := context.entries[PAGES_LAST := IntValue(pagesLast)];
    } else {
      pagesFirst := 1;
      context.entries := context.entries[PAGES_FIRST := IntValue(pagesFirst)];
      pagesLast := 2;
      context.entries := context.entries[PAGES_LAST := IntValue(pagesLast)];
    }
    ghost var w := Window(current, pages, numPages, 1, pagesFirst, pagesLast);
    assert w == Paginated(raw, numPages);
    PublishedByUpdates(before, w);
  }

  /** Writing the seven keys one at a time amounts to merging `Published(w)` in. */
  lemma PublishedByUpdates(m: map<string, Entry>, w: Window)
    ensures m[CURRENT_PAGE := IntValue(w.currentPage)][ARTICLE_LIST := Other][PAGES := ListValue(w.pages)]
             [LAST_PAGE := IntValue(w.lastPage)][FIRST_PAGE := IntValue(w.firstPage)]
             [PAGES_FIRST := IntValue(w.pagesFirst)][PAGES_LAST := IntValue(w.pagesLast)]
         == m + Published(w)
  {
  }

  /** The exception branches compute the same window a valid request for the resolved
      page would: `pages` depends only on `current_page`. */
  lemma PagesFollowCurrentPage(raw: RawPage, numPages: int)
    requires numPages >= 1
    ensures Pages(raw, numPages)
         == GetLeft(CurrentPage(raw, numPages), LEFT, numPages) + GetRight(CurrentPage(raw, numPages), RIGHT, numPages)
  {
    GetLeftOnFirstPage(LEFT, numPages);
    GetRightOnLastPage(RIGHT, numPages);
  }

  /** Strictly between the first and the last page, `pages` is the run from
      `max(2, current_page - 2)` to `min(current_page + 2, num_pages - 1)`: strictly
      increasing, holding the current page, and never page 1 or the last page. */
  lemma PagesBetweenFirstAndLast(raw: RawPage, numPages: int)
    requires numPages >= 1
    requires 1 < CurrentPage(raw, numPages) < numPages
    ensures Pages(raw, numPages)
         == RangeUp(Max(2, CurrentPage(raw, numPages) - LEFT + 1), Min(CurrentPage(raw, numPages) + RIGHT, numPages))
    ensures StrictlyAscending(Pages(raw, numPages))
    ensures CurrentPage(raw, numPages) in Pages(raw, numPages)
    ensures forall p :: p in Pages(raw, numPages) ==> 2 <= p <= numPages - 1
  {
    var c := CurrentPage(raw, numPages);
    PagesFollowCurrentPage(raw, numPages);
    GetLeftBeforeLastPage(c, LEFT, numPages);
    GetRightBeforeLastPage(c, RIGHT, numPages);
    var lo, hi := Max(2, c - LEFT + 1), Min(c + RIGHT, numPages);
    RangeUpSplit(lo, c + 1, hi);
    assert Pages(raw, numPages) == RangeUp(lo, c + 1) + RangeUp(c + 1, hi);
  }

  lemma RangeUpSplit(lo: int, mid: int, hi: int)
    requires lo <= mid <= hi
    ensures RangeUp(lo, mid) + RangeUp(mid, hi) == RangeUp(lo, hi)
  {
    assert forall k :: 0 <= k < hi - lo ==> (RangeUp(lo, mid) + RangeUp(mid, hi))[k] == lo + k;
  }

  /** With a single page every request shows no window, and the markers take their
      fallback values. */
  lemma SinglePageHasNoWindow(raw: RawPage)
    ensures Paginated(raw, 1).pages == []
    ensures Paginated(raw, 1).pagesFirst == 1 && Paginated(raw, 1).pagesLast == 2
  {
    PagesFollowCurrentPage(raw, 1);
  }

  /** Before the last page the markers bracket the window: either `pages` is empty and
      the markers are 1 and 2, or `pages` is exactly the pages from `pages_first` up to
      `pages_last - 1`, with `first_page < pages_first` and `pages_last <= last_page`,
      so the template can tell from them where a gap needs an ellipsis. */
  lemma MarkersBracketWindow(raw: RawPage, numPages: int)
    requires numPages >= 1
    requires CurrentPage(raw, numPages) < numPages
    ensures var w := Paginated(raw, numPages);
      (w.pages == [] && w.pagesFirst == 1 && w.pagesLast == 2) ||
      (w.pages == RangeUp(w.pagesFirst, w.pagesLast) && w.firstPage < w.pagesFirst && w.pagesLast <= w.lastPage)
  {
    var c := CurrentPage(raw, numPages);
    var w := Paginated(raw, numPages);
    var pages := Pages(raw, numPages);
    var lo, hi := Max(2, c - LEFT + 1), Min(c + RIGHT, numPages);
    PagesRunBeforeLastPage(raw, numPages);
    assert w.pages == pages == RangeUp(lo, hi);
    if pages != [] {
      assert pages[0] == lo && pages[|pages| - 1] == hi - 1;
    }
  }

  /** Before the last page, page 1 included, `pages` is the run
      `max(2, c - 2) .. min(c + 3, n) - 1`. */
  lemma PagesRunBeforeLastPage(raw: RawPage, numPages: int)
    requires numPages >= 1
    requires CurrentPage(raw, numPages) < numPages
    ensures Pages(raw, numPages)
         == RangeUp(Max(2, CurrentPage(raw, numPages) - LEFT + 1), Min(CurrentPage(raw, numPages) + RIGHT, numPages))
  {
    if CurrentPage(raw, numPages) == 1 {
      PagesFollowCurrentPage(raw, numPages);
      GetRightBeforeLastPage(1, RIGHT, numPages);
      assert Pages(raw, numPages) == GetRight(1, RIGHT, numPages);
    } else {
      PagesBetweenFirstAndLast(raw, numPages);
    }
  }

  /** On the last page `pages` is a list of zeros, `min(3, num_pages - 2)` of them when
      there are at least two pages; with three pages or more the markers are then 0
      and 1, which are not page numbers. */
  lemma LastPageWindowIsZeros(raw: RawPage, numPages: int)
    requires numPages >= 2
    requires CurrentPage(raw, numPages) == numPages
    ensures Paginated(raw, numPages).pages == Zeros(Min(LEFT, numPages - 2))
    ensures numPages >= 3 ==> Paginated(raw, numPages).pagesFirst == 0 && Paginated(raw, numPages).pagesLast == 1
  {
    PagesFollowCurrentPage(raw, numPages);
    GetLeftOnLastPage(numPages, LEFT);
    GetRightOnLastPage(RIGHT, numPages);
    assert Pages(raw, numPages) == Zeros(Min(LEFT, numPages - 2)) + [];
  }
}
