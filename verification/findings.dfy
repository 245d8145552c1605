/** The last-page branch of `get_left` keeps the right page numbers and then writes
    `i - i` for each of them, so on the last page the window is a list of zeros.
    This module states that outcome on a concrete request and gives the branch with
    `i - 1` in place of `i - i`: the pages just below the last page, which keeps the
    branch's own filter `i - 1 > 1` and keeps the boundary pages out of `pages`. */
module CorrectedWindow {
  import opened PyList
  import opened PageWindow
  import opened PaginateTag

  /** As written: five pages, a request for page 5 publishes `pages == [0, 0, 0]`, so
      `pages_first` is 0, a page that does not exist. */
  lemma LastOfFivePagesShowsZeros()
    ensures Paginated(Int(5), 5).pages == [0, 0, 0]
    ensures Paginated(Int(5), 5).pagesFirst == 0 && Paginated(Int(5), 5).pagesLast == 1
    ensures Paginated(Int(5), 5).pagesFirst < Paginated(Int(5), 5).firstPage
  {
    LastPageWindowIsZeros(Int(5), 5);
    assert Zeros(3) == [0, 0, 0];
  }

  /** `[i - 1 for i in xs if i - 1 > 1]`, the last-page comprehension with `i - 1`
      where the code has `i - i`. */
  function CorrectedLastPageCandidates(xs: seq<int>): (r: seq<int>)
    ensures |r| <= |xs|
  {
    if xs == [] then []
    else (if xs[0] - 1 > 1 then [xs[0] - 1] else []) + CorrectedLastPageCandidates(xs[1..])
  }

  lemma {:induction false} CorrectedLastPageCandidatesOfRange(start: int, stop: int)
    ensures CorrectedLastPageCandidates(RangeDown(start, stop)) == RangeDown(start - 1, Max(stop - 1, 1))
    decreases start - stop
  {
    if stop < start {
      assert RangeDown(start, stop)[1..] == RangeDown(start - 1, stop);
      CorrectedLastPageCandidatesOfRange(start - 1, stop);
      if start > 2 {
        assert [start - 1] + RangeDown(start - 2, Max(stop - 1, 1)) == RangeDown(start - 1, Max(stop - 1, 1));
      }
    }
  }

  /** `get_left` with line 76 corrected: on the last page (other than page 1) it gives the
      pages from `max(2, c - left)` up to `c - 1`, the ones just below the last page;
      the other branches are unchanged. */
  function GetLeftCorrected(currentPage: int, left: int, numPages: int): (r: seq<int>)
    ensures currentPage != 1 && currentPage == numPages ==> r == RangeUp(Max(2, currentPage - left), currentPage)
    ensures currentPage != 1 && currentPage != numPages ==> r == RangeUp(Max(2, currentPage - left + 1), currentPage + 1)
  {
    if currentPage == 1 then []
    else if currentPage == numPages then
      var low := Max(currentPage - left - 1, 1);
      CorrectedLastPageCandidatesOfRange(currentPage, currentPage - left);
      SortRangeDown(currentPage - 1, low);
      assert low + 1 == Max(2, currentPage - left);
      Sort(CorrectedLastPageCandidates(RangeDown(currentPage, currentPage - left)))
    else
      GetLeftBeforeLastPage(currentPage, left, numPages);
      Sort(LeftCandidates(RangeDown(currentPage, currentPage - left)))
  }

  /** The `pages` list `paginate` would publish with the corrected left window: every
      entry is then a page strictly between the first and the last page. */
  function PagesCorrected(raw: RawPage, numPages: int): (r: seq<int>)
    requires numPages >= 1
    ensures forall p :: p in r ==> 2 <= p <= numPages - 1
  {
    match Lookup(raw, numPages)
    case Found(page) => GetLeftCorrected(page, LEFT, numPages) + GetRight(page, RIGHT, numPages)
    case PageNotAnInteger => GetRight(1, RIGHT, numPages)
    case EmptyPage => GetLeftCorrected(numPages, LEFT, numPages)
  }

  /** Whatever the request, the corrected `pages` is the corrected left window followed by
      the right window of the page the request resolves to. */
  lemma CorrectedPagesFollowCurrentPage(raw: RawPage, numPages: int)
    requires numPages >= 1
    ensures var c := CurrentPage(raw, numPages);
      PagesCorrected(raw, numPages) == GetLeftCorrected(c, LEFT, numPages) + GetRight(c, RIGHT, numPages)
  {
    match Lookup(raw, numPages)
    case Found(page) =>
    case PageNotAnInteger =>
      assert GetLeftCorrected(1, LEFT, numPages) == [];
    case EmptyPage =>
      assert GetRight(numPages, RIGHT, numPages) == [];
  }

  /** With the correction, the window of any existing page is a run of consecutive pages
      inside `[2, num_pages - 1]`. */
  lemma CorrectedWindowRun(c: int, numPages: int) returns (lo: int, hi: int)
    requires 1 <= c <= numPages
    ensures 2 <= lo && hi <= numPages
    ensures GetLeftCorrected(c, LEFT, numPages) + GetRight(c, RIGHT, numPages) == RangeUp(lo, hi)
  {
    var left, right := GetLeftCorrected(c, LEFT, numPages), GetRight(c, RIGHT, numPages);
    if c == numPages {
      lo, hi := Max(2, numPages - LEFT), numPages;
      assert right == [];
      assert left + right == left;
    } else {
      GetRightBeforeLastPage(c, RIGHT, numPages);
      if c == 1 {
        lo, hi := 2, Min(1 + RIGHT, numPages);
        assert left + right == right;
      } else {
        lo, hi := Max(2, c - LEFT + 1), Min(c + RIGHT, numPages);
        RangeUpSplit(lo, c + 1, hi);
      }
    }
  }

  /** With the correction every request, the last page included, publishes a window of
      real page numbers: strictly increasing, strictly between the first and the last
      page, holding the current page when that is neither of them. The markers of
      lines 55-57 then bracket the window on every page: `pages` is exactly
      `pages_first .. pages_last - 1`, with `first_page < pages_first` and
      `pages_last <= last_page`. */
  lemma CorrectedPagesArePageNumbers(raw: RawPage, numPages: int)
    requires numPages >= 1
    ensures StrictlyAscending(PagesCorrected(raw, numPages))
    ensures forall p :: p in PagesCorrected(raw, numPages) ==> 2 <= p <= numPages - 1
    ensures 1 < CurrentPage(raw, numPages) < numPages ==> CurrentPage(raw, numPages) in PagesCorrected(raw, numPages)
    ensures var pages := PagesCorrected(raw, numPages);
      pages == [] ||
      (pages == RangeUp(pages[0], pages[|pages| - 1] + 1) && 1 < pages[0] && pages[|pages| - 1] + 1 <= numPages)
  {
    var c := CurrentPage(raw, numPages);
    CorrectedPagesFollowCurrentPage(raw, numPages);
    var lo, hi := CorrectedWindowRun(c, numPages);
    RunInsidePages(lo, hi, numPages);
    if 1 < c < numPages {
      PagesBetweenFirstAndLast(raw, numPages);
      assert raw == Int(c);
      assert GetLeftCorrected(c, LEFT, numPages) == GetLeft(c, LEFT, numPages);
    }
  }

  /** A run `lo .. hi - 1` with `2 <= lo` and `hi <= n` is strictly increasing, lies in
      `[2, n - 1]`, and is recovered from its first and last entries. */
  lemma RunInsidePages(lo: int, hi: int, numPages: int)
    requires 2 <= lo && hi <= numPages
    ensures StrictlyAscending(RangeUp(lo, hi))
    ensures forall p :: p in RangeUp(lo, hi) ==> 2 <= p <= numPages - 1
    ensures var run := RangeUp(lo, hi);
      run == [] || (run == RangeUp(run[0], run[|run| - 1] + 1) && 1 < run[0] && run[|run| - 1] + 1 <= numPages)
  {
    var run := RangeUp(lo, hi);
    if run != [] {
      assert run[0] == lo && run[|run| - 1] + 1 == hi;
    }
  }
}
