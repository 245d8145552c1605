/** The two helpers of the `paginate` template tag that compute the page numbers
    shown beside the current page: `get_left` and `get_right`. Both are written
    exactly as the tag writes them: a list comprehension over a `range`, and for
    `get_left` a `sort()` of the fresh list. */
module PageWindow {
  import opened PyList

  /** `[i for i in xs if i > 1]`, the comprehension of `get_left`'s ordinary branch. */
  function LeftCandidates(xs: seq<int>): (r: seq<int>)
    ensures |r| <= |xs|
  {
    if xs == [] then []
    else (if xs[0] > 1 then [xs[0]] else []) + LeftCandidates(xs[1..])
  }

  /** `[i - i for i in xs if i - 1 > 1]`, the comprehension of `get_left`'s last-page branch. */
  function LastPageCandidates(xs: seq<int>): (r: seq<int>)
    ensures |r| <= |xs|
  {
    if xs == [] then []
    else (if xs[0] - 1 > 1 then [xs[0] - xs[0]] else []) + LastPageCandidates(xs[1..])
  }

  /** `[i + 1 for i in xs if i < numPages - 1]`, the comprehension of `get_right`. */
  function RightCandidates(xs: seq<int>, numPages: int): (r: seq<int>)
    ensures |r| <= |xs|
  {
    if xs == [] then []
    else (if xs[0] < numPages - 1 then [xs[0] + 1] else []) + RightCandidates(xs[1..], numPages)
  }

  /** `get_left(current_page, left, num_pages)`: nothing on the first page; on the last
      page one zero per kept number; otherwise the pages from `current_page` down to
      `current_page - left + 1` that are above 1, in ascending order. */
  function GetLeft(currentPage: int, left: int, numPages: int): (r: seq<int>)
    ensures Ascending(r)
    ensures |r| <= if left > 0 then left else 0
  {
    if currentPage == 1 then []
    else if currentPage == numPages then
      var l := LastPageCandidates(RangeDown(currentPage, currentPage - left));
      SortIsSortedPermutation(l);
      assert |Sort(l)| == |multiset(l)|;
      Sort(l)
    else
      var l := LeftCandidates(RangeDown(currentPage, currentPage - left));
      SortIsSortedPermutation(l);
      assert |Sort(l)| == |multiset(l)|;
      Sort(l)
  }

  /** `get_right(current_page, right, num_pages)`: nothing on the last page; otherwise
      `current_page + 1` onwards, at most `right - 1` numbers, all below `num_pages`. */
  function GetRight(currentPage: int, right: int, numPages: int): (r: seq<int>)
    ensures forall p :: p in r ==> currentPage < p < numPages
  {
    if currentPage == numPages then []
    else
      RightCandidatesOfRange(currentPage, currentPage + right - 1, numPages);
      RightCandidates(RangeUp(currentPage, currentPage + right - 1), numPages)
  }

  function Max(a: int, b: int): (m: int) { if a < b then b else a }
  function Min(a: int, b: int): (m: int) { if a < b then a else b }

  lemma {:induction false} LeftCandidatesOfRange(start: int, stop: int)
    ensures LeftCandidates(RangeDown(start, stop)) == RangeDown(start, Max(stop, 1))
    decreases start - stop
  {
    if stop < start {
      assert RangeDown(start, stop)[1..] == RangeDown(start - 1, stop);
      LeftCandidatesOfRange(start - 1, stop);
      if start > 1 {
        assert [start] + RangeDown(start - 1, Max(stop, 1)) == RangeDown(start, Max(stop, 1));
      }
    }
  }

  lemma {:induction false} LastPageCandidatesOfRange(start: int, stop: int)
    ensures LastPageCandidates(RangeDown(start, stop)) == Zeros(Max(0, start - Max(stop, 2)))
    decreases start - stop
  {
    if stop < start {
      assert RangeDown(start, stop)[1..] == RangeDown(start - 1, stop);
      LastPageCandidatesOfRange(start - 1, stop);
      if start > 2 {
        assert [0] + Zeros(Max(0, start - 1 - Max(stop, 2))) == Zeros(Max(0, start - Max(stop, 2)));
      }
    }
  }

  lemma {:induction false} RightCandidatesOfRange(start: int, stop: int, numPages: int)
    ensures RightCandidates(RangeUp(start, stop), numPages) == RangeUp(start + 1, Min(stop, numPages - 1) + 1)
    decreases stop - start
  {
    if start < stop {
      assert RangeUp(start, stop)[1..] == RangeUp(start + 1, stop);
      RightCandidatesOfRange(start + 1, stop, numPages);
      if start < numPages - 1 {
        assert [start + 1] + RangeUp(start + 2, Min(stop, numPages - 1) + 1)
            == RangeUp(start + 1, Min(stop, numPages - 1) + 1);
      }
    }
  }

  /** On the first page there is no left window. */
  lemma GetLeftOnFirstPage(left: int, numPages: int)
    ensures GetLeft(1, left, numPages) == []
  {
  }

  /** Away from the first and the last page, the left window is the run of pages from
      `max(2, current_page - left + 1)` up to and INCLUDING the current page: at most
      `left` numbers, ascending without gaps or duplicates, never page 1. */
  lemma GetLeftBeforeLastPage(currentPage: int, left: int, numPages: int)
    requires currentPage != 1 && currentPage != numPages
    ensures GetLeft(currentPage, left, numPages) == RangeUp(Max(2, currentPage - left + 1), currentPage + 1)
    ensures StrictlyAscending(GetLeft(currentPage, left, numPages))
    ensures 1 !in GetLeft(currentPage, left, numPages)
    ensures currentPage > 1 && left >= 1 ==> currentPage in GetLeft(currentPage, left, numPages)
  {
    var low := Max(currentPage - left, 1);
    LeftCandidatesOfRange(currentPage, currentPage - left);
    SortRangeDown(currentPage, low);
    var r := GetLeft(currentPage, left, numPages);
    assert r == Sort(RangeDown(currentPage, low));
    assert low + 1 == Max(2, currentPage - left + 1);
    assert r == RangeUp(low + 1, currentPage + 1);
    if currentPage > 1 && left >= 1 {
      assert r[|r| - 1] == currentPage;
    }
  }

  /** On the last page (other than page 1) the left window holds only zeros: one for
      each `i` in `current_page - left + 1 .. current_page` with `i > 2`. */
  lemma GetLeftOnLastPage(currentPage: int, left: int)
    requires currentPage != 1
    ensures GetLeft(currentPage, left, currentPage) == Zeros(Max(0, Min(left, currentPage - 2)))
  {
    var count := Max(0, Min(left, currentPage - 2));
    LastPageCandidatesOfRange(currentPage, currentPage - left);
    assert Max(0, currentPage - Max(currentPage - left, 2)) == count;
    SortZeros(count);
    assert GetLeft(currentPage, left, currentPage)
        == Sort(LastPageCandidates(RangeDown(currentPage, currentPage - left)));
  }

  /** On the last page there is no right window. */
  lemma GetRightOnLastPage(right: int, numPages: int)
    ensures GetRight(numPages, right, numPages) == []
  {
  }

  /** Before the last page, the right window is the run `current_page + 1, ...` that
      stops after `right - 1` numbers or before `num_pages`, whichever comes first;
      so it never holds the current page or the last page. */
  lemma GetRightBeforeLastPage(currentPage: int, right: int, numPages: int)
    requires currentPage != numPages
    ensures GetRight(currentPage, right, numPages) == RangeUp(currentPage + 1, Min(currentPage + right, numPages))
    ensures StrictlyAscending(GetRight(currentPage, right, numPages))
    ensures |GetRight(currentPage, right, numPages)| <= Max(0, right - 1)
    ensures forall p :: p in GetRight(currentPage, right, numPages) ==> currentPage < p < numPages
  {
    RightCandidatesOfRange(currentPage, currentPage + right - 1, numPages);
  }
}
