# Pagination window of the blog's `paginate` template tag

The blog lists its articles page by page. Below the list, the `paginate` template
tag renders links like `1 … 4 5 [6] 7 8 … 20`. To do that, the tag:

- resolves the `page` query parameter to a current page;
- asks two helpers for the page numbers around that page: `get_left` for the numbers up
  to the current page and `get_right` for the numbers after it;
- writes `current_page`, `article_list` (the page of articles), `pages`, `last_page`,
  `first_page`, `pages_first` and `pages_last` into the shared template context.

The template uses the two markers `pages_first` and `pages_last` to decide where an
ellipsis goes.

The project has four modules:

- `PyList` (`pylist.dfy`): the Python list primitives the helpers use.
  - `range(a, b)` and `range(a, b, -1)` are `RangeUp` and `RangeDown`.
  - `list.sort()` on integers is `Sort`, an insertion sort. It is proved to give an
    ascending permutation of its input. For integers every correct sort gives the same
    list, so the choice of algorithm cannot be observed.
- `PageWindow` (`window.dfy`): `get_left` and `get_right` as pure functions. Each one is
  written as the tag writes it: a list comprehension over a `range`, followed by a sort
  for `get_left`. Lemmas give the closed form of each branch.
- `PaginateTag` (`paginate.dfy`): the tag itself.
  - The raw request is `RawPage = NotInteger | Int(n)`.
  - The paginator's validation is `Lookup`. Its three outcomes stand for the `try` body
    and the two `except` branches.
  - The shared context is a class whose `entries` map the method `Paginate` updates key
    by key. `Paginate` is proved to merge exactly `Published(Paginated(raw, numPages))`
    into the context.
  - Lemmas about `Paginated` state what the tag promises.
- `CorrectedWindow` (`findings.dfy`): the last-page defect described under Findings,
  with the left window corrected to `i - 1` at line 76.

The model follows the code literally, including two behaviours a reader might not
expect:

- The left window includes the current page itself. The docstring at
  paginate_tags.py:69-71 says so, and the range at line 79 starts at `current_page`.
  `GetLeftBeforeLastPage` and `PagesBetweenFirstAndLast` state this.
- On the last page, `get_left` produces zeros. `PaginateTag` keeps that behaviour as
  written, and `GetLeftOnLastPage` and `LastPageWindowIsZeros` state it.
- Where a comment and the code disagree, the model follows the code. The example
  comment at paginate_tags.py:29 gives `pages = [1, 2, 3, 4]` for page 2, but the code
  gives `[2, 3, 4]`. The comment at line 54 also says page 1 is never in `pages`, which
  agrees with the code. The docstring of `get_right` at line 87 says the window reaches
  the largest page, but the filter at line 92 stops below `num_pages`.

## Model

| member | source | states |
|---|---|---|
| `PyList.SortIsSortedPermutation` | blog/templatetags/paginate_tags.py:77-80 | `l.sort()` leaves the list ascending and holding the same elements (a permutation) |
| `PyList.SortRangeDown` | blog/templatetags/paginate_tags.py:79-80 | sorting the descending `range(c, stop, -1)` gives the same numbers in ascending order |
| `PyList.SortZeros` | blog/templatetags/paginate_tags.py:76-77 | sorting a list of zeros leaves it unchanged |
| `PageWindow.GetLeft` | blog/templatetags/paginate_tags.py:67-81 | the left window is ascending and has at most `left` entries, for any arguments |
| `PageWindow.GetRight` | blog/templatetags/paginate_tags.py:84-92 | every entry of the right window is above the current page and below `num_pages` |
| `PageWindow.LeftCandidatesOfRange` | blog/templatetags/paginate_tags.py:79 | `[i for i in range(c, c - left, -1) if i > 1]` is the descending run from `c` down to just above `max(c - left, 1)` |
| `PageWindow.LastPageCandidatesOfRange` | blog/templatetags/paginate_tags.py:76 | `[i - i for i in range(c, c - left, -1) if i - 1 > 1]` is `max(0, c - max(c - left, 2))` zeros |
| `PageWindow.RightCandidatesOfRange` | blog/templatetags/paginate_tags.py:92 | `[i + 1 for i in range(a, b) if i < n - 1]` is the run `a + 1 .. min(b, n - 1)` |
| `PageWindow.GetLeftOnFirstPage` | blog/templatetags/paginate_tags.py:73-74 | on page 1 the left window is empty |
| `PageWindow.GetLeftBeforeLastPage` | blog/templatetags/paginate_tags.py:79-81 | on a page other than the first and the last, the left window is the run `max(2, c - left + 1) .. c`; it is strictly increasing, never holds 1, and holds the current page itself when `c > 1` and `left >= 1` |
| `PageWindow.GetLeftOnLastPage` | blog/templatetags/paginate_tags.py:75-78 | on the last page (other than page 1) the left window is `max(0, min(left, c - 2))` zeros |
| `PageWindow.GetRightOnLastPage` | blog/templatetags/paginate_tags.py:90-91 | on the last page the right window is empty |
| `PageWindow.GetRightBeforeLastPage` | blog/templatetags/paginate_tags.py:92 | before the last page, the right window is the run `c + 1 .. min(c + right, n) - 1`: strictly increasing, at most `right - 1` entries, each strictly between `c` and `n` |
| `PaginateTag.Lookup` | blog/templatetags/paginate_tags.py:24-42 | for `num_pages >= 1`, the request is found exactly when it is an integer in `1..num_pages`; it raises `PageNotAnInteger` exactly when it is not an integer; otherwise it raises `EmptyPage` |
| `PaginateTag.CurrentPage` | blog/templatetags/paginate_tags.py:24-42 | a valid page is kept, a non-integer goes to page 1, an out-of-range integer goes to the last page, so `1 <= current_page <= num_pages` always holds |
| `PaginateTag.Paginated` | blog/templatetags/paginate_tags.py:44-62 | `first_page` is 1 and `last_page` is `num_pages`; `pages_first` is `pages[0]` and `pages_last` is `pages[-1] + 1`, or 1 and 2 when `pages` is empty |
| `PaginateTag.Published` | blog/templatetags/paginate_tags.py:28-62 | the tag writes exactly seven context keys: `current_page`, `article_list` (its value, the page of articles, is left uninterpreted as `Other`), `pages`, `last_page`, `first_page`, `pages_first`, `pages_last` |
| `PaginateTag.Paginate` | blog/templatetags/paginate_tags.py:15-64 | the context afterwards is the old context with those seven keys overwritten (the six page-number keys by the resolved window), and every other key unchanged |
| `PaginateTag.PublishedByUpdates` | blog/templatetags/paginate_tags.py:28-62 | writing the seven keys one at a time, in the tag's order, is the same as merging `Published` into the context |
| `PaginateTag.Pages` | blog/templatetags/paginate_tags.py:29-42 | the `pages` list of the three branches (`get_left + get_right`, `get_right(1)`, `get_left(num_pages)`) is, for every request, in ascending order with at most `LEFT + RIGHT - 1` entries |
| `PaginateTag.LeftThenRightAscending` | blog/templatetags/paginate_tags.py:30-31 | for any existing page, the left window followed by the right window is ascending and has at most `LEFT + RIGHT - 1` entries |
| `PaginateTag.PagesFollowCurrentPage` | blog/templatetags/paginate_tags.py:30-42 | each exception branch computes the same `pages` as a valid request for the page it resolves to: `pages == get_left(c) + get_right(c)` |
| `PaginateTag.PagesBetweenFirstAndLast` | blog/templatetags/paginate_tags.py:30-31 | for `1 < c < num_pages`, `pages` is the run `max(2, c - 2) .. min(c + 3, n) - 1`: strictly increasing with no duplicates, holding `c`, each entry in `[2, num_pages - 1]` |
| `PaginateTag.PagesRunBeforeLastPage` | blog/templatetags/paginate_tags.py:30-36 | on any page before the last, page 1 included, `pages` is the run `max(2, c - 2) .. min(c + 3, n) - 1` |
| `PaginateTag.SinglePageHasNoWindow` | blog/templatetags/paginate_tags.py:30-62 | with one page, every request gives `pages == []`, `pages_first == 1` and `pages_last == 2` |
| `PaginateTag.MarkersBracketWindow` | blog/templatetags/paginate_tags.py:52-62 | before the last page, either `pages` is empty with markers 1 and 2, or `pages` is exactly `pages_first .. pages_last - 1` with `first_page < pages_first` and `pages_last <= last_page` |
| `PaginateTag.LastPageWindowIsZeros` | blog/templatetags/paginate_tags.py:24-42 | on the last page `pages` is `min(3, num_pages - 2)` zeros; with three pages or more the markers are 0 and 1 |
| `CorrectedWindow.LastOfFivePagesShowsZeros` | blog/templatetags/paginate_tags.py:76 | with five pages, a request for page 5 publishes `pages == [0, 0, 0]` and `pages_first == 0`, below `first_page` |
| `CorrectedWindow.CorrectedLastPageCandidatesOfRange` | blog/templatetags/paginate_tags.py:76 | `[i - 1 for i in range(c, c - left, -1) if i - 1 > 1]` is the descending run from `c - 1` down to just above `max(c - left - 1, 1)` |
| `CorrectedWindow.GetLeftCorrected` | blog/templatetags/paginate_tags.py:73-81 | with `i - 1` in place of `i - i` at line 76, the left window on the last page (other than page 1) is the run `max(2, c - left) .. c - 1`, the pages just below the last page; on the other pages it is the run `max(2, c - left + 1) .. c`, as written |
| `CorrectedWindow.PagesCorrected` | blog/templatetags/paginate_tags.py:29-42 | the `pages` assembly of the three branches with the corrected left window; every entry is a page strictly between the first and the last page, `[2, num_pages - 1]` |
| `CorrectedWindow.CorrectedPagesFollowCurrentPage` | blog/templatetags/paginate_tags.py:30-42 | with the corrected left window, each exception branch still computes the corrected window of the page it resolves to |
| `CorrectedWindow.CorrectedWindowRun` | blog/templatetags/paginate_tags.py:30-31 | with the corrected left window, the window of any existing page is a run of consecutive pages `lo .. hi - 1` with `2 <= lo` and `hi <= num_pages` |
| `CorrectedWindow.RunInsidePages` | blog/templatetags/paginate_tags.py:52-57 | such a run is strictly increasing, lies in `[2, num_pages - 1]`, and runs exactly from the first marker `pages[0]` to the last marker `pages[-1] + 1`, with `first_page < pages_first` and `pages_last <= last_page` |
| `CorrectedWindow.CorrectedPagesArePageNumbers` | blog/templatetags/paginate_tags.py:30-57 | with the corrected left window, for every request, the last page included: `pages` is strictly increasing, each entry is in `[2, num_pages - 1]`, it holds the current page when that is neither the first nor the last page, and it is either empty or exactly `pages_first .. pages_last - 1` with `first_page < pages_first` and `pages_last <= last_page` |

## Findings

| source | as written | input that shows it | evidently intended | confidence | as-written member | corrected member |
|---|---|---|---|---|---|---|
| blog/templatetags/paginate_tags.py:76 | on the last page `get_left` keeps each `i` with `i - 1 > 1` but stores `i - i`, so the window is all zeros and `pages_first` becomes 0 | five pages, `page=5`: `pages == [0, 0, 0]`, `pages_first == 0`, `pages_last == 1` | `[i - 1 for i in range(c, c - left, -1) if i - 1 > 1]`: the pages just below the last page, `max(2, c - left) .. c - 1`, so five pages and `page=5` give `[2, 3, 4]` | medium (reads `i - i` as a one-character slip for `i - 1`; the filter `i - 1 > 1` is kept as written; not executed) | `CorrectedWindow.LastOfFivePagesShowsZeros` | `CorrectedWindow.GetLeftCorrected` |

`PaginateTag.Paginate` keeps the code as written, because it models what the tag does.
The corrected window is used by `CorrectedWindow.PagesCorrected`.
`CorrectedWindow.CorrectedPagesArePageNumbers` proves, for every request, that the corrected
`pages` lies in `[2, num_pages - 1]` and that the markers bracket it. This is the
property `PaginateTag.MarkersBracketWindow` can only state before the last page.
The corrected rule leaves the last page out of the left window, as `get_right` leaves
it out of the right window (line 92), so the template's own `last_page` link is not
repeated. A different reading of line 76, with the branch's body as the ordinary
`[i for ... if i > 1]`, would put `num_pages` itself into `pages`, so `pages_last` would
exceed `last_page`.

## Left out

- Django's `Paginator` cannot be seen here. The model takes the page count `numPages >= 1`
  as an input; the paginator's default `allow_empty_first_page` guarantees at least one
  page. It also takes the paginator's validation as the `Lookup` classification.
  Computing the page count from the item count and the page size is not modelled.
- Slicing the page of articles (`paginator.page(...)`) is not modelled: it belongs to
  the ORM and the paginator. `Paginate` does write the `article_list` key, but its value
  is the uninterpreted `Other`.
- Reading `context['request'].GET` and parsing the string with `int()` are abstracted
  into `RawPage`. A missing parameter and a non-numeric string are both `NotInteger`,
  because the paginator raises `PageNotAnInteger` for both.
- Template-tag registration and the `return ''` are framework plumbing.
- blog/views.py (a database query plus Markdown rendering) and
  blog/migrations/0001_initial.py (a declarative schema) have no logic to verify.
