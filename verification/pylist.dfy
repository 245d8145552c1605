/** The few Python list primitives the pagination helpers are built from:
    `range(start, stop)`, `range(start, stop, -1)` and `list.sort()` on integers. */
module PyList {

  /** Every element is at most the next one (the order `list.sort()` leaves behind). */
  predicate Ascending(s: seq<int>) {
    forall i, j :: 0 <= i < j < |s| ==> s[i] <= s[j]
  }

  /** Every element is smaller than the next one: sorted and free of duplicates. */
  predicate StrictlyAscending(s: seq<int>) {
    forall i, j :: 0 <= i < j < |s| ==> s[i] < s[j]
  }

  /** `list(range(start, stop))`: start, start + 1, ..., stop - 1. */
  function RangeUp(start: int, stop: int): (r: seq<int>)
    ensures |r| == if start < stop then stop - start else 0
    ensures forall k :: 0 <= k < |r| ==> r[k] == start + k
  {
    if start < stop then seq(stop - start, k => start + k) else []
  }

  /** `list(range(start, stop, -1))`: start, start - 1, ..., stop + 1. */
  function RangeDown(start: int, stop: int): (r: seq<int>)
    ensures |r| == if stop < start then start - stop else 0
    ensures forall k :: 0 <= k < |r| ==> r[k] == start - k
  {
    if stop < start then seq(start - stop, k => start - k) else []
  }

  /** A list of `count` zeros. */
  function Zeros(count: nat): (r: seq<int>)
    ensures |r| == count
    ensures forall k :: 0 <= k < |r| ==> r[k] == 0
  {
    seq(count, _ => 0)
  }

  /** Puts `x` after every element of `s` that is not larger than it. */
  function Insert(x: int, s: seq<int>): (r: seq<int>)
  {
    if s == [] || x < s[0] then [x] + s
    else [s[0]] + Insert(x, s[1..])
  }

  /** `l.sort()` on a list of integers, as an insertion sort: for integers every
      correct sort yields the same list, so the choice of algorithm is invisible. */
  function Sort(s: seq<int>): (r: seq<int>)
  {
    if s == [] then []
    else Insert(s[0], Sort(s[1..]))
  }

  lemma {:induction false} InsertPermutes(x: int, s: seq<int>)
    ensures multiset(Insert(x, s)) == multiset(s) + multiset{x}
  {
    if s != [] && s[0] <= x {
      InsertPermutes(x, s[1..]);
      assert s == [s[0]] + s[1..];
    }
  }

  lemma {:induction false} InsertKeepsLowerBound(x: int, s: seq<int>, b: int)
    requires b <= x
    requires forall k :: 0 <= k < |s| ==> b <= s[k]
    ensures forall k :: 0 <= k < |Insert(x, s)| ==> b <= Insert(x, s)[k]
  {
    if s != [] && s[0] <= x {
      InsertKeepsLowerBound(x, s[1..], b);
    }
  }

  lemma {:induction false} InsertKeepsAscending(x: int, s: seq<int>)
    requires Ascending(s)
    ensures Ascending(Insert(x, s))
  {
    if s != [] && s[0] <= x {
      var t := Insert(x, s[1..]);
      InsertKeepsAscending(x, s[1..]);
      InsertKeepsLowerBound(x, s[1..], s[0]);
      assert Insert(x, s) == [s[0]] + t;
    }
  }

  /** `l.sort()` leaves the list in ascending order and holds the same elements. */
  lemma {:induction false} SortIsSortedPermutation(s: seq<int>)
    ensures Ascending(Sort(s))
    ensures multiset(Sort(s)) == multiset(s)
  {
    if s != [] {
      SortIsSortedPermutation(s[1..]);
      InsertKeepsAscending(s[0], Sort(s[1..]));
      InsertPermutes(s[0], Sort(s[1..]));
      assert s == [s[0]] + s[1..];
    }
  }

  lemma {:induction false} InsertAfterAll(x: int, s: seq<int>)
    requires forall k :: 0 <= k < |s| ==> s[k] <= x
    ensures Insert(x, s) == s + [x]
  {
    if s != [] {
      InsertAfterAll(x, s[1..]);
      assert s == [s[0]] + s[1..];
    }
  }

  lemma RangeUpExtend(start: int, stop: int)
    requires start <= stop
    ensures RangeUp(start, stop) + [stop] == RangeUp(start, stop + 1)
  {
    var a, b := RangeUp(start, stop) + [stop], RangeUp(start, stop + 1);
    assert |a| == |b|;
    forall k | 0 <= k < |a| ensures a[k] == b[k] {
      if k < stop - start {
        assert a[k] == RangeUp(start, stop)[k];
      }
    }
  }

  /** Sorting a descending `range` gives the same numbers counting upwards. */
  lemma {:induction false} SortRangeDown(start: int, stop: int)
    ensures Sort(RangeDown(start, stop)) == RangeUp(stop + 1, start + 1)
    decreases start - stop
  {
    if stop < start {
      var down := RangeDown(start, stop);
      assert down[0] == start && down[1..] == RangeDown(start - 1, stop);
      SortRangeDown(start - 1, stop);
      var up := RangeUp(stop + 1, start);
      assert Sort(down) == Insert(start, up);
      InsertAfterAll(start, up);
      RangeUpExtend(stop + 1, start);
    }
  }

  /** Sorting a list of zeros leaves it as it is. */
  lemma {:induction false} SortZeros(count: nat)
    ensures Sort(Zeros(count)) == Zeros(count)
  {
    if count > 0 {
      assert Zeros(count)[1..] == Zeros(count - 1);
      SortZeros(count - 1);
      InsertAfterAll(0, Zeros(count - 1));
      assert Zeros(count - 1) + [0] == Zeros(count);
    }
  }
}
