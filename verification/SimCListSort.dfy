/** The in-place sort of `OpenSC/src/common/simclist.c`: a quicksort that swaps the data of the
    entries, with selection sort for runs of at most 24. The ghost sequence `d` tells the data of
    the entries `s`, sentinels included, so element i of the list is s[i + 1]. */
module SimCListSort {
  import opened ListModel
  import opened SimCList
  import opened SortModel

  const MIN_QUICKSORT_ELEMS := 24

  ghost predicate Shows(s: seq<Entry>, d: seq<Ptr>)
    reads s`data
  {
    |s| == |d| && forall i {:trigger s[i]} :: 0 <= i < |s| ==> s[i].data == d[i]
  }

  method SwapData(a: Entry, b: Entry, ghost s: seq<Entry>, ghost i: nat, ghost j: nat, ghost d: seq<Ptr>)
    requires i < |s| && j < |s| && s[i] == a && s[j] == b && NoDup(s) && Shows(s, d)
    modifies a`data, b`data
    ensures Shows(s, Swapped(d, i, j))
  {
    var tmpdata := a.data;
    a.data := b.data;
    b.data := tmpdata;
  }

  method SelectionSort(cmp: Cmp, versus: int, first: nat, fel: Entry, last: nat, lel: Entry,
                       ghost s: seq<Entry>, ghost d0: seq<Ptr>) returns (ghost d: seq<Ptr>)
    requires Ordered(cmp, versus) && Chain(s) && Shows(s, d0)
    requires last + 2 < |s| && first + 1 < |s| && s[first + 1] == fel && s[last + 1] == lel
    modifies s`data
    ensures Shows(s, d)
    ensures first <= last ==> Rearranged(d0, d, first + 1, last + 2) && Sorted(cmp, versus, d, first + 1, last + 2)
    ensures first <= last && versus > 0 ==> forall i, j :: first < i < j <= last + 1 ==> cmp(d[i], d[j]) >= 0
    ensures first <= last && versus < 0 ==> forall i, j :: first < i < j <= last + 1 ==> cmp(d[i], d[j]) <= 0
    ensures last < first ==> d == d0
  {
    d := d0;
    hide Ordered, Rearranged, Sorted, Split, NoDup;
    SortedMeans(cmp, versus, d, first + 1, last + 2);
    if last <= first {
      if last == first { SelectStarts(cmp, versus, d, first + 1, last + 2); SelectEnds(cmp, versus, d, first + 1, last + 2); }
      return;
    }
    SelectStarts(cmp, versus, d, first + 1, last + 2);
    var firstunsorted := fel;
    ghost var k := first + 1;
    while firstunsorted != lel
      invariant first + 1 <= k <= last + 1 && firstunsorted == s[k]
      invariant Shows(s, d) && Rearranged(d0, d, first + 1, last + 2)
      invariant Sorted(cmp, versus, d, first + 1, k) && Split(cmp, versus, d, first + 1, k, last + 2)
      decreases last + 1 - k
    {
      d := PlaceLeast(cmp, versus, firstunsorted, lel, s, d, first + 1, k, last + 2, d0);
      firstunsorted, k := firstunsorted.next, k + 1;
    }
    SameIndex(s, k, last + 1);
    SelectEnds(cmp, versus, d, first + 1, last + 2);
    SortedMeans(cmp, versus, d, first + 1, last + 2);
  }

  /** One round of the selection sort. */
  method PlaceLeast(cmp: Cmp, versus: int, firstunsorted: Entry, lel: Entry, ghost s: seq<Entry>,
                    ghost d: seq<Ptr>, ghost lo: nat, ghost k: nat, ghost hi: nat, ghost d0: seq<Ptr>)
    returns (ghost e: seq<Ptr>)
    requires Ordered(cmp, versus) && Chain(s) && Shows(s, d) && Rearranged(d0, d, lo, hi)
    requires lo <= k < hi < |s| && s[k] == firstunsorted && s[hi - 1] == lel
    requires Sorted(cmp, versus, d, lo, k) && Split(cmp, versus, d, lo, k, hi)
    modifies s`data
    ensures Shows(s, e) && Rearranged(d0, e, lo, hi)
    ensures Sorted(cmp, versus, e, lo, k + 1) && Split(cmp, versus, e, lo, k + 1, hi)
  {
    hide Ordered, Rearranged, Sorted, Split, NoDup, AllGeq;
    ghost var t;
    var toswap;
    toswap, t := SelectLeast(cmp, versus, firstunsorted, lel, s, d, k, hi);
    SelectExtends(cmp, versus, d, lo, k, t, hi);
    SwapRearranges(d, k, t, lo, hi);
    e := Swapped(d, k, t);
    RearrangedTrans(d0, d, e, lo, hi);
    if toswap != firstunsorted {
      SwapData(firstunsorted, toswap, s, k, t, d);
    } else {
      SameIndex(s, k, t);
    }
  }

  /** The inner loop of the selection sort. */
  method SelectLeast(cmp: Cmp, versus: int, firstunsorted: Entry, lel: Entry,
                     ghost s: seq<Entry>, ghost d: seq<Ptr>, ghost k: nat, ghost hi: nat)
    returns (toswap: Entry, ghost t: nat)
    requires Ordered(cmp, versus) && Chain(s) && Shows(s, d)
    requires k < hi < |s| && s[k] == firstunsorted && s[hi - 1] == lel
    ensures AllGeq(cmp, versus, d, k, hi, toswap.data)
    ensures k <= t < hi && s[t] == toswap && AllGeq(cmp, versus, d, k, hi, d[t])
  {
    toswap, t := firstunsorted, k;
    var cursor := firstunsorted.next;
    ghost var c := k + 1;
    while cursor != lel.next
      invariant k < c <= hi && cursor == s[c]
      invariant k <= t < c && s[t] == toswap && AllGeq(cmp, versus, d, k, c, d[t])
      decreases hi - c
    {
      if Weigh(cmp, versus, toswap.data, cursor.data) > 0 {
        toswap, t := cursor, c;
      }
      cursor, c := cursor.next, c + 1;
    }
  }

  method GetRandom() returns (r: nat) {
    r := *;
  }

  method FindPivot(pivotid: nat, first: nat, fel: Entry, last: nat, lel: Entry, ghost s: seq<Entry>) returns (pivot: Entry)
    requires Chain(s) && first <= last && last + 2 < |s| && s[first + 1] == fel && s[last + 1] == lel
    requires pivotid <= last - first
    ensures pivot == s[first + 1 + pivotid]
  {
    if pivotid < (last - first + 1) / 2 {
      var i := 0;
      pivot := fel;
      while i < pivotid
        invariant 0 <= i <= pivotid && pivot == s[first + 1 + i]
      {
        pivot, i := pivot.next, i + 1;
      }
    } else {
      var i := last - first;
      pivot := lel;
      while i > pivotid
        invariant pivotid <= i <= last - first && pivot == s[first + 1 + i]
      {
        pivot, i := pivot.prev, i - 1;
      }
    }
  }

  method AdvanceLeft(cmp: Cmp, versus: int, left0: Entry, pivot: Entry, ghost s: seq<Entry>, ghost d: seq<Ptr>,
                     ghost lo: nat, ghost l0: nat, ghost p: nat, ghost r: nat, ghost hi: nat)
    returns (left: Entry, ghost l: nat)
    requires Chain(s) && Shows(s, d) && Parted(cmp, versus, d, lo, l0, p, r, hi) && hi < |s|
    requires s[l0] == left0 && s[p] == pivot
    ensures l0 <= l && Parted(cmp, versus, d, lo, l, p, r, hi) && s[l] == left
    ensures left != pivot ==> l < p && Weigh(cmp, versus, d[l], d[p]) > 0
  {
    left, l := left0, l0;
    while left != pivot && Weigh(cmp, versus, left.data, pivot.data) <= 0
      invariant l0 <= l && Parted(cmp, versus, d, lo, l, p, r, hi) && s[l] == left
      decreases p - l
    {
      PartedLeft(cmp, versus, d, lo, l, p, r, hi);
      left, l := left.next, l + 1;
    }
  }

  method RetreatRight(cmp: Cmp, versus: int, right0: Entry, pivot: Entry, ghost s: seq<Entry>, ghost d: seq<Ptr>,
                      ghost lo: nat, ghost l: nat, ghost p: nat, ghost r0: nat, ghost hi: nat)
    returns (right: Entry, ghost r: nat)
    requires Ordered(cmp, versus) && Chain(s) && Shows(s, d) && Parted(cmp, versus, d, lo, l, p, r0, hi) && hi < |s|
    requires s[r0] == right0 && s[p] == pivot
    ensures r <= r0 && Parted(cmp, versus, d, lo, l, p, r, hi) && s[r] == right
    ensures right != pivot ==> p < r && Weigh(cmp, versus, d[r], d[p]) < 0
  {
    right, r := right0, r0;
    while right != pivot && Weigh(cmp, versus, right.data, pivot.data) >= 0
      invariant r <= r0 && Parted(cmp, versus, d, lo, l, p, r, hi) && s[r] == right
      decreases r
    {
      PartedRight(cmp, versus, d, lo, l, p, r, hi);
      right, r := right.prev, r - 1;
    }
  }

  /** Two pointers move toward the pivot and swap what is on the wrong side, until one reaches it. */
  method Converge(cmp: Cmp, versus: int, fel: Entry, lel: Entry, pivot: Entry, ghost s: seq<Entry>, ghost d0: seq<Ptr>,
                  ghost lo: nat, ghost p: nat, ghost hi: nat)
    returns (left: Entry, right: Entry, ghost d: seq<Ptr>, ghost l: nat, ghost r: nat)
    requires Ordered(cmp, versus) && Chain(s) && Shows(s, d0)
    requires lo <= p < hi < |s| && s[lo] == fel && s[p] == pivot && s[hi - 1] == lel
    modifies s`data
    ensures Shows(s, d) && Rearranged(d0, d, lo, hi) && Parted(cmp, versus, d, lo, l, p, r, hi)
    ensures s[l] == left && s[r] == right && (l == p || r == p)
  {
    hide Ordered, Rearranged, NoDup, Parted, Weigh, Chain;
    left, right, d, l, r := fel, lel, d0, lo, hi - 1;
    PartedStarts(cmp, versus, d, lo, p, hi);
    while left != pivot && right != pivot
      invariant lo <= l <= p <= r < hi
      invariant Shows(s, d) && Rearranged(d0, d, lo, hi) && Parted(cmp, versus, d, lo, l, p, r, hi)
      invariant s[l] == left && s[r] == right
      decreases r - l
    {
      left, l := AdvanceLeft(cmp, versus, left, pivot, s, d, lo, l, p, r, hi);
      right, r := RetreatRight(cmp, versus, right, pivot, s, d, lo, l, p, r, hi);
      if left != pivot && right != pivot {
        d := SwapAcross(cmp, versus, left, right, s, d, lo, l, p, r, hi, d0);
        NextInChain(s, l);
        NextInChain(s, r - 1);
        left, l := left.next, l + 1;
        right, r := right.prev, r - 1;
      }
    }
    if left == pivot { SamePlace(s, l, p); } else { SamePlace(s, r, p); }
  }

  lemma SamePlace(s: seq<Entry>, i: nat, j: nat)
    requires Chain(s) && i < |s| && j < |s| && s[i] == s[j]
    ensures i == j
  {
    SameIndex(s, i, j);
  }

  method SwapAcross(cmp: Cmp, versus: int, left: Entry, right: Entry, ghost s: seq<Entry>, ghost d: seq<Ptr>,
                    ghost lo: nat, ghost l: nat, ghost p: nat, ghost r: nat, ghost hi: nat, ghost d0: seq<Ptr>)
    returns (ghost e: seq<Ptr>)
    requires Ordered(cmp, versus) && Chain(s) && Shows(s, d) && Rearranged(d0, d, lo, hi)
    requires Parted(cmp, versus, d, lo, l, p, r, hi) && l < p < r && hi < |s| && s[l] == left && s[r] == right
    requires Weigh(cmp, versus, d[l], d[p]) > 0 && Weigh(cmp, versus, d[r], d[p]) < 0
    modifies left`data, right`data
    ensures Shows(s, e) && Rearranged(d0, e, lo, hi) && Parted(cmp, versus, e, lo, l + 1, p, r - 1, hi)
  {
    hide Ordered, Rearranged, AllLeq, AllGeq;
    e := Swapped(d, l, r);
    PartedSwap(cmp, versus, d, lo, l, p, r, hi);
    SwapRearranges(d, l, r, lo, hi);
    RearrangedTrans(d0, d, e, lo, hi);
    SwapData(left, right, s, l, r, d);
  }

  /** The left pointer has not reached the pivot: what may not stand before it is moved behind it. */
  method ShiftDown(cmp: Cmp, versus: int, left0: Entry, pivot0: Entry, pivotid0: nat, ghost s: seq<Entry>, ghost d1: seq<Ptr>,
                   ghost lo: nat, ghost l0: nat, ghost p0: nat, ghost hi: nat, ghost d0: seq<Ptr>)
    returns (pivot: Entry, pivotid: nat, ghost d: seq<Ptr>, ghost p: nat)
    requires Ordered(cmp, versus) && Chain(s) && Shows(s, d1) && Rearranged(d0, d1, lo, hi)
    requires Parted(cmp, versus, d1, lo, l0, p0, p0, hi) && hi < |s| && s[l0] == left0 && s[p0] == pivot0
    requires pivotid0 == p0 - lo
    modifies s`data
    ensures Shows(s, d) && Rearranged(d0, d, lo, hi) && Parted(cmp, versus, d, lo, p, p, p, hi)
    ensures s[p] == pivot && pivotid == p - lo
  {
    hide Ordered, Rearranged, NoDup, AllLeq, AllGeq, RotatedDown;
    var left := left0;
    ghost var l: nat := l0;
    pivot, pivotid, d, p := pivot0, pivotid0, d1, p0;
    while left != pivot
      invariant Shows(s, d) && Rearranged(d0, d, lo, hi) && Parted(cmp, versus, d, lo, l, p, p, hi)
      invariant s[l] == left && s[p] == pivot && pivotid == p - lo
      decreases p - l
    {
      if Weigh(cmp, versus, left.data, pivot.data) > 0 {
        d := RotateDown(cmp, versus, left, pivot, s, d, lo, l, p, hi, d0);
        pivot, pivotid, p := pivot.prev, pivotid - 1, p - 1;
        if pivot == left { break; }
      } else {
        PartedLeft(cmp, versus, d, lo, l, p, p, hi);
        left, l := left.next, l + 1;
      }
    }
    SameIndex(s, l, p);
  }

  method RotateDown(cmp: Cmp, versus: int, left: Entry, pivot: Entry, ghost s: seq<Entry>, ghost d: seq<Ptr>,
                    ghost lo: nat, ghost l: nat, ghost p: nat, ghost hi: nat, ghost d0: seq<Ptr>)
    returns (ghost e: seq<Ptr>)
    requires Ordered(cmp, versus) && Chain(s) && Shows(s, d) && Rearranged(d0, d, lo, hi)
    requires Parted(cmp, versus, d, lo, l, p, p, hi) && l < p && hi < |s| && s[l] == left && s[p] == pivot
    requires Weigh(cmp, versus, d[l], d[p]) > 0
    modifies left`data, pivot.prev`data, pivot`data
    ensures Shows(s, e) && Rearranged(d0, e, lo, hi) && Parted(cmp, versus, e, lo, l, p - 1, p - 1, hi)
  {
    hide Ordered, Rearranged, AllLeq, AllGeq;
    e := RotatedDown(d, l, p);
    PartedDown(cmp, versus, d, lo, l, p, hi);
    RotatedDownRearranges(d, l, p, lo, hi);
    RearrangedTrans(d0, d, e, lo, hi);
    var tmpdata := left.data;
    left.data := pivot.prev.data;
    pivot.prev.data := pivot.data;
    pivot.data := tmpdata;
  }

  /** The right pointer has not reached the pivot: what may not stand behind it is moved before it. */
  method ShiftUp(cmp: Cmp, versus: int, right0: Entry, pivot0: Entry, pivotid0: nat, ghost s: seq<Entry>, ghost d1: seq<Ptr>,
                 ghost lo: nat, ghost r0: nat, ghost p0: nat, ghost hi: nat, ghost d0: seq<Ptr>)
    returns (pivot: Entry, pivotid: nat, ghost d: seq<Ptr>, ghost p: nat)
    requires Ordered(cmp, versus) && Chain(s) && Shows(s, d1) && Rearranged(d0, d1, lo, hi)
    requires Parted(cmp, versus, d1, lo, p0, p0, r0, hi) && hi < |s| && s[r0] == right0 && s[p0] == pivot0
    requires pivotid0 == p0 - lo
    modifies s`data
    ensures Shows(s, d) && Rearranged(d0, d, lo, hi) && Parted(cmp, versus, d, lo, p, p, p, hi)
    ensures s[p] == pivot && pivotid == p - lo
  {
    hide Ordered, Rearranged, NoDup, AllLeq, AllGeq, RotatedUp;
    var right := right0;
    ghost var r: nat := r0;
    pivot, pivotid, d, p := pivot0, pivotid0, d1, p0;
    while right != pivot
      invariant Shows(s, d) && Rearranged(d0, d, lo, hi) && Parted(cmp, versus, d, lo, p, p, r, hi)
      invariant s[r] == right && s[p] == pivot && pivotid == p - lo
      decreases r - p
    {
      if Weigh(cmp, versus, right.data, pivot.data) < 0 {
        d := RotateUp(cmp, versus, right, pivot, s, d, lo, p, r, hi, d0);
        pivot, pivotid, p := pivot.next, pivotid + 1, p + 1;
        if pivot == right { break; }
      } else {
        PartedRight(cmp, versus, d, lo, p, p, r, hi);
        right, r := right.prev, r - 1;
      }
    }
    SameIndex(s, r, p);
  }

  method RotateUp(cmp: Cmp, versus: int, right: Entry, pivot: Entry, ghost s: seq<Entry>, ghost d: seq<Ptr>,
                  ghost lo: nat, ghost p: nat, ghost r: nat, ghost hi: nat, ghost d0: seq<Ptr>)
    returns (ghost e: seq<Ptr>)
    requires Ordered(cmp, versus) && Chain(s) && Shows(s, d) && Rearranged(d0, d, lo, hi)
    requires Parted(cmp, versus, d, lo, p, p, r, hi) && p < r && hi < |s| && s[r] == right && s[p] == pivot
    requires Weigh(cmp, versus, d[r], d[p]) < 0
    modifies right`data, pivot.next`data, pivot`data
    ensures Shows(s, e) && Rearranged(d0, e, lo, hi) && Parted(cmp, versus, e, lo, p + 1, p + 1, r, hi)
  {
    hide Ordered, Rearranged, AllLeq, AllGeq;
    e := RotatedUp(d, p, r);
    PartedUp(cmp, versus, d, lo, p, r, hi);
    RotatedUpRearranges(d, p, r, lo, hi);
    RearrangedTrans(d0, d, e, lo, hi);
    var tmpdata := right.data;
    right.data := pivot.next.data;
    pivot.next.data := pivot.data;
    pivot.data := tmpdata;
  }

  /** Everything list_sort_quicksort does before it recurses. */
  method Partition(cmp: Cmp, versus: int, first: nat, fel: Entry, last: nat, lel: Entry, ghost s: seq<Entry>, ghost d0: seq<Ptr>)
    returns (pivot: Entry, pivotid: nat, ghost d: seq<Ptr>)
    requires Ordered(cmp, versus) && Chain(s) && Shows(s, d0)
    requires first < last && last + 2 < |s| && s[first + 1] == fel && s[last + 1] == lel
    modifies s`data
    ensures pivotid <= last - first && s[first + 1 + pivotid] == pivot
    ensures Shows(s, d) && Rearranged(d0, d, first + 1, last + 2)
    ensures var p := first + 1 + pivotid; Parted(cmp, versus, d, first + 1, p, p, p, last + 2)
  {
    hide Ordered, Rearranged, NoDup, AllLeq, AllGeq;
    pivotid := GetRandom();
    pivotid := pivotid % (last - first + 1);
    pivot := FindPivot(pivotid, first, fel, last, lel, s);
    ghost var p := first + 1 + pivotid;
    var left, right;
    ghost var l, r;
    left, right, d, l, r := Converge(cmp, versus, fel, lel, pivot, s, d0, first + 1, p, last + 2);
    if right == pivot {
      SameIndex(s, r, p);
      pivot, pivotid, d, p := ShiftDown(cmp, versus, left, pivot, pivotid, s, d, first + 1, l, p, last + 2, d0);
    } else {
      pivot, pivotid, d, p := ShiftUp(cmp, versus, right, pivot, pivotid, s, d, first + 1, r, p, last + 2, d0);
    }
  }

  /** list_sort_quicksort */
  method Quicksort(cmp: Cmp, versus: int, first: nat, fel: Entry, last: nat, lel: Entry, ghost s: seq<Entry>, ghost d0: seq<Ptr>)
    returns (ghost d: seq<Ptr>)
    requires Ordered(cmp, versus) && Chain(s) && Shows(s, d0)
    requires first <= last && last + 2 < |s| && s[first + 1] == fel && s[last + 1] == lel
    modifies s`data
    ensures Shows(s, d) && Rearranged(d0, d, first + 1, last + 2) && Sorted(cmp, versus, d, first + 1, last + 2)
    ensures versus > 0 ==> forall i, j :: first < i < j <= last + 1 ==> cmp(d[i], d[j]) >= 0
    ensures versus < 0 ==> forall i, j :: first < i < j <= last + 1 ==> cmp(d[i], d[j]) <= 0
    decreases last - first
  {
    hide Ordered, Rearranged, NoDup, AllLeq, AllGeq, Sorted, Parted;
    if last <= first {
      d := d0;
      SelectStarts(cmp, versus, d, first + 1, last + 2);
      SelectEnds(cmp, versus, d, first + 1, last + 2);
      SortedMeans(cmp, versus, d, first + 1, last + 2);
      return;
    }
    if last - first + 1 <= MIN_QUICKSORT_ELEMS {
      d := SelectionSort(cmp, versus, first, fel, last, lel, s, d0);
      return;
    }
    var pivot, pivotid;
    pivot, pivotid, d := Partition(cmp, versus, first, fel, last, lel, s, d0);
    d := SortParts(cmp, versus, first, fel, last, lel, pivot, pivotid, s, d, d0);
    SortedMeans(cmp, versus, d, first + 1, last + 2);
  }

  /** The two recursive calls of list_sort_quicksort. */
  method SortParts(cmp: Cmp, versus: int, first: nat, fel: Entry, last: nat, lel: Entry, pivot: Entry, pivotid: nat,
                   ghost s: seq<Entry>, ghost d1: seq<Ptr>, ghost d0: seq<Ptr>) returns (ghost d: seq<Ptr>)
    requires Ordered(cmp, versus) && Chain(s) && Shows(s, d1) && Rearranged(d0, d1, first + 1, last + 2)
    requires first < last && last + 2 < |s| && s[first + 1] == fel && s[last + 1] == lel
    requires pivotid <= last - first && s[first + 1 + pivotid] == pivot
    requires var p := first + 1 + pivotid; Parted(cmp, versus, d1, first + 1, p, p, p, last + 2)
    modifies s`data
    ensures Shows(s, d) && Rearranged(d0, d, first + 1, last + 2) && Sorted(cmp, versus, d, first + 1, last + 2)
    decreases last - first, 0
  {
    hide Ordered, Rearranged, NoDup, AllLeq, AllGeq, Sorted, Parted;
    ghost var lo, p, hi := first + 1, first + 1 + pivotid, last + 2;
    ghost var d2 := d1;
    SelectStarts(cmp, versus, d1, lo, lo);
    if pivotid > 0 {
      d2 := Quicksort(cmp, versus, first, fel, first + pivotid - 1, pivot.prev, s, d1);
    }
    d := d2;
    SelectStarts(cmp, versus, d2, hi, hi);
    if first + pivotid < last {
      d := Quicksort(cmp, versus, first + pivotid + 1, pivot.next, last, lel, s, d2);
    }
    SortedParts(cmp, versus, d1, d2, d, lo, p, hi);
    RearrangedParts(d0, d1, d2, d, lo, p, hi);
  }

  /** list_sort: only the data moves; chain, count and middle stay. */
  method Sort(l: List, versus: int) returns (r: int)
    requires l.Valid() && (l.comparator.Set? ==> Comparator(l.comparator.cmp))
    modifies l`contents, l.chain`data
    ensures l.Valid() && r == if l.iterActive || l.comparator.Unset? then -1 else 0
    ensures r == -1 ==> l.contents == old(l.contents) && unchanged(l.chain)
    ensures r == 0 ==> multiset(l.contents) == multiset(old(l.contents))
    ensures r == 0 && versus > 0 ==> forall i, j :: 0 <= i < j < |l.contents| ==> l.comparator.cmp(l.contents[i], l.contents[j]) >= 0
    ensures r == 0 && versus < 0 ==> forall i, j :: 0 <= i < j < |l.contents| ==> l.comparator.cmp(l.contents[i], l.contents[j]) <= 0
  {
    if l.iterActive || l.comparator.Unset? { return -1; }
    if l.numels <= 1 { return 0; }
    var cmp := l.comparator.cmp;
    ComparatorOrders(cmp, versus);
    SortEntries(l, cmp, versus);
    SortedMeans(cmp, versus, l.contents, 0, l.numels);
    return 0;
  }

  method SortEntries(l: List, cmp: Cmp, versus: int)
    requires l.Shape() && l.numels > 1 && Ordered(cmp, versus)
    modifies l`contents, l.chain`data
    ensures l.Shape() && multiset(l.contents) == multiset(old(l.contents))
    ensures Sorted(cmp, versus, l.contents, 0, |l.contents|)
  {
    hide Ordered, NoDup, MidOf, Holds, Shows, Sorted;
    ghost var s := l.chain;
    ghost var d0 := ContentsShown(s, l.contents);
    ghost var d := Quicksort(cmp, versus, 0, l.headSentinel.next, l.numels - 1, l.tailSentinel.prev, s, d0);
    SortedContents(cmp, versus, s, l.contents, d0, d);
    l.contents := d[1..|d| - 1];
  }

  lemma SortedContents(cmp: Cmp, versus: int, s: seq<Entry>, c: seq<Ptr>, d0: seq<Ptr>, d: seq<Ptr>)
    requires |s| == |c| + 2 == |d0| && d0[1..|d0| - 1] == c && Shows(s, d)
    requires d0[0] == NULL && d0[|d0| - 1] == NULL
    requires Rearranged(d0, d, 1, |c| + 1) && Sorted(cmp, versus, d, 1, |c| + 1)
    ensures var e := d[1..|d| - 1]; Holds(s, e) && multiset(e) == multiset(c) && Sorted(cmp, versus, e, 0, |e|)
  {
    RearrangedOutside(d0, d, 1, |c| + 1, 0);
    RearrangedOutside(d0, d, 1, |c| + 1, |d0| - 1);
    var e := d[1..|d| - 1];
    forall i | 0 <= i < |e| ensures s[i + 1].data == e[i] { assert s[i + 1].data == d[i + 1]; }
  }

  lemma ContentsShown(s: seq<Entry>, c: seq<Ptr>) returns (d: seq<Ptr>)
    requires Holds(s, c)
    ensures Shows(s, d) && |d| == |s| && d[1..|d| - 1] == c && d[0] == NULL && d[|d| - 1] == NULL
  {
    d := [NULL] + c + [NULL];
    forall i | 0 <= i < |s| ensures s[i].data == d[i] {
      assert 0 < i < |s| - 1 ==> s[i].data == c[i - 1];
    }
  }
}
