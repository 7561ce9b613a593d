/** Orders, sorted ranges and rearrangements of plain sequences, for the sort of simclist. */
module SortModel {
  import opened ListModel

  /** The number every comparison of the sort looks at the sign of. */
  function Weigh(cmp: Cmp, versus: int, a: Ptr, b: Ptr): int {
    cmp(a, b) * -versus
  }

  /** `a` may stand before `b`. */
  predicate Leq(cmp: Cmp, versus: int, a: Ptr, b: Ptr) {
    Weigh(cmp, versus, a, b) <= 0
  }

  /** The comparator is a total preorder. */
  ghost predicate Comparator(cmp: Cmp) {
    && (forall a, b :: cmp(a, b) >= 0 <==> cmp(b, a) <= 0)
    && (forall a, b, c :: cmp(a, b) >= 0 && cmp(b, c) >= 0 ==> cmp(a, c) >= 0)
  }

  /** What the proofs use of a comparator and a direction. */
  ghost predicate Ordered(cmp: Cmp, versus: int) {
    && (forall a, b :: Leq(cmp, versus, a, b) <==> Weigh(cmp, versus, b, a) >= 0)
    && (forall a, b, c :: Leq(cmp, versus, a, b) && Leq(cmp, versus, b, c) ==> Leq(cmp, versus, a, c))
  }

  lemma ComparatorOrders(cmp: Cmp, versus: int)
    requires Comparator(cmp)
    ensures Ordered(cmp, versus)
  {
    forall a, b ensures Leq(cmp, versus, a, b) <==> Weigh(cmp, versus, b, a) >= 0 {
      Signs(cmp(a, b), versus);
      Signs(cmp(b, a), versus);
    }
    forall a, b, c | Leq(cmp, versus, a, b) && Leq(cmp, versus, b, c) ensures Leq(cmp, versus, a, c) {
      Signs(cmp(a, b), versus);
      Signs(cmp(b, c), versus);
      Signs(cmp(a, c), versus);
    }
  }

  lemma Signs(x: int, versus: int)
    ensures versus > 0 ==> (x * -versus <= 0 <==> x >= 0) && (x * -versus >= 0 <==> x <= 0)
    ensures versus < 0 ==> (x * -versus <= 0 <==> x <= 0) && (x * -versus >= 0 <==> x >= 0)
    ensures versus == 0 ==> x * -versus == 0
  {
  }

  ghost predicate Sorted(cmp: Cmp, versus: int, d: seq<Ptr>, lo: nat, hi: nat)
    requires hi <= |d|
  {
    forall i, j :: lo <= i < j < hi ==> Leq(cmp, versus, d[i], d[j])
  }

  /** What the direction means: upwards when it is positive, the comparator being positive when its
      first argument is the smaller one, and downwards when it is negative. */
  lemma {:induction false} SortedMeans(cmp: Cmp, versus: int, d: seq<Ptr>, lo: nat, hi: nat)
    requires hi <= |d|
    ensures versus > 0 ==> (Sorted(cmp, versus, d, lo, hi) <==> forall i, j :: lo <= i < j < hi ==> cmp(d[i], d[j]) >= 0)
    ensures versus < 0 ==> (Sorted(cmp, versus, d, lo, hi) <==> forall i, j :: lo <= i < j < hi ==> cmp(d[i], d[j]) <= 0)
  {
    forall i, j | lo <= i < j < hi
      ensures versus > 0 ==> (Leq(cmp, versus, d[i], d[j]) <==> cmp(d[i], d[j]) >= 0)
      ensures versus < 0 ==> (Leq(cmp, versus, d[i], d[j]) <==> cmp(d[i], d[j]) <= 0)
    {
      Signs(cmp(d[i], d[j]), versus);
    }
  }

  ghost predicate AllLeq(cmp: Cmp, versus: int, d: seq<Ptr>, lo: nat, hi: nat, x: Ptr)
    requires hi <= |d|
  {
    forall i :: lo <= i < hi ==> Leq(cmp, versus, d[i], x)
  }

  ghost predicate AllGeq(cmp: Cmp, versus: int, d: seq<Ptr>, lo: nat, hi: nat, x: Ptr)
    requires hi <= |d|
  {
    forall i :: lo <= i < hi ==> Leq(cmp, versus, x, d[i])
  }

  /** Everything in [lo, mid) may stand before everything in [mid, hi). */
  ghost predicate Split(cmp: Cmp, versus: int, d: seq<Ptr>, lo: nat, mid: nat, hi: nat)
    requires hi <= |d|
  {
    forall i, j :: lo <= i < mid <= j < hi ==> Leq(cmp, versus, d[i], d[j])
  }

  /** `e` is `d` with the elements of [lo, hi) in another order. */
  ghost predicate Rearranged(d: seq<Ptr>, e: seq<Ptr>, lo: nat, hi: nat) {
    && lo <= hi <= |d| == |e|
    && d[..lo] == e[..lo] && d[hi..] == e[hi..]
    && multiset(d[lo..hi]) == multiset(e[lo..hi])
  }

  function Swapped(d: seq<Ptr>, i: nat, j: nat): seq<Ptr>
    requires i < |d| && j < |d|
  {
    d[i := d[j]][j := d[i]]
  }

  lemma SwapRearranges(d: seq<Ptr>, i: nat, j: nat, lo: nat, hi: nat)
    requires lo <= i < hi && lo <= j < hi <= |d|
    ensures Rearranged(d, Swapped(d, i, j), lo, hi)
  {
    var e := Swapped(d, i, j);
    assert e[lo..hi] == d[lo..hi][i - lo := d[j]][j - lo := d[i]];
  }

  lemma RearrangedTrans(d: seq<Ptr>, e: seq<Ptr>, f: seq<Ptr>, lo: nat, hi: nat)
    requires Rearranged(d, e, lo, hi) && Rearranged(e, f, lo, hi)
    ensures Rearranged(d, f, lo, hi)
  {
  }

  lemma RearrangedWiden(d: seq<Ptr>, e: seq<Ptr>, lo: nat, hi: nat, lo': nat, hi': nat)
    requires Rearranged(d, e, lo, hi) && lo' <= lo && hi <= hi' <= |d|
    ensures Rearranged(d, e, lo', hi')
  {
    assert d[..lo'] == d[..lo][..lo'] && e[..lo'] == e[..lo][..lo'];
    assert d[hi'..] == d[hi..][hi' - hi..] && e[hi'..] == e[hi..][hi' - hi..];
    WiderSlice(d, lo, hi, lo', hi');
    WiderSlice(e, lo, hi, lo', hi');
  }

  lemma WiderSlice(d: seq<Ptr>, lo: nat, hi: nat, lo': nat, hi': nat)
    requires lo' <= lo <= hi <= hi' <= |d|
    ensures d[lo'..hi'] == d[..lo][lo'..] + d[lo..hi] + d[hi..][..hi' - hi]
  {
  }

  /** Each element of the rearranged range was in the range before. */
  lemma RearrangedFrom(d: seq<Ptr>, e: seq<Ptr>, lo: nat, hi: nat, i: nat) returns (j: nat)
    requires Rearranged(d, e, lo, hi) && lo <= i < hi
    ensures lo <= j < hi && d[j] == e[i]
  {
    assert e[lo..hi][i - lo] in multiset(e[lo..hi]);
    var k :| 0 <= k < hi - lo && d[lo..hi][k] == e[i];
    j := k + lo;
  }

  lemma RearrangedBounds(cmp: Cmp, versus: int, d: seq<Ptr>, e: seq<Ptr>, lo: nat, hi: nat, x: Ptr)
    requires Rearranged(d, e, lo, hi)
    ensures AllLeq(cmp, versus, d, lo, hi, x) ==> AllLeq(cmp, versus, e, lo, hi, x)
    ensures AllGeq(cmp, versus, d, lo, hi, x) ==> AllGeq(cmp, versus, e, lo, hi, x)
  {
    forall i | lo <= i < hi
      ensures AllLeq(cmp, versus, d, lo, hi, x) ==> Leq(cmp, versus, e[i], x)
      ensures AllGeq(cmp, versus, d, lo, hi, x) ==> Leq(cmp, versus, x, e[i])
    {
      var j := RearrangedFrom(d, e, lo, hi, i);
    }
  }

  lemma RearrangedOutside(d: seq<Ptr>, e: seq<Ptr>, lo: nat, hi: nat, i: nat)
    requires Rearranged(d, e, lo, hi) && i < |d| && (i < lo || hi <= i)
    ensures e[i] == d[i]
  {
    if i < lo { assert d[..lo][i] == e[..lo][i]; } else { assert d[hi..][i - hi] == e[hi..][i - hi]; }
  }

  /** The three-way rotation that moves the pivot at p one place toward l and the element at l behind it. */
  function RotatedDown(d: seq<Ptr>, l: nat, p: nat): seq<Ptr>
    requires l < p < |d|
  {
    d[l := d[p - 1]][p - 1 := d[p]][p := d[l]]
  }

  function RotatedUp(d: seq<Ptr>, p: nat, r: nat): seq<Ptr>
    requires p < r < |d|
  {
    d[r := d[p + 1]][p + 1 := d[p]][p := d[r]]
  }

  lemma RotatedDownRearranges(d: seq<Ptr>, l: nat, p: nat, lo: nat, hi: nat)
    requires lo <= l < p < hi <= |d|
    ensures Rearranged(d, RotatedDown(d, l, p), lo, hi)
  {
    hide Rearranged;
    var e := Swapped(d, l, p - 1);
    assert RotatedDown(d, l, p) == Swapped(e, p - 1, p);
    SwapRearranges(d, l, p - 1, lo, hi);
    SwapRearranges(e, p - 1, p, lo, hi);
    RearrangedTrans(d, e, RotatedDown(d, l, p), lo, hi);
  }

  lemma RotatedUpRearranges(d: seq<Ptr>, p: nat, r: nat, lo: nat, hi: nat)
    requires lo <= p < r < hi <= |d|
    ensures Rearranged(d, RotatedUp(d, p, r), lo, hi)
  {
    hide Rearranged;
    var e := Swapped(d, p, p + 1);
    SwapRearranges(d, p, p + 1, lo, hi);
    if r == p + 1 {
      assert RotatedUp(d, p, r) == e;
      return;
    }
    assert RotatedUp(d, p, r) == Swapped(e, p, r);
    SwapRearranges(e, p, r, lo, hi);
    RearrangedTrans(d, e, RotatedUp(d, p, r), lo, hi);
  }

  /** Moving the least element of [k, hi) to k extends the sorted part by one. */
  lemma SelectExtends(cmp: Cmp, versus: int, d: seq<Ptr>, lo: nat, k: nat, t: nat, hi: nat)
    requires lo <= k <= t < hi <= |d|
    requires Sorted(cmp, versus, d, lo, k) && Split(cmp, versus, d, lo, k, hi)
    requires AllGeq(cmp, versus, d, k, hi, d[t])
    ensures var e := Swapped(d, k, t); Sorted(cmp, versus, e, lo, k + 1) && Split(cmp, versus, e, lo, k + 1, hi)
  {
  }

  lemma SelectStarts(cmp: Cmp, versus: int, d: seq<Ptr>, lo: nat, hi: nat)
    requires lo <= hi <= |d|
    ensures Rearranged(d, d, lo, hi) && Sorted(cmp, versus, d, lo, lo) && Split(cmp, versus, d, lo, lo, hi)
  {
  }

  lemma SelectEnds(cmp: Cmp, versus: int, d: seq<Ptr>, lo: nat, hi: nat)
    requires lo < hi <= |d|
    requires Sorted(cmp, versus, d, lo, hi - 1) && Split(cmp, versus, d, lo, hi - 1, hi)
    ensures Sorted(cmp, versus, d, lo, hi)
  {
  }

  /** The pivot x is at p; [lo, l) may stand before it and (r, hi) behind it. */
  ghost predicate Parted(cmp: Cmp, versus: int, d: seq<Ptr>, lo: nat, l: nat, p: nat, r: nat, hi: nat)
  {
    && lo <= l <= p <= r < hi <= |d|
    && AllLeq(cmp, versus, d, lo, l, d[p]) && AllGeq(cmp, versus, d, r + 1, hi, d[p])
  }

  lemma PartedSwap(cmp: Cmp, versus: int, d: seq<Ptr>, lo: nat, l: nat, p: nat, r: nat, hi: nat)
    requires Ordered(cmp, versus) && Parted(cmp, versus, d, lo, l, p, r, hi) && l < p < r
    requires Weigh(cmp, versus, d[l], d[p]) > 0 && Weigh(cmp, versus, d[r], d[p]) < 0
    ensures Parted(cmp, versus, Swapped(d, l, r), lo, l + 1, p, r - 1, hi)
  {
  }

  lemma PartedDown(cmp: Cmp, versus: int, d: seq<Ptr>, lo: nat, l: nat, p: nat, hi: nat)
    requires Ordered(cmp, versus) && Parted(cmp, versus, d, lo, l, p, p, hi) && l < p
    requires Weigh(cmp, versus, d[l], d[p]) > 0
    ensures Parted(cmp, versus, RotatedDown(d, l, p), lo, l, p - 1, p - 1, hi)
  {
  }

  lemma PartedUp(cmp: Cmp, versus: int, d: seq<Ptr>, lo: nat, p: nat, r: nat, hi: nat)
    requires Ordered(cmp, versus) && Parted(cmp, versus, d, lo, p, p, r, hi) && p < r
    requires Weigh(cmp, versus, d[r], d[p]) < 0
    ensures Parted(cmp, versus, RotatedUp(d, p, r), lo, p + 1, p + 1, r, hi)
  {
  }

  lemma PartedLeft(cmp: Cmp, versus: int, d: seq<Ptr>, lo: nat, l: nat, p: nat, r: nat, hi: nat)
    requires Parted(cmp, versus, d, lo, l, p, r, hi) && l < p && Leq(cmp, versus, d[l], d[p])
    ensures Parted(cmp, versus, d, lo, l + 1, p, r, hi)
  {
  }

  lemma PartedRight(cmp: Cmp, versus: int, d: seq<Ptr>, lo: nat, l: nat, p: nat, r: nat, hi: nat)
    requires Ordered(cmp, versus) && Parted(cmp, versus, d, lo, l, p, r, hi) && p < r
    requires Weigh(cmp, versus, d[r], d[p]) >= 0
    ensures Parted(cmp, versus, d, lo, l, p, r - 1, hi)
  {
  }

  lemma PartedStarts(cmp: Cmp, versus: int, d: seq<Ptr>, lo: nat, p: nat, hi: nat)
    requires lo <= p < hi <= |d|
    ensures Parted(cmp, versus, d, lo, lo, p, hi - 1, hi) && Rearranged(d, d, lo, hi)
  {
  }

  /** Rearranging one side of the pivot keeps the partition. */
  lemma PartedKept(cmp: Cmp, versus: int, d: seq<Ptr>, e: seq<Ptr>, lo: nat, p: nat, hi: nat, a: nat, b: nat)
    requires Parted(cmp, versus, d, lo, p, p, p, hi) && Rearranged(d, e, a, b)
    requires (a == lo && b == p) || (a == p + 1 && b == hi)
    ensures Parted(cmp, versus, e, lo, p, p, p, hi)
  {
    RearrangedBounds(cmp, versus, d, e, a, b, d[p]);
    forall i | 0 <= i < |d| && (i < a || b <= i) ensures e[i] == d[i] {
      RearrangedOutside(d, e, a, b, i);
    }
  }

  /** Rearranging right of the pivot keeps the left side sorted. */
  lemma SortedKept(cmp: Cmp, versus: int, d: seq<Ptr>, e: seq<Ptr>, lo: nat, p: nat, a: nat, b: nat)
    requires lo <= p <= a && Rearranged(d, e, a, b) && Sorted(cmp, versus, d, lo, p)
    ensures Sorted(cmp, versus, e, lo, p)
  {
    forall i | 0 <= i < p ensures e[i] == d[i] {
      RearrangedOutside(d, e, a, b, i);
    }
  }

  /** A pivot with both sides sorted one after the other makes a sorted whole. */
  lemma SortedParts(cmp: Cmp, versus: int, d: seq<Ptr>, e: seq<Ptr>, f: seq<Ptr>, lo: nat, p: nat, hi: nat)
    requires Ordered(cmp, versus) && Parted(cmp, versus, d, lo, p, p, p, hi)
    requires Rearranged(d, e, lo, p) && Rearranged(e, f, p + 1, hi)
    requires Sorted(cmp, versus, e, lo, p) && Sorted(cmp, versus, f, p + 1, hi)
    ensures Sorted(cmp, versus, f, lo, hi)
  {
    hide Rearranged, AllLeq, AllGeq, Sorted, Ordered;
    PartedKept(cmp, versus, d, e, lo, p, hi, lo, p);
    PartedKept(cmp, versus, e, f, lo, p, hi, p + 1, hi);
    SortedKept(cmp, versus, e, f, lo, p, p + 1, hi);
    PartedJoins(cmp, versus, f, lo, p, hi);
  }

  lemma RearrangedParts(d0: seq<Ptr>, d: seq<Ptr>, e: seq<Ptr>, f: seq<Ptr>, lo: nat, p: nat, hi: nat)
    requires lo <= p < hi && Rearranged(d0, d, lo, hi)
    requires Rearranged(d, e, lo, p) && Rearranged(e, f, p + 1, hi)
    ensures Rearranged(d0, f, lo, hi)
  {
    RearrangedWiden(d, e, lo, p, lo, hi);
    RearrangedWiden(e, f, p + 1, hi, lo, hi);
    RearrangedTrans(d0, d, e, lo, hi);
    RearrangedTrans(d0, e, f, lo, hi);
  }

  lemma PartedJoins(cmp: Cmp, versus: int, d: seq<Ptr>, lo: nat, p: nat, hi: nat)
    requires Ordered(cmp, versus) && Parted(cmp, versus, d, lo, p, p, p, hi)
    requires Sorted(cmp, versus, d, lo, p) && Sorted(cmp, versus, d, p + 1, hi)
    ensures Sorted(cmp, versus, d, lo, hi)
  {
  }
}
