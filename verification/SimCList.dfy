/** The doubly linked list of `OpenSC/src/common/simclist.c`: entries between two sentinels,
    a cached pointer to the middle entry, and a pool of at most five spare entries.

    A `void *` element is its address, so the list holds numbers and 0 is the null pointer.
    The ghost field `chain` is the sequence of entries from head to tail sentinel and
    `contents` the sequence of elements; everything the list does is stated about `contents`. */
module SimCList {
  import opened ListModel
  import opened SinglePrecision

  class Entry {
    var data: Ptr
    var next: Entry?
    var prev: Entry?

    constructor ()
      ensures data == NULL && next == null && prev == null
    {
      data, next, prev := NULL, null, null;
    }
  }

  /** Forward and backward links agree along `s`, and no entry occurs twice. */
  ghost predicate Chain(s: seq<Entry>)
    reads s`next, s`prev
  {
    && NoDup(s)
    && (forall i {:trigger s[i].next} :: 0 <= i < |s| - 1 ==> s[i].next == s[i + 1])
    && (forall i {:trigger s[i].prev} :: 0 < i < |s| ==> s[i].prev == s[i - 1])
  }

  /** The entries strictly between the two sentinels of `s` hold the elements `c`, the sentinels the
      null pointer. */
  ghost predicate Holds(s: seq<Entry>, c: seq<Ptr>)
    reads s`data
  {
    && |s| == |c| + 2 && s[0].data == NULL && s[|s| - 1].data == NULL
    && forall i {:trigger c[i]} :: 0 <= i < |c| ==> s[i + 1].data == c[i]
  }

  /** The entry the `mid` pointer must reach: index (n-1)/2 of n elements. */
  ghost function MidOf(s: seq<Entry>): Entry?
  {
    if |s| <= 2 then null else s[(|s| - 3) / 2 + 1]
  }

  lemma MidIs(s: seq<Entry>)
    ensures |s| > 2 ==> MidOf(s) == s[(|s| - 3) / 2 + 1]
  {
  }

  ghost predicate Within(s: seq<Entry>, r: set<object>) {
    forall i {:trigger s[i]} :: 0 <= i < |s| ==> s[i] in r
  }

  /** Conservation: each entry ever allocated is exactly once in the chain, in the spare pool or
      among the freed ones, and a freed entry is outside the memory the list may still touch. */
  ghost predicate Conserved(all: set<Entry>, chain: seq<Entry>, spare: seq<Entry>, freed: set<Entry>, repr: set<object>)
  {
    && multiset(all) == multiset(chain) + multiset(spare) + multiset(freed)
    && freed !! repr && Within(chain, repr) && Within(spare, repr)
  }

  lemma ConservedSpare(all: set<Entry>, chain: seq<Entry>, spare: seq<Entry>, freed: set<Entry>, repr: set<object>, x: Entry)
    requires Conserved(all, chain, spare + [x], freed, repr)
    ensures x !in chain && x !in spare && x in repr && Within(spare, repr)
  {
    assert (spare + [x])[|spare|] == x;
    forall i | 0 <= i < |spare| ensures spare[i] in repr { assert (spare + [x])[i] == spare[i]; }
    assert multiset(all)[x] <= 1;
    assert x !in multiset(chain) && x !in multiset(spare);
  }

  lemma ConservedInsert(all: set<Entry>, chain: seq<Entry>, spare: seq<Entry>, freed: set<Entry>, repr: set<object>, k: nat, x: Entry)
    requires Conserved(all, chain, spare + [x], freed, repr) && k <= |chain|
    ensures Conserved(all, Inserted(chain, k, x), spare, freed, repr)
  {
    ConservedSpare(all, chain, spare, freed, repr, x);
    InsertedElems(chain, k, x);
  }

  lemma ConservedRemove(all: set<Entry>, chain: seq<Entry>, spare: seq<Entry>, freed: set<Entry>, repr: set<object>, k: nat)
    requires Conserved(all, chain, spare, freed, repr) && k < |chain|
    ensures Conserved(all, Removed(chain, k), spare + [chain[k]], freed, repr)
  {
    RemovedElems(chain, k);
  }

  lemma ConservedNew(all: set<Entry>, chain: seq<Entry>, spare: seq<Entry>, freed: set<Entry>, repr: set<object>, x: Entry)
    requires Conserved(all, chain, spare, freed, repr) && x !in all
    ensures Conserved(all + {x}, chain, spare + [x], freed, repr + {x})
  {
    assert multiset(all + {x}) == multiset(all) + multiset{x};
    assert multiset(all)[x] == 0 && multiset(freed)[x] == if x in freed then 1 else 0;
  }

  lemma ConservedFree(all: set<Entry>, chain: seq<Entry>, spare: seq<Entry>, freed: set<Entry>, repr: set<object>, x: Entry)
    requires Conserved(all, chain, spare + [x], freed, repr)
    ensures Conserved(all, chain, spare, freed + {x}, repr - {x})
  {
    ConservedSpare(all, chain, spare, freed, repr, x);
    assert multiset(all)[x] <= 1 && multiset(freed)[x] == if x in freed then 1 else 0;
    assert multiset(freed + {x}) == multiset(freed) + multiset{x};
  }

  lemma ConservedChain(chain: seq<Entry>, repr: set<object>)
    requires NoDup(chain)
    ensures Conserved(Elems(chain), chain, [], {}, repr + Elems(chain))
  {
    NoDupElems(chain);
  }

  lemma ConservedEnds(head: Entry, tail: Entry, repr: set<object>)
    requires head != tail && head in repr && tail in repr
    ensures Conserved({head, tail}, [head, tail], [], {}, repr)
  {
    assert multiset({head, tail}) == multiset{head, tail};
  }

  lemma OnlyEnds(head: Entry, tail: Entry)
    requires head != tail && head.next == tail && tail.prev == head && head.data == tail.data == NULL
    ensures Chain([head, tail]) && Holds([head, tail], []) && MidOf([head, tail]) == null
  {
  }

  lemma InsertedHolds(s: seq<Entry>, c: seq<Ptr>, k: nat, x: Entry)
    requires Holds(s, c) && k <= |c|
    ensures Holds(Inserted(s, k + 1, x), Inserted(c, k, x.data))
  {
    var t, d := Inserted(s, k + 1, x), Inserted(c, k, x.data);
    forall i | 0 <= i < |d| ensures t[i + 1].data == d[i] {
      if i < k { assert d[i] == c[i]; } else if i > k { assert d[i] == c[i - 1]; }
    }
  }

  lemma RemovedHolds(s: seq<Entry>, c: seq<Ptr>, a: nat, b: nat)
    requires Holds(s, c) && a <= b <= |c|
    ensures Holds(s[..a + 1] + s[b + 1..], c[..a] + c[b..])
    ensures b == a + 1 ==> Holds(Removed(s, a + 1), Removed(c, a))
  {
    var t, d := s[..a + 1] + s[b + 1..], c[..a] + c[b..];
    forall i | 0 <= i < |d| ensures t[i + 1].data == d[i] {
      if i < a { assert d[i] == c[i]; } else { assert d[i] == c[i + b - a]; }
    }
  }

  lemma InsertedEnds<T>(s: seq<T>, k: nat, x: T)
    requires k <= |s|
    ensures var t := Inserted(s, k, x);
      |t| == |s| + 1 && (0 < k ==> t[0] == s[0]) && (k < |s| ==> t[|t| - 1] == s[|s| - 1])
  {
  }

  lemma RemovedEnds<T>(s: seq<T>, k: nat)
    requires k < |s|
    ensures var t := Removed(s, k);
      |t| == |s| - 1 && (0 < k ==> t[0] == s[0]) && (k < |s| - 1 ==> t[|t| - 1] == s[|s| - 1])
  {
  }

  lemma RemovedUpdated<T>(s: seq<T>, k: nat, x: T)
    requires k < |s|
    ensures Removed(s[k := x], k) == Removed(s, k)
  {
  }

  lemma MidAfterInsert(s: seq<Entry>, t: seq<Entry>, pos: nat, x: Entry)
    requires pos + 1 < |s| && t == Inserted(s, pos + 1, x) && Chain(t)
    ensures MidOf(t) ==
      if |t| == 3 then x
      else if |t| % 2 != 0 then if pos >= (|t| - 3) / 2 then MidOf(s).next else MidOf(s)
      else if pos <= (|t| - 3) / 2 then MidOf(s).prev else MidOf(s)
  {
    if |t| > 3 {
      var i := (|s| - 3) / 2 + 1;
      assert t[if i < pos + 1 then i else i + 1] == s[i] == MidOf(s);
    }
  }

  /** The middle of a chain is neither of its neighbours. */
  lemma NoDupPair(s: seq<Entry>, i: nat)
    requires Chain(s)
    ensures 0 < i && i + 1 < |s| ==> s[i - 1] != s[i] && s[i] != s[i + 1]
  {
  }

  lemma RemovedIsGone(s: seq<Entry>, k: nat)
    requires Chain(s) && 0 < k < |s| - 1
    ensures MidOf(Removed(s, k)) != s[k]
  {
  }

  lemma MidAfterRemove(s: seq<Entry>, pos: nat)
    requires pos + 2 < |s| && Chain(s)
    ensures MidOf(Removed(s, pos + 1)) ==
      if |s| == 3 then null
      else if |s| % 2 != 0 then if pos >= (|s| - 2) / 2 then MidOf(s).prev else MidOf(s)
      else if pos < (|s| - 2) / 2 then MidOf(s).next else MidOf(s)
  {
  }

  /** How many of n entries a pool of `spares` takes. */
  function Pooled(spares: nat, n: nat): (k: nat)
    ensures k <= n && (k > 0 ==> spares + k <= 5) && (k < n ==> spares + k >= 5)
  {
    if spares >= MAX_SPARE_ELEMS then 0 else if n <= MAX_SPARE_ELEMS - spares then n else MAX_SPARE_ELEMS - spares
  }

  ghost function PoolAfter(spare: seq<Entry>, gone: seq<Entry>): seq<Entry> {
    spare + gone[..Pooled(|spare|, |gone|)]
  }

  ghost function FreedAfter(freed: set<Entry>, spare: seq<Entry>, gone: seq<Entry>): (f: set<Entry>)
    ensures freed <= f
  {
    freed + Elems(gone[Pooled(|spare|, |gone|)..])
  }

  /** Entries may be discarded one by one. */
  lemma DiscardedOneMore(spare: seq<Entry>, freed: set<Entry>, gone: seq<Entry>, x: Entry)
    ensures PoolAfter(PoolAfter(spare, gone), [x]) == PoolAfter(spare, gone + [x])
    ensures FreedAfter(FreedAfter(freed, spare, gone), PoolAfter(spare, gone), [x]) == FreedAfter(freed, spare, gone + [x])
  {
    var k := Pooled(|spare|, |gone|);
    var all := gone + [x];
    if |PoolAfter(spare, gone)| < MAX_SPARE_ELEMS {
      assert k == |gone| && all[..k + 1] == gone[..k] + [x] && all[k + 1..] == [] && [x][1..] == [];
    } else {
      assert all[..k] == gone[..k] && all[k..] == gone[k..] + [x];
    }
  }

  lemma DiscardedNone(spare: seq<Entry>, freed: set<Entry>)
    ensures PoolAfter(spare, []) == spare && FreedAfter(freed, spare, []) == freed
  {
  }

  lemma NextInChain(c: seq<Entry>, i: nat)
    requires Chain(c) && i + 1 < |c|
    ensures c[i].next == c[i + 1] && c[i + 1].prev == c[i]
  {
  }

  lemma OnlyLast(c: seq<Entry>, i: nat)
    requires Chain(c) && i < |c| && c[i] == c[|c| - 1]
    ensures i == |c| - 1
  {
  }

  lemma InRepr(all: set<Entry>, chain: seq<Entry>, spare: seq<Entry>, freed: set<Entry>, repr: set<object>, i: nat)
    requires Conserved(all, chain, spare, freed, repr) && i < |chain|
    ensures chain[i] in repr
  {
  }

  lemma AllInRepr(all: set<Entry>, chain: seq<Entry>, spare: seq<Entry>, freed: set<Entry>, repr: set<object>)
    requires Conserved(all, chain, spare, freed, repr)
    ensures forall e :: e in chain ==> e in repr
  {
  }

  lemma NothingRemoved(c: seq<Entry>, a: nat)
    requires a <= |c|
    ensures c[..a] + c[a..] == c && c[a..a] == []
  {
  }

  /** The first entry of the rest of a chain is taken out. */
  lemma FirstRemoved(c: seq<Entry>, a: nat, i: nat)
    requires a <= i < |c|
    ensures Removed(c[..a] + c[i..], a) == c[..a] + c[i + 1..] && c[a..i + 1] == c[a..i] + [c[i]]
  {
  }

  /** A walk has come to place `limit`, unless that is negative, or to where the links disagree. */
  ghost predicate Stopped(s: seq<Entry>, i: int, limit: int)
    requires s != []
    reads s, s[|s| - 1].next
  {
    var e := s[|s| - 1];
    && (0 <= limit ==> i <= limit)
    && ((0 <= limit && i == limit) || e.next == null || e.next.prev != e)
  }

  /** A chain is the only way to follow the links from its first entry to an end. */
  lemma {:induction false} OnlyWalk(t: seq<Entry>, u: seq<Entry>, n: nat)
    requires t != [] && Chain(u) && u != [] && t[0] == u[0] && u[|u| - 1].next == null && n <= |t|
    requires forall i {:trigger t[i].next} :: 0 <= i < |t| - 1 ==> t[i].next == t[i + 1]
    ensures n <= |u| && t[..n] == u[..n]
  {
    if n > 1 {
      OnlyWalk(t, u, n - 1);
      assert t[n - 2] == t[..n - 1][n - 2] == u[..n - 1][n - 2] == u[n - 2];
      assert t[n - 2].next == t[n - 1];
      assert t[..n] == t[..n - 1] + [t[n - 1]] && u[..n] == u[..n - 1] + [u[n - 1]];
    } else if n == 1 {
      assert t[..1] == [t[0]] && u[..1] == [u[0]];
    }
  }

  /** Walking along the chain `u` leads to place `limit`, or to its end. */
  lemma WalkAlong(s: seq<Entry>, u: seq<Entry>, i: int, limit: int)
    requires Chain(s) && |s| == i + 2 && s != [] && Stopped(s, i, limit)
    requires Chain(u) && limit <= |u| - 2 && u != [] && s[0] == u[0] && u[|u| - 1].next == null
    ensures i == (if 0 <= limit then limit else |u| - 2) && s[|s| - 1] == u[i + 1]
  {
    OnlyWalk(s, u, |s|);
    assert s[|s| - 1] == u[..|s|][|s| - 1] == u[i + 1];
    if i + 2 < |u| { NextInChain(u, i + 1); }
  }

  lemma {:induction false} NoDupSize(t: seq<Entry>, es: set<Entry>)
    requires NoDup(t) && Elems(t) <= es
    ensures |t| <= |es|
  {
    NoDupElems(t);
    assert |multiset(Elems(t))| == |t|;
    Subset(Elems(t), es);
  }

  lemma {:induction false} Subset(a: set<Entry>, b: set<Entry>)
    requires a <= b
    ensures |a| <= |b|
  {
    if a != {} {
      var x :| x in a;
      Subset(a - {x}, b - {x});
    }
  }

  /** As every back link is right, the next entry is none of those passed. */
  lemma LinkedOn(s: seq<Entry>, x: Entry, es: set<Entry>)
    requires Chain(s) && s != [] && s[0].prev == null && s[|s| - 1].next == x && x.prev == s[|s| - 1]
    requires Elems(s) <= es && x in es
    ensures Chain(s + [x]) && Elems(s + [x]) <= es && |s| + 1 <= |es|
  {
    forall k | 0 <= k < |s| ensures s[k] != x {
      if k > 0 { assert s[k].prev == s[k - 1] != s[|s| - 1]; }
    }
    NoDupSize(s + [x], es);
  }

  class List {
    var headSentinel: Entry
    var tailSentinel: Entry
    var mid: Entry?
    var numels: nat
    var spareels: array<Entry?>
    var spareelsnum: nat
    var iterActive: bool
    var iterPos: nat
    var iterCurentry: Entry?
    var comparator: CmpOption

    ghost var chain: seq<Entry>
    ghost var contents: seq<Ptr>
    ghost var spare: seq<Entry>
    ghost var freed: set<Entry>
    ghost var allocd: set<Entry>
    ghost var Repr: set<object>

    ghost predicate Links()
      reads `chain, `contents, `headSentinel, `tailSentinel, chain
    {
      && Chain(chain) && Holds(chain, contents)
      && chain[0] == headSentinel && chain[|chain| - 1] == tailSentinel
      && headSentinel.prev == null && tailSentinel.next == null
    }

    ghost predicate Shape()
      reads `chain, `contents, `numels, `headSentinel, `tailSentinel, `mid, chain
    {
      Links() && |chain| == numels + 2 && |contents| == numels && mid == MidOf(chain)
    }

    ghost predicate Pool()
      reads `spareels, `spareelsnum, `spare, spareels
    {
      && spareels.Length == MAX_SPARE_ELEMS
      && spareelsnum == |spare| <= MAX_SPARE_ELEMS
      && (forall i {:trigger spare[i]} :: 0 <= i < |spare| ==> spareels[i] == spare[i])
    }

    ghost predicate Iter()
      reads `chain, `iterActive, `iterPos, `iterCurentry
    {
      iterActive ==> iterPos < |chain| && iterCurentry == if iterPos + 1 < |chain| then chain[iterPos + 1] else null
    }

    /** Neither the iteration nor the comparator has changed. */
    twostate predicate SameModes()
      reads `iterActive, `iterPos, `comparator
    {
      iterActive == old(iterActive) && iterPos == old(iterPos) && comparator == old(comparator)
    }

    /** Every entry ever allocated or freed is still on record, and only new ones have been added. */
    twostate predicate Remembers()
      reads `allocd, `freed
    {
      old(allocd) <= allocd && old(freed) <= freed && fresh(allocd - old(allocd))
    }

    /** `x` has come out of the pool or, when the pool was empty, is new. */
    twostate predicate Recruits(new x: Entry)
      reads `allocd, `freed, `spare
    {
      && freed == old(freed)
      && if old(spare) != [] then old(spare) == spare + [x] && allocd == old(allocd)
         else spare == [] && fresh(x) && allocd == old(allocd) + {x}
    }

    /** The entries `gone` fill the pool as far as it goes, the others are freed. */
    twostate predicate Discards(new gone: seq<Entry>)
      reads `allocd, `freed, `spare
    {
      && allocd == old(allocd)
      && spare == PoolAfter(old(spare), gone) && freed == FreedAfter(old(freed), old(spare), gone)
    }

    /** All that has to hold of a list except that the middle entry is the one cached. */
    ghost predicate Intact()
      reads this, Repr
    {
      && this in Repr && spareels in Repr
      && Conserved(allocd, chain, spare, freed, Repr)
      && Links() && |chain| == numels + 2 && |contents| == numels && Pool() && Iter()
    }

    /** What `list_repOk` checks, plus what it cannot see: elements, spare entries, conservation. */
    ghost predicate Valid()
      reads this, Repr
    {
      && this in Repr && spareels in Repr
      && Conserved(allocd, chain, spare, freed, Repr)
      && Shape() && Pool() && Iter()
    }

    /** What list_repOk looks for: entries linked both ways from sentinel to sentinel, as many as
        counted, and the middle one cached. */
    ghost predicate RepresentedBy(s: seq<Entry>)
      reads this, s
    {
      && Chain(s) && |s| == numels + 2 && s[0] == headSentinel && s[|s| - 1] == tailSentinel
      && headSentinel.prev == null && tailSentinel.next == null
      && mid == MidOf(s) && spareelsnum <= MAX_SPARE_ELEMS
    }

    lemma RepresentedEnds(t: seq<Entry>)
      requires RepresentedBy(t)
      ensures headSentinel != tailSentinel
      ensures numels == 0 ==> mid == null && headSentinel.next == tailSentinel && tailSentinel.prev == headSentinel
    {
      NextInChain(t, 0);
    }

    /** The walk failed: it stopped before the middle, or reached another entry than the cached one. */
    lemma MidWrong(s: seq<Entry>, i: int)
      requires numels > 0 && Chain(s) && |s| == i + 2 && s != [] && s[0] == headSentinel && Stopped(s, i, (numels - 1) / 2)
      requires i != (numels - 1) / 2 || mid != s[|s| - 1]
      ensures forall t: seq<Entry> {:trigger RepresentedBy(t)} :: !RepresentedBy(t)
    {
      forall t: seq<Entry> | RepresentedBy(t) ensures false {
        WalkAlong(s, t, i, (numels - 1) / 2);
      }
    }

    /** The walk failed: it stopped before the tail sentinel, or after another number of entries. */
    lemma TailWrong(s: seq<Entry>, i: int)
      requires Chain(s) && |s| == i + 2 && s != [] && s[0] == headSentinel && Stopped(s, i, -1)
      requires i != numels || s[|s| - 1] != tailSentinel
      ensures forall t: seq<Entry> {:trigger RepresentedBy(t)} :: !RepresentedBy(t)
    {
      forall t: seq<Entry> | RepresentedBy(t) ensures false {
        WalkAlong(s, t, i, -1);
      }
    }

    /** The links of a list do not lead out of its chain, so list_repOk may be called on it. */
    lemma ChainClosed()
      requires Links()
      ensures headSentinel in Elems(chain)
      ensures forall e {:trigger e.next} :: e in Elems(chain) && e.next != null ==> e.next in Elems(chain)
    {
      forall e {:trigger e.next} | e in Elems(chain) && e.next != null ensures e.next in Elems(chain) {
        var i :| 0 <= i < |chain| && chain[i] == e;
        if i + 1 < |chain| { NextInChain(chain, i); }
      }
    }

    /** list_repOk, on any links whatsoever: `es` are entries the links do not lead out of. It decides
        whether the links, the count and the middle are those of some chain of entries. */
    method RepOk(ghost es: set<Entry>) returns (ok: bool, ghost s: seq<Entry>)
      requires headSentinel in es && forall e {:trigger e.next} :: e in es && e.next != null ==> e.next in es
      requires numels < 0x8000_0000
      ensures ok ==> RepresentedBy(s)
      ensures !ok ==> forall t: seq<Entry> {:trigger RepresentedBy(t)} :: !RepresentedBy(t)
      ensures Shape() && Pool() ==> ok
    {
      s := [headSentinel];
      assert Shape() && Pool() ==> RepresentedBy(chain);
      ok := headSentinel != tailSentinel && headSentinel.prev == null && tailSentinel.next == null
        && (numels > 0 || (mid == null && headSentinel.next == tailSentinel && tailSentinel.prev == headSentinel))
        && spareelsnum <= MAX_SPARE_ELEMS;
      if !ok {
        forall t: seq<Entry> | RepresentedBy(t) ensures false { RepresentedEnds(t); }
        return;
      }
      if numels == 0 {
        s := [headSentinel, tailSentinel];
      } else {
        var e, i;
        e, i, s := Walk(headSentinel, -1, (numels - 1) / 2, s, es);
        ok := i == (numels - 1) / 2 && mid == e;
        if !ok {
          MidWrong(s, i);
          assert !RepresentedBy(chain);
          return;
        }
        ghost var half := s;
        e, i, s := Walk(e, i, -1, s, es);
        ok := i == numels && e == tailSentinel;
        if ok {
          assert MidOf(s) == half[|half| - 1];
        } else {
          TailWrong(s, i);
          assert !RepresentedBy(chain);
        }
      }
    }

    /** The assertion that ends every operation of the library never fails. */
    method AssertRep() returns (ok: bool)
      requires Valid() && numels < 0x8000_0000
      ensures ok
    {
      hide Chain, Holds, NoDup, Conserved, Stopped;
      ChainClosed();
      ghost var s;
      ok, s := RepOk(Elems(chain));
    }

    /** Either loop of list_repOk: on as long as the links agree, to place `limit` unless that is negative. */
    method Walk(e0: Entry, i0: int, limit: int, ghost s0: seq<Entry>, ghost es: set<Entry>)
      returns (e: Entry, i: int, ghost s: seq<Entry>)
      requires Chain(s0) && |s0| == i0 + 2 && s0 != [] && s0[0].prev == null && e0 == s0[|s0| - 1]
      requires Elems(s0) <= es
      requires forall x {:trigger x.next} :: x in es && x.next != null ==> x.next in es
      requires limit < 0 || i0 <= limit
      ensures Chain(s) && s0 <= s && |s| == i + 2 && e == s[|s| - 1] && Elems(s) <= es
      ensures Stopped(s, i, limit)
    {
      e, i, s := e0, i0, s0;
      NoDupSize(s, es);
      while (limit < 0 || i < limit) && e.next != null && e.next.prev == e
        invariant Chain(s) && s0 <= s && |s| == i + 2 && e == s[|s| - 1] && Elems(s) <= es
        invariant 0 <= limit ==> i <= limit
        invariant |s| <= |es|
        decreases |es| - |s|
      {
        LinkedOn(s, e.next, es);
        e, i, s := e.next, i + 1, s + [e.next];
      }
    }

    /** list_init */
    constructor ()
      ensures Valid() && fresh(Repr) && contents == [] && !iterActive && comparator == Unset
      ensures spare == [] && freed == {} && headSentinel != tailSentinel && headSentinel in Repr && tailSentinel in Repr
      ensures headSentinel.prev == null && tailSentinel.next == null
      ensures headSentinel.data == NULL && tailSentinel.data == NULL
    {
      hide Conserved, Chain, Holds, MidOf, NoDup;
      var h := new Entry();
      var t := new Entry();
      headSentinel, tailSentinel := h, t;
      mid, numels := null, 0;
      iterActive, iterPos, iterCurentry := false, 0, null;
      spareelsnum, comparator := 0, Unset;
      var pool := new Entry?[MAX_SPARE_ELEMS](_ => null);
      spareels := pool;
      chain, contents, spare, freed, allocd := [h, t], [], [], {}, {h, t};
      Repr := {this, h, t, pool};
      new;
      headSentinel.next := tailSentinel;
      tailSentinel.prev := headSentinel;
      ConservedEnds(h, t, Repr);
      OnlyEnds(h, t);
    }

    /** list_attributes_comparator */
    method SetComparator(cmp: CmpOption)
      requires Valid()
      modifies `comparator
      ensures Valid() && comparator == cmp
    {
      comparator := cmp;
    }

    method IteratorStart() returns (r: int)
      requires Valid()
      modifies `iterPos, `iterActive, `iterCurentry
      ensures Valid() && iterActive
      ensures r == if old(iterActive) then 0 else 1
      ensures iterPos == if old(iterActive) then old(iterPos) else 0
    {
      if iterActive { return 0; }
      iterPos := 0;
      iterActive := true;
      iterCurentry := headSentinel.next;
      return 1;
    }

    /** One step of an iteration. The step behind the last element yields the tail sentinel's null
        pointer; the step after that dereferences it. */
    method IteratorNext() returns (crashed: bool, data: Ptr)
      requires Valid()
      modifies `iterPos, `iterCurentry
      ensures Valid() && (crashed <==> iterActive && old(iterPos) > numels)
      ensures iterPos == if iterActive && !crashed then old(iterPos) + 1 else old(iterPos)
      ensures data == if iterActive && old(iterPos) < numels then contents[old(iterPos)] else NULL
    {
      if !iterActive { return false, NULL; }
      if iterCurentry == null { return true, NULL; }
      assert iterPos < numels ==> iterCurentry.data == contents[iterPos];
      crashed, data := false, iterCurentry.data;
      iterCurentry := iterCurentry.next;
      iterPos := iterPos + 1;
    }

    method IteratorHasNext() returns (r: bool)
      requires Valid()
      ensures r == (iterActive && iterPos < numels)
    {
      if !iterActive { return false; }
      return iterPos < numels;
    }

    method IteratorStop() returns (r: int)
      requires Valid()
      modifies `iterPos, `iterActive
      ensures Valid() && !iterActive && r == if old(iterActive) then 1 else 0
      ensures iterPos == if old(iterActive) then 0 else old(iterPos)
    {
      if !iterActive { return 0; }
      iterPos := 0;
      iterActive := false;
      return 1;
    }

    /** list_findpos walks from the nearest of head, mid and tail, by the quarter of the quotient
        (pos+1)/numels, and stays at the middle when that puts it on the wrong side. */
    method FindPos(pos: int) returns (ptr: Entry?, ghost steps: nat)
      requires Shape()
      ensures ptr == if -1 <= pos <= numels then chain[Landing(pos, numels) + 1] else null
      ensures numels <= MAX_EXACT ==> steps <= numels / 4 + 1
    {
      hide QuarterOf, NoDup, Holds, Chain, Landing, Astray, MidOf;
      if pos < -1 || pos > numels { return null, 0; }
      LandingIs(pos, numels);
      MidIs(chain);
      if numels <= MAX_EXACT { QuarterIsNear(pos, numels); }
      match QuarterOf(pos + 1, numels)
      case First => ptr, steps := WalkOn(headSentinel, -1, pos, chain);
      case Second => ptr, steps := WalkBack(mid, (numels - 1) / 2, pos, chain);
      case Third => ptr, steps := WalkOn(mid, (numels - 1) / 2, pos, chain);
      case Fourth => ptr, steps := WalkBack(tailSentinel, numels, pos, chain);
    }

    method GetAt(pos: nat) returns (data: Ptr)
      requires Valid()
      ensures data == if pos < |contents| then contents[Landing(pos, numels)] else NULL
    {
      hide Landing, Astray, NoDup, MidOf, Conserved;
      EndsNeverAstray(numels);
      var tmp, _ := FindPos(pos);
      if tmp != null {
        assert pos < |contents| ==> tmp.data == contents[Landing(pos, numels)];
        return tmp.data;
      }
      return NULL;
    }

    /** The last spare entry, or a new one. */
    method TakeEntry() returns (lent: Entry)
      requires Pool() && Conserved(allocd, chain, spare, freed, Repr)
      modifies `spareelsnum, `spare, `Repr, `allocd
      ensures Pool() && Conserved(allocd, chain, spare + [lent], freed, Repr)
      ensures old(Repr) <= Repr && fresh(Repr - old(Repr)) && (lent in old(Repr) || fresh(lent))
      ensures Recruits(lent)
    {
      if spareelsnum > 0 {
        assert spareels[spareelsnum - 1] == spare[spareelsnum - 1];
        lent := spareels[spareelsnum - 1];
        spareelsnum := spareelsnum - 1;
        spare := spare[..|spare| - 1];
        assert old(spare) == spare + [lent];
      } else {
        lent := new Entry();
        ConservedNew(allocd, chain, spare, freed, Repr, lent);
        Repr := Repr + {lent};
        allocd := allocd + {lent};
      }
    }

    method PushSpare(tmp: Entry)
      requires Pool() && spareelsnum < MAX_SPARE_ELEMS && Conserved(allocd, chain, spare + [tmp], freed, Repr)
      modifies `spareelsnum, `spare, spareels
      ensures Pool() && Conserved(allocd, chain, spare, freed, Repr) && spare == old(spare) + [tmp]
    {
      spareels[spareelsnum] := tmp;
      spareelsnum := spareelsnum + 1;
      spare := spare + [tmp];
    }

    method FreeEntry(tmp: Entry)
      requires Conserved(allocd, chain, spare + [tmp], freed, Repr)
      modifies `freed, `Repr
      ensures Conserved(allocd, chain, spare, freed, Repr)
      ensures Repr == old(Repr) - {tmp} && freed == old(freed) + {tmp}
    {
      ConservedFree(allocd, chain, spare, freed, Repr, tmp);
      freed := freed + {tmp};
      Repr := Repr - {tmp};
    }

    /** Keep an unlinked entry as a spare, or free it when the pool is full. */
    method ReleaseEntry(tmp: Entry)
      requires Pool() && Conserved(allocd, chain, spare + [tmp], freed, Repr)
      modifies `spareelsnum, `spare, `Repr, `freed, spareels
      ensures Pool() && Conserved(allocd, chain, spare, freed, Repr) && Discards([tmp])
      ensures Repr == old(Repr) || Repr == old(Repr) - {tmp}
    {
      if spareelsnum < MAX_SPARE_ELEMS {
        PushSpare(tmp);
      } else {
        FreeEntry(tmp);
      }
    }

    /** The new entry goes to place k, which is `pos` unless the search for the one before goes astray. */
    method Splice(lent: Entry, pos: nat, ghost k: nat)
      requires Shape() && lent !in chain && pos <= numels && k == Landing(pos - 1, numels) + 1
      modifies `numels, `chain, `contents, chain, lent
      ensures Links() && numels == |contents|
      ensures contents == Inserted(old(contents), k, old(lent.data))
      ensures chain == Inserted(old(chain), k + 1, lent)
    {
      hide Landing, Astray, Chain, Holds, NoDup, MidOf, Inserted;
      var prec, _ := FindPos(pos - 1);
      NextInChain(chain, k);
      InsertedEnds(chain, k + 1, lent);
      InsertedEnds(contents, k, lent.data);
      LinkAfter(prec, lent, chain, k + 1);
      numels := numels + 1;
      InsertedHolds(chain, contents, k, lent);
      chain := Inserted(chain, k + 1, lent);
      contents := Inserted(contents, k, lent.data);
    }

    /** The middle is right again exactly when the entry is where it should be. */
    method FixMidAfterInsert(lent: Entry, pos: nat, ghost was: seq<Entry>, ghost k: nat)
      requires Links() && numels == |contents| && mid == MidOf(was)
      requires pos < numels && k == Landing(pos - 1, numels - 1) + 1 && |was| == numels + 1 && chain == Inserted(was, k + 1, lent)
      modifies `mid
      ensures mid == MidOf(chain) <==> k == pos
    {
      hide QuarterOf;
      MidAfterInsert(was, chain, k, lent);
      NoDupPair(chain, (numels - 1) / 2 + 1);
      if numels == 1 {
        mid := lent;
      } else if numels % 2 != 0 {
        if pos >= (numels - 1) / 2 { mid := mid.next; }
      } else {
        if pos <= (numels - 1) / 2 { mid := mid.prev; }
      }
    }

    method InsertEntry(lent: Entry, data: Ptr, pos: nat, ghost k: nat)
      requires Shape() && lent !in chain && pos <= numels && k == Landing(pos - 1, numels) + 1
      modifies `mid, `numels, `chain, `contents, chain, lent
      ensures Links() && |chain| == numels + 2 && |contents| == numels && (mid == MidOf(chain) <==> k == pos)
      ensures contents == Inserted(old(contents), k, data)
      ensures chain == Inserted(old(chain), k + 1, lent) && k + 1 < |chain| && chain[k + 1] == lent
    {
      hide Landing, Astray;
      lent.data := data;
      ghost var was := chain;
      Splice(lent, pos, k);
      FixMidAfterInsert(lent, pos, was, k);
    }

    /** list_insert_at, for lists that do not copy their elements. The new element goes behind the
        place where the search for pos-1 ends; when that has gone astray, which takes more than 2^24
        elements, the list is left with a wrong middle. */
    method InsertAt(data: Ptr, pos: nat) returns (r: int)
      requires Valid()
      modifies Repr
      ensures Intact() && fresh(Repr - old(Repr)) && SameModes() && Remembers()
      ensures r == if !old(iterActive) && pos <= old(numels) then 1 else -1
      ensures r == -1 ==> unchanged(this) && unchanged(Repr)
      ensures r == 1 ==> (mid == MidOf(chain) <==> !Astray(pos - 1, old(numels)))
      ensures r == 1 ==> var k := Landing(pos - 1, old(numels)) + 1;
        && contents == Inserted(old(contents), k, data)
        && k + 1 < |chain| && chain == Inserted(old(chain), k + 1, chain[k + 1]) && Recruits(chain[k + 1])
    {
      hide Chain, Holds, NoDup, Pool, MidOf, Inserted, Conserved, Landing, Astray;
      if iterActive || pos > numels { return -1; }
      ghost var k := Landing(pos - 1, numels) + 1;
      var lent := TakeEntry();
      AllInRepr(allocd, chain, spare + [lent], freed, Repr);
      ConservedSpare(allocd, chain, spare, freed, Repr, lent);
      ConservedInsert(allocd, chain, spare, freed, Repr, k + 1, lent);
      InsertEntry(lent, data, pos, k);
      return 1;
    }

    method Append(data: Ptr) returns (r: int)
      requires Valid()
      modifies Repr
      ensures Valid() && fresh(Repr - old(Repr)) && SameModes() && Remembers()
      ensures r == if old(iterActive) then -1 else 1
      ensures r == -1 ==> unchanged(this) && unchanged(Repr)
      ensures r == 1 ==> contents == old(contents) + [data] && |chain| > 2 && Recruits(chain[|chain| - 2])
    {
      hide Chain, Holds, NoDup, Pool, MidOf, Landing, Astray;
      EndsNeverAstray(numels);
      r := InsertAt(data, numels);
    }

    method Prepend(data: Ptr) returns (r: int)
      requires Valid()
      modifies Repr
      ensures Valid() && fresh(Repr - old(Repr)) && SameModes() && Remembers()
      ensures r == if old(iterActive) then -1 else 1
      ensures r == -1 ==> unchanged(this) && unchanged(Repr)
      ensures r == 1 ==> contents == [data] + old(contents) && |chain| > 2 && Recruits(chain[1])
    {
      hide Chain, Holds, NoDup, Pool, MidOf, Landing, Astray;
      EndsNeverAstray(numels);
      r := InsertAt(data, 0);
    }

    /** `k` is the place of the entry that goes, `pos` where it should be. */
    method FixMidBeforeRemove(pos: nat, ghost k: nat)
      requires Shape() && pos < numels && k == Landing(pos, numels)
      modifies `mid
      ensures mid == MidOf(Removed(chain, k + 1)) <==> k == pos || numels % 2 == 0
    {
      hide QuarterOf;
      MidAfterRemove(chain, k);
      RemovedIsGone(chain, k + 1);
      if numels % 2 != 0 {
        if numels == 1 {
          mid := null;
        } else if pos >= numels / 2 {
          mid := mid.prev;
        }
      } else {
        if pos < numels / 2 { mid := mid.next; }
      }
    }

    method DetachEntry(tmp: Entry, pos: nat, ghost k: nat)
      requires Shape() && pos < numels && k == Landing(pos, numels) && tmp == chain[k + 1]
      modifies `mid, `chain, `contents, chain`next, chain`prev
      ensures Links() && |chain| == numels + 1 && |contents| == numels - 1
      ensures mid == MidOf(chain) <==> k == pos || numels % 2 == 0
      ensures contents == Removed(old(contents), k)
      ensures chain == Removed(old(chain), k + 1)
    {
      hide NoDup, MidOf, Chain, Holds, Removed, Landing, Astray;
      NextInChain(chain, k);
      NextInChain(chain, k + 1);
      FixMidBeforeRemove(pos, k);
      Unlink(tmp, chain, k + 1);
      RemovedHolds(chain, contents, k, k + 1);
      RemovedEnds(chain, k + 1);
      RemovedEnds(contents, k);
      contents := Removed(contents, k);
      chain := Removed(chain, k + 1);
    }

    /** list_drop_elem; the caller takes the element out of the count. */
    method DropElem(tmp: Entry, pos: nat, ghost k: nat)
      requires Valid() && pos < numels && k == Landing(pos, numels) && tmp == chain[k + 1]
      modifies Repr
      ensures Repr <= old(Repr) && this in Repr && spareels in Repr && Conserved(allocd, chain, spare, freed, Repr)
      ensures Links() && Pool() && numels == old(numels) == |contents| + 1 == |chain| - 1
      ensures mid == MidOf(chain) <==> k == pos || numels % 2 == 0
      ensures SameModes()
      ensures contents == Removed(old(contents), k) && chain == Removed(old(chain), k + 1) && Discards([tmp])
    {
      hide Chain, Holds, NoDup, Pool, MidOf, Removed, PoolAfter, FreedAfter, Conserved, Landing, Astray;
      AllInRepr(allocd, chain, spare, freed, Repr);
      ConservedRemove(allocd, chain, spare, freed, Repr, k + 1);
      DetachEntry(tmp, pos, k);
      ReleaseEntry(tmp);
    }

    /** list_delete_at. The element at the place where the search ends goes; when that is not `pos`
        and the count is odd, the middle pointer is left at the entry removed. */
    method DeleteAt(pos: nat) returns (r: int)
      requires Valid()
      modifies Repr
      ensures Intact() && fresh(Repr - old(Repr)) && SameModes() && Remembers()
      ensures r == if !old(iterActive) && pos < old(numels) then 0 else -1
      ensures r == -1 ==> unchanged(this) && unchanged(Repr)
      ensures r == 0 ==> (mid == MidOf(chain) <==> !Astray(pos, old(numels)) || old(numels) % 2 == 0)
      ensures r == 0 ==> var k := Landing(pos, old(numels));
        && contents == Removed(old(contents), k)
        && chain == Removed(old(chain), k + 1) && Discards([old(chain)[k + 1]])
    {
      hide Landing, Astray, Chain, Holds, NoDup, MidOf, Removed, PoolAfter, FreedAfter, Pool, Conserved;
      if iterActive || pos >= numels { return -1; }
      var delendo, _ := FindPos(pos);
      DropElem(delendo, pos, Landing(pos, numels));
      numels := numels - 1;
      return 0;
    }

    /** list_extract_at */
    method ExtractAt(pos: nat) returns (data: Ptr)
      requires Valid()
      modifies Repr
      ensures Intact() && fresh(Repr - old(Repr)) && SameModes() && Remembers()
      ensures old(iterActive) || pos >= old(numels) ==> data == NULL && unchanged(this) && unchanged(Repr)
      ensures !old(iterActive) && pos < old(numels) ==> var k := Landing(pos, old(numels));
        && (mid == MidOf(chain) <==> !Astray(pos, old(numels)) || old(numels) % 2 == 0)
        && data == old(contents)[k] && contents == Removed(old(contents), k)
        && chain == Removed(old(chain), k + 1) && Discards([old(chain)[k + 1]])
    {
      hide NoDup, Chain, Holds, MidOf, PoolAfter, FreedAfter, Pool, Removed, Conserved, Landing, Astray;
      if iterActive || pos >= numels { return NULL; }
      var tmp, _ := FindPos(pos);
      ghost var k := Landing(pos, numels);
      InRepr(allocd, chain, spare, freed, Repr, k + 1);
      data := TakeData(tmp, k);
      RemovedUpdated(old(contents), k, NULL);
      DropElem(tmp, pos, k);
      numels := numels - 1;
    }

    method TakeData(tmp: Entry, ghost pos: nat) returns (data: Ptr)
      requires Valid() && pos < numels && tmp == chain[pos + 1]
      modifies `contents, tmp`data
      ensures Valid() && data == old(contents)[pos] && contents == old(contents)[pos := NULL]
    {
      hide MidOf, Conserved;
      data := tmp.data;
      assert data == contents[pos];
      tmp.data := NULL;
      contents := contents[pos := NULL];
    }

    /** First loop of list_clear: keep entries as spares while there is room. */
    method FillPool() returns (s: Entry, ghost i: nat)
      requires Valid()
      modifies `spareelsnum, `spare, `chain, spareels
      ensures Pool() && Conserved(allocd, chain, spare, freed, Repr)
      ensures 1 <= i < |old(chain)| && s == old(chain)[i] && chain == old(chain)[..1] + old(chain)[i..]
      ensures spare == old(spare) + old(chain)[1..i] && i - 1 == Pooled(|old(spare)|, |old(chain)| - 2)
    {
      hide NoDup, Holds, MidOf, Conserved, Chain;
      ghost var c := chain;
      NextInChain(c, 0);
      i := 1;
      s := headSentinel.next;
      while spareelsnum < MAX_SPARE_ELEMS && s != tailSentinel
        invariant 1 <= i < |c| && s == c[i] && chain == c[..1] + c[i..] && Chain(c)
        invariant Pool() && Conserved(allocd, chain, spare, freed, Repr) && spare == old(spare) + c[1..i]
        decreases |c| - i
      {
        s := SpareFirst(s, c, i);
        i := i + 1;
      }
      if s == tailSentinel { OnlyLast(c, i); }
    }

    method SpareFirst(s0: Entry, ghost c: seq<Entry>, ghost i: nat) returns (s: Entry)
      requires Pool() && Conserved(allocd, chain, spare, freed, Repr) && spareelsnum < MAX_SPARE_ELEMS
      requires Chain(c) && 1 <= i < |c| - 1 && s0 == c[i] && chain == c[..1] + c[i..]
      modifies `spareelsnum, `spare, `chain, spareels
      ensures Pool() && Conserved(allocd, chain, spare, freed, Repr)
      ensures chain == c[..1] + c[i + 1..] && spare == old(spare) + [c[i]] && s == c[i + 1]
    {
      hide NoDup, Chain, Conserved, Removed, Pool;
      ConservedRemove(allocd, chain, spare, freed, Repr, 1);
      FirstRemoved(c, 1, i);
      NextInChain(c, i);
      chain := Removed(chain, 1);
      PushSpare(s0);
      s := s0.next;
    }

    /** Second loop of list_clear: free the entries that remain. */
    method FreeRest(s0: Entry, ghost c: seq<Entry>, ghost i0: nat)
      requires this in Repr && spareels in Repr && Conserved(allocd, chain, spare, freed, Repr) && Chain(c)
      requires 1 <= i0 < |c| && s0 == c[i0] && chain == c[..1] + c[i0..] && tailSentinel == c[|c| - 1]
      modifies `Repr, `freed, `chain
      ensures Conserved(allocd, chain, spare, freed, Repr) && chain == [c[0], tailSentinel]
      ensures freed == old(freed) + Elems(c[i0..|c| - 1])
      ensures Repr <= old(Repr) && this in Repr && spareels in Repr
    {
      hide Conserved, Removed;
      var s: Entry, i := s0, i0;
      while s != tailSentinel
        invariant i0 <= i < |c| && s == c[i] && chain == c[..1] + c[i..]
        invariant Conserved(allocd, chain, spare, freed, Repr) && freed == old(freed) + Elems(c[i0..i])
        invariant Repr <= old(Repr) && this in Repr && spareels in Repr
        decreases |c| - i
      {
        ConservedRemove(allocd, chain, spare, freed, Repr, 1);
        FirstRemoved(c, 1, i);
        FirstRemoved(c, i0, i);
        chain, i := Removed(chain, 1), i + 1;
        s := s.next;
        FreeEntry(s.prev);
      }
    }

    method JoinSentinels()
      requires chain == [headSentinel, tailSentinel] && headSentinel != tailSentinel
      requires headSentinel.prev == null && tailSentinel.next == null
      requires headSentinel.data == NULL && tailSentinel.data == NULL
      modifies `numels, `mid, `contents, headSentinel`next, tailSentinel`prev
      ensures Shape() && contents == []
    {
      headSentinel.next := tailSentinel;
      tailSentinel.prev := headSentinel;
      numels := 0;
      mid := null;
      contents := [];
    }

    /** End of list_concat: `mid` is at the last entry of the first list (or the head sentinel). */
    method FixMidAfterConcat(n1: nat, n2: nat)
      requires Links() && |chain| == numels + 2 && |contents| == numels == n1 + n2 > 0 && mid == chain[n1]
      modifies `mid
      ensures Shape()
    {
      var err := n2 - n1;
      var cnt := 0;
      if CDiv(err + 1, 2) > 0 {
        err := CDiv(err + 1, 2);
        while mid != null && cnt < err
          invariant 0 <= cnt <= err && mid == chain[n1 + cnt]
        {
          mid, cnt := mid.next, cnt + 1;
        }
      } else if CDiv(err, 2) < 0 {
        err := CDiv(-err, 2);
        while mid != null && cnt < err
          invariant 0 <= cnt <= err && mid == chain[n1 - cnt]
        {
          mid, cnt := mid.prev, cnt + 1;
        }
      }
    }

    /** list_clear */
    method Clear() returns (r: int)
      requires Valid()
      modifies Repr
      ensures Valid() && fresh(Repr - old(Repr)) && SameModes() && Remembers()
      ensures r == if old(iterActive) then -1 else 0
      ensures r == -1 ==> unchanged(this) && unchanged(Repr)
      ensures r == 0 ==> contents == [] && Discards(old(chain)[1..|old(chain)| - 1])
    {
      if iterActive { return -1; }
      assert chain[0] in Repr && chain[|chain| - 1] in Repr && chain[0] != chain[|chain| - 1];
      ClearEntries();
      return 0;
    }

    method ClearEntries()
      requires Valid() && headSentinel in Repr && tailSentinel in Repr && headSentinel != tailSentinel
      requires headSentinel.data == NULL && tailSentinel.data == NULL
      modifies Repr
      ensures this in Repr && spareels in Repr && Conserved(allocd, chain, spare, freed, Repr)
      ensures Shape() && Pool() && Repr <= old(Repr) && SameModes() && contents == []
      ensures Discards(old(chain)[1..|old(chain)| - 1])
    {
      hide Conserved, NoDup, MidOf, Holds, Chain, Pool, Pooled, Elems;
      ghost var c := chain;
      var s, i := FillPool();
      FreeRest(s, c, i);
      assert c[1..|c| - 1][..i - 1] == c[1..i] && c[1..|c| - 1][i - 1..] == c[i..|c| - 1];
      JoinSentinels();
    }

    /** The mid pointer walks `moves` entries to the right, or to the left when negative; going on
        from beyond a sentinel dereferences the null pointer. */
    method MoveMid(moves: int) returns (ok: bool)
      requires Shape() && numels > 0
      modifies `mid
      ensures var target := (numels - 1) / 2 + 1 + moves;
        && (0 <= target < |chain| ==> ok && mid == chain[target])
        && (target < -1 ==> !ok)
    {
      var i, k := 0, (numels - 1) / 2 + 1;
      if moves > 0 {
        while i < moves
          invariant 0 <= i <= moves && 0 <= k + i <= |chain|
          invariant mid == if k + i < |chain| then chain[k + i] else null
        {
          if mid == null { return false; }
          mid, i := mid.next, i + 1;
        }
      } else {
        while i < -moves
          invariant 0 <= i <= -moves && -1 <= k - i < |chain|
          invariant mid == if 0 <= k - i then chain[k - i] else null
        {
          if mid == null { return false; }
          mid, i := mid.prev, i + 1;
        }
      }
      return true;
    }

    /** The loop of list_delete_range over the entries that go. */
    method ReleaseRange(first: Entry, posstart: nat, posend: nat) returns (tmp: Entry)
      requires this in Repr && spareels in Repr && Conserved(allocd, chain, spare, freed, Repr)
      requires Pool() && Chain(chain) && posstart <= posend < |chain| - 2 && first == chain[posstart + 1]
      modifies `spareelsnum, `spare, `Repr, `freed, `chain, spareels
      ensures Pool() && Conserved(allocd, chain, spare, freed, Repr)
      ensures Repr <= old(Repr) && this in Repr && spareels in Repr
      ensures chain == old(chain)[..posstart + 1] + old(chain)[posend + 2..] && tmp == old(chain)[posend + 2]
      ensures Discards(old(chain)[posstart + 1..posend + 2])
    {
      hide NoDup, Holds, MidOf, Conserved, Removed, PoolAfter, FreedAfter, Chain, Pool;
      tmp := first;
      var i := posstart;
      ghost var c := chain;
      DiscardedNone(spare, freed);
      NothingRemoved(c, posstart + 1);
      while i <= posend
        invariant posstart <= i <= posend + 1 && tmp == c[i + 1]
        invariant chain == c[..posstart + 1] + c[i + 1..] && Discards(c[posstart + 1..i + 1])
        invariant Pool() && Conserved(allocd, chain, spare, freed, Repr)
        invariant Repr <= old(Repr) && this in Repr && spareels in Repr
      {
        FirstRemoved(c, posstart + 1, i + 1);
        DiscardedOneMore(old(spare), old(freed), c[posstart + 1..i + 1], tmp);
        var tmp2 := tmp;
        NextInChain(c, i + 1);
        tmp, i := tmp.next, i + 1;
        ReleaseNext(tmp2, c, posstart + 1, i);
      }
    }

    method ReleaseNext(tmp: Entry, ghost c: seq<Entry>, ghost a: nat, ghost i: nat)
      requires this in Repr && spareels in Repr && Conserved(allocd, chain, spare, freed, Repr) && Pool()
      requires a <= i < |c| && chain == c[..a] + c[i..] && tmp == c[i]
      modifies `spareelsnum, `spare, `Repr, `freed, `chain, spareels
      ensures Conserved(allocd, chain, spare, freed, Repr) && Pool() && Discards([tmp])
      ensures chain == c[..a] + c[i + 1..] && Repr <= old(Repr) && this in Repr && spareels in Repr
    {
      hide NoDup, Holds, MidOf, Conserved, PoolAfter, FreedAfter, Chain, Pool;
      ConservedRemove(allocd, chain, spare, freed, Repr, a);
      FirstRemoved(c, a, i);
      chain := Removed(chain, a);
      ReleaseEntry(tmp);
    }

    method JoinRange(lastvalid: Entry, tmp: Entry, posstart: nat, posend: nat, ghost c: seq<Entry>)
      requires Chain(c) && Holds(c, contents) && numels == |contents| == |c| - 2 && posstart <= posend < numels
      requires c[0] == headSentinel && c[numels + 1] == tailSentinel
      requires headSentinel.prev == null && tailSentinel.next == null
      requires lastvalid == c[posstart] && tmp == c[posend + 2]
      requires chain == c[..posstart + 1] + c[posend + 2..] && mid == MidOf(chain)
      modifies `numels, `contents, lastvalid`next, tmp`prev
      ensures Shape() && contents == old(contents)[..posstart] + old(contents)[posend + 1..]
    {
      hide NoDup, MidOf, Chain, Holds;
      Bridge(lastvalid, tmp, c, posstart + 1, posend + 2);
      RemovedHolds(c, contents, posstart, posend + 1);
      numels := numels - (posend - posstart + 1);
      contents := contents[..posstart] + contents[posend + 1..];
    }

    /** The pointer moves to the entry that will be in the middle, unless none will be left. */
    method SeatMid(posstart: nat, numdel: nat) returns (ok: bool)
      requires Shape() && numels <= MAX_EXACT && 0 < numdel && posstart + numdel <= numels
      modifies `mid
      ensures ok <==> numdel < numels
      ensures ok ==> mid == MidOf(chain[..posstart + 1] + chain[posstart + numdel + 1..])
    {
      hide MidMoves, NoDup, Holds, Chain;
      MidMovesTarget(numels, posstart, numdel);
      ok := MoveMid(MidMoves(numels, posstart, numdel));
    }

    /** list_delete_range. The new middle is computed in 32-bit unsigned arithmetic, which wraps
        when every element is deleted. */
    method DeleteRange(posstart: nat, posend: nat) returns (o: Outcome)
      requires Valid() && numels <= MAX_EXACT
      modifies Repr
      ensures o == if old(iterActive) || posend < posstart || posend >= old(numels) then Done(-1)
                   else if posend - posstart + 1 == old(numels) then NullDereference else Done(0)
      ensures o == Done(-1) ==> unchanged(this) && unchanged(Repr)
      ensures o.Done? ==> Valid() && fresh(Repr - old(Repr)) && SameModes()
      ensures Remembers()
      ensures o == Done(0) ==> contents == old(contents)[..posstart] + old(contents)[posend + 1..]
      ensures o == Done(0) ==> chain == old(chain)[..posstart + 1] + old(chain)[posend + 2..]
      ensures o == Done(0) ==> Discards(old(chain)[posstart + 1..posend + 2])
      ensures o == NullDereference ==> Conserved(allocd, chain, spare, freed, Repr) && Discards([]) && chain == old(chain)
    {
      hide MidOf, NoDup, Holds, Pool, PoolAfter, FreedAfter, Chain, Conserved, Landing, Astray;
      NeverAstray(posstart, numels);
      DiscardedNone(spare, freed);
      if iterActive || posend < posstart || posend >= numels { return Done(-1); }
      var tmp, _ := FindPos(posstart);
      NextInChain(chain, posstart);
      var lastvalid := tmp.prev;
      var ok := SeatMid(posstart, posend - posstart + 1);
      if !ok { return NullDereference; }
      DeleteMoved(lastvalid, tmp, posstart, posend);
      return Done(0);
    }

    method DeleteMoved(lastvalid: Entry, first: Entry, posstart: nat, posend: nat)
      requires this in Repr && spareels in Repr && Conserved(allocd, chain, spare, freed, Repr)
      requires Links() && Pool() && |chain| == numels + 2 && |contents| == numels
      requires posstart <= posend < numels
      requires first == chain[posstart + 1] && lastvalid == chain[posstart]
      requires mid == MidOf(chain[..posstart + 1] + chain[posend + 2..])
      modifies Repr
      ensures this in Repr && spareels in Repr && Conserved(allocd, chain, spare, freed, Repr)
      ensures Shape() && Pool() && Repr <= old(Repr) && SameModes()
      ensures contents == old(contents)[..posstart] + old(contents)[posend + 1..]
      ensures chain == old(chain)[..posstart + 1] + old(chain)[posend + 2..]
      ensures Discards(old(chain)[posstart + 1..posend + 2])
    {
      hide NoDup, Conserved, MidOf, Chain, Holds, Pool, PoolAfter, FreedAfter;
      ghost var c := chain;
      InRepr(allocd, chain, spare, freed, Repr, posend + 2);
      InRepr(allocd, chain, spare, freed, Repr, posstart);
      var tmp := ReleaseRange(first, posstart, posend);
      JoinRange(lastvalid, tmp, posstart, posend, c);
    }
  }

  /** The loop of list_findpos that goes on from place i0, if `pos` lies behind it. */
  method WalkOn(ptr0: Entry, i0: int, pos: int, ghost s: seq<Entry>) returns (ptr: Entry, ghost steps: nat)
    requires Chain(s) && -1 <= i0 < |s| - 1 && -1 <= pos < |s| - 1 && s[i0 + 1] == ptr0
    ensures if i0 < pos then ptr == s[pos + 1] && steps == pos - i0 else ptr == ptr0 && steps == 0
  {
    ptr, steps := ptr0, 0;
    var i := i0;
    while i < pos
      invariant i0 <= i && (i <= pos || i == i0) && ptr == s[i + 1] && steps == i - i0
    {
      ptr, i, steps := ptr.next, i + 1, steps + 1;
    }
  }

  /** The loop that goes back, if `pos` lies before. */
  method WalkBack(ptr0: Entry, i0: int, pos: int, ghost s: seq<Entry>) returns (ptr: Entry, ghost steps: nat)
    requires Chain(s) && -1 <= i0 < |s| - 1 && -1 <= pos < |s| - 1 && s[i0 + 1] == ptr0
    ensures if pos < i0 then ptr == s[pos + 1] && steps == i0 - pos else ptr == ptr0 && steps == 0
  {
    ptr, steps := ptr0, 0;
    var i := i0;
    while i > pos
      invariant i <= i0 && (pos <= i || i == i0) && -1 <= i && ptr == s[i + 1] && steps == i0 - i
    {
      ptr, i, steps := ptr.prev, i - 1, steps + 1;
    }
  }

  /** Put `lent` behind `prec`, which is entry k-1 of the chain s. */
  method LinkAfter(prec: Entry, lent: Entry, ghost s: seq<Entry>, ghost k: nat)
    requires 0 < k < |s| && s[k - 1] == prec && Chain(s) && lent !in s
    modifies prec`next, prec.next`prev, lent`next, lent`prev
    ensures Chain(Inserted(s, k, lent))
    ensures s[0].prev == old(s[0].prev) && s[|s| - 1].next == old(s[|s| - 1].next)
  {
    var succ := prec.next;
    prec.next := lent;
    lent.prev := prec;
    lent.next := succ;
    succ.prev := lent;
  }

  /** Take `tmp`, which is inner entry k of the chain s, out of it. */
  method Unlink(tmp: Entry, ghost s: seq<Entry>, ghost k: nat)
    requires 0 < k < |s| - 1 && s[k] == tmp && Chain(s)
    modifies tmp.prev`next, tmp.next`prev
    ensures Chain(Removed(s, k))
    ensures s[0].prev == old(s[0].prev) && s[|s| - 1].next == old(s[|s| - 1].next)
  {
    tmp.prev.next := tmp.next;
    tmp.next.prev := tmp.prev;
  }

  /** The entries of `s` behind the head sentinel hold `c`; there is no tail sentinel yet. */
  ghost predicate Tells(s: seq<Entry>, c: seq<Ptr>)
    reads s
  {
    && |s| == |c| + 1 && Chain(s) && s[0].data == NULL
    && forall i {:trigger c[i]} :: 0 <= i < |c| ==> s[i + 1].data == c[i]
  }

  /** Copy the elements of `src` into new entries behind `last`: one of the two loops of list_concat. */
  method CopyEntries(src: List, last: Entry, ghost s: seq<Entry>, ghost c: seq<Ptr>) returns (el: Entry, ghost t: seq<Entry>)
    requires src.Valid() && Tells(s, c) && last == s[|s| - 1]
    requires forall e :: e in s ==> e !in src.Repr
    modifies last`next
    ensures Tells(t, c + src.contents) && s <= t && el == t[|t| - 1]
    ensures forall i :: |s| <= i < |t| ==> fresh(t[i])
  {
    var srcel := src.headSentinel.next;
    el, t := last, s;
    ghost var i := 0;
    while srcel != src.tailSentinel
      invariant src.Shape() && 0 <= i <= src.numels && srcel == src.chain[i + 1]
      invariant Tells(t, c + src.contents[..i]) && s <= t && el == t[|t| - 1]
      invariant forall j :: |s| <= j < |t| ==> fresh(t[j])
      decreases src.numels - i
    {
      assert srcel.data == src.contents[i];
      el, t := AppendEntry(el, srcel.data, t, c + src.contents[..i]);
      assert c + src.contents[..i] + [src.contents[i]] == c + src.contents[..i + 1];
      srcel, i := srcel.next, i + 1;
    }
    assert src.contents[..i] == src.contents;
  }

  /** list_concat */
  method Concat(l1: List, l2: List) returns (dest: List)
    requires l1.Valid() && l2.Valid()
    ensures dest.Valid() && fresh(dest.Repr) && !dest.iterActive
    ensures dest.contents == l1.contents + l2.contents
  {
    hide Tells, MidOf, Chain, Holds, NoDup;
    dest := new List();
    dest.numels := l1.numels + l2.numels;
    if dest.numels == 0 { return; }
    FillConcat(dest, l1, l2);
    dest.FixMidAfterConcat(l1.numels, l2.numels);
  }

  method FillConcat(dest: List, l1: List, l2: List)
    requires l1.Valid() && l2.Valid() && dest !in l1.Repr && dest !in l2.Repr
    requires dest.headSentinel !in l1.Repr && dest.headSentinel !in l2.Repr
    requires dest in dest.Repr && dest.spareels in dest.Repr && dest.Pool() && dest.spare == [] && dest.freed == {}
    requires dest.headSentinel != dest.tailSentinel && dest.headSentinel.prev == null && dest.tailSentinel.next == null
    requires dest.headSentinel in dest.Repr && dest.tailSentinel in dest.Repr
    requires dest.headSentinel.data == NULL && dest.tailSentinel.data == NULL
    modifies dest`mid, dest`chain, dest`contents, dest`allocd, dest`Repr, dest.headSentinel`next, dest.tailSentinel`prev
    ensures dest in dest.Repr && dest.spareels in dest.Repr && dest.Links() && dest.Pool() && dest.freed == {}
    ensures Conserved(dest.allocd, dest.chain, dest.spare, dest.freed, dest.Repr)
    ensures dest.contents == l1.contents + l2.contents && |dest.chain| == |dest.contents| + 2
    ensures dest.mid == dest.chain[|l1.contents|] && fresh(dest.Repr - old(dest.Repr))
  {
    hide Tells, MidOf, Chain, Holds, NoDup;
    var el, s := CopyBoth(dest, l1, l2);
    FinishConcat(dest, el, s, l1.contents + l2.contents);
    forall o | o in dest.Repr - old(dest.Repr) ensures fresh(o) {
      var i :| 0 <= i < |dest.chain| && dest.chain[i] == o;
    }
  }

  method CopyBoth(dest: List, l1: List, l2: List) returns (el: Entry, ghost s: seq<Entry>)
    requires l1.Valid() && l2.Valid()
    requires dest !in l1.Repr && dest !in l2.Repr && dest.headSentinel != dest.tailSentinel
    requires dest.headSentinel !in l1.Repr && dest.headSentinel !in l2.Repr && dest.headSentinel.data == NULL
    modifies dest`mid, dest.headSentinel`next
    ensures Tells(s, l1.contents + l2.contents)
    ensures el == s[|s| - 1] && s[0] == dest.headSentinel && dest.mid == s[|l1.contents|]
    ensures |s| == |l1.contents| + |l2.contents| + 1 && dest.tailSentinel !in s
    ensures forall i :: 1 <= i < |s| ==> fresh(s[i])
  {
    hide Holds, MidOf, Conserved;
    el, s := CopyEntries(l1, dest.headSentinel, [dest.headSentinel], []);
    assert [] + l1.contents == l1.contents;
    dest.mid := el;
    el, s := CopyEntries(l2, el, s, l1.contents);
  }

  method FinishConcat(dest: List, el: Entry, ghost s: seq<Entry>, ghost c: seq<Ptr>)
    requires dest in dest.Repr && dest.spareels in dest.Repr && dest.Pool() && dest.spare == [] && dest.freed == {}
    requires Tells(s, c) && el == s[|s| - 1] && s[0] == dest.headSentinel && dest.tailSentinel !in s
    requires dest.headSentinel.prev == null && dest.tailSentinel.next == null && dest.tailSentinel.data == NULL
    modifies dest`chain, dest`contents, dest`allocd, dest`Repr, el`next, dest.tailSentinel`prev
    ensures dest.chain == s + [dest.tailSentinel] && dest.contents == c
    ensures dest.Links() && dest in dest.Repr && dest.spareels in dest.Repr
    ensures Conserved(dest.allocd, dest.chain, [], {}, dest.Repr)
    ensures dest.Repr == old(dest.Repr) + Elems(dest.chain)
  {
    LinkTail(el, dest.tailSentinel, s, c);
    hide NoDup, Chain, Holds, Tells;
    dest.chain := s + [dest.tailSentinel];
    dest.contents := c;
    dest.allocd := Elems(dest.chain);
    ConservedChain(dest.chain, dest.Repr);
    dest.Repr := dest.Repr + Elems(dest.chain);
  }

  method LinkTail(el: Entry, tail: Entry, ghost s: seq<Entry>, ghost c: seq<Ptr>)
    requires Tells(s, c) && el == s[|s| - 1] && tail !in s && tail.data == NULL
    modifies el`next, tail`prev
    ensures Chain(s + [tail]) && Holds(s + [tail], c)
  {
    el.next := tail;
    tail.prev := el;
  }

  method AppendEntry(last: Entry, data: Ptr, ghost s: seq<Entry>, ghost c: seq<Ptr>) returns (el: Entry, ghost t: seq<Entry>)
    requires Tells(s, c) && last == s[|s| - 1]
    modifies last`next
    ensures t == s + [el] && fresh(el) && Tells(t, c + [data])
  {
    el := new Entry();
    last.next := el;
    last.next.prev := last;
    el.data := data;
    t := s + [el];
  }

  /** Join entries a-1 and b of the chain s, leaving out those between. */
  method Bridge(lastvalid: Entry, tmp: Entry, ghost s: seq<Entry>, ghost a: nat, ghost b: nat)
    requires 0 < a <= b < |s| && lastvalid == s[a - 1] && tmp == s[b] && Chain(s)
    modifies lastvalid`next, tmp`prev
    ensures Chain(s[..a] + s[b..])
    ensures s[0].prev == old(s[0].prev) && s[|s| - 1].next == old(s[|s| - 1].next)
  {
    lastvalid.next := tmp;
    tmp.prev := lastvalid;
    ghost var t := s[..a] + s[b..];
    assert forall i :: 0 <= i < |t| ==> t[i] == if i < a then s[i] else s[i + b - a];
  }
}
