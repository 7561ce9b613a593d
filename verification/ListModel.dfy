/** What the list operations mean on plain sequences. */
module ListModel {
  import SinglePrecision

  /** A `void *`: an address, 0 being the null pointer. */
  type Ptr = nat

  const NULL: Ptr := 0
  const MAX_SPARE_ELEMS := 5

  /** Positive when the first element is the smaller one, as simclist's ready-made comparators. */
  type Cmp = (Ptr, Ptr) -> int

  datatype CmpOption = Unset | Set(cmp: Cmp)

  ghost predicate NoDup<T>(s: seq<T>) {
    forall i, j :: 0 <= i < j < |s| ==> s[i] != s[j]
  }

  lemma SameIndex<T>(s: seq<T>, i: nat, j: nat)
    requires NoDup(s) && i < |s| && j < |s| && s[i] == s[j]
    ensures i == j
  {
  }

  function Inserted<T>(s: seq<T>, pos: nat, x: T): seq<T>
    requires pos <= |s|
  {
    s[..pos] + [x] + s[pos..]
  }

  function Removed<T>(s: seq<T>, pos: nat): seq<T>
    requires pos < |s|
  {
    s[..pos] + s[pos + 1..]
  }

  lemma InsertedElems<T>(s: seq<T>, pos: nat, x: T)
    requires pos <= |s|
    ensures multiset(Inserted(s, pos, x)) == multiset(s) + multiset{x}
  {
    assert s == s[..pos] + s[pos..];
  }

  lemma RemovedElems<T>(s: seq<T>, pos: nat)
    requires pos < |s|
    ensures multiset(s) == multiset(Removed(s, pos)) + multiset{s[pos]}
  {
    assert s == s[..pos] + [s[pos]] + s[pos + 1..];
  }

  /** Up to this count every number of elements is a single-precision number. */
  const MAX_EXACT := SinglePrecision.DIGITS_24

  datatype Outcome = Done(r: int) | NullDereference

  function U32(x: int): nat {
    x % 0x1_0000_0000
  }

  function I32(x: int): int {
    var u := U32(x);
    if u < 0x8000_0000 then u else u - 0x1_0000_0000
  }

  lemma U32Values(x: int)
    requires -0x1_0000_0000 <= x < 0x1_0000_0000
    ensures U32(x) == if x >= 0 then x else x + 0x1_0000_0000
  {
  }

  lemma I32Values(x: int)
    requires -0x8000_0000 <= x < 0x1_0000_0000
    ensures I32(x) == if x < 0x8000_0000 then x else x - 0x1_0000_0000
  {
    U32Values(x);
  }

  /** How far list_delete_range moves the mid pointer. */
  function MidMoves(numels: nat, posstart: nat, numdel: nat): int {
    var after := U32(numels - 1 - numdel) / 2;
    I32(if after < posstart then after - (numels - 1) / 2 else U32(after + numdel) - (numels - 1) / 2)
  }

  /** Before the deletion the pointer must move to the entry that will be in the middle; the
      arithmetic finds it unless everything is deleted, and then it runs off the chain. */
  lemma {:induction false} MidMovesTarget(numels: nat, posstart: nat, numdel: nat)
    requires 0 < numdel && posstart + numdel <= numels <= MAX_EXACT
    ensures var target, after := (numels - 1) / 2 + MidMoves(numels, posstart, numdel), (numels - numdel - 1) / 2;
      if numdel < numels then target == if after < posstart then after else after + numdel
      else target < -2
  {
    hide U32, I32;
    U32Values(numels - 1 - numdel);
    var after := U32(numels - 1 - numdel) / 2;
    U32Values(after + numdel);
    I32Values(if after < posstart then after - (numels - 1) / 2 else U32(after + numdel) - (numels - 1) / 2);
  }

  /** C's division, which truncates toward zero. */
  function CDiv(a: int, b: int): int
    requires b > 0
  {
    if a >= 0 then a / b else -(-a / b)
  }

  /** What is left over has the sign of the dividend. */
  lemma CDivIs(a: int, b: int)
    requires b > 0
    ensures var r := a - b * CDiv(a, b); -b < r < b && (a >= 0 ==> r >= 0) && (a <= 0 ==> r <= 0)
  {
    var k := if a >= 0 then a else -a;
    assert k == b * (k / b) + k % b;
    assert b * -(k / b) == -(b * (k / b));
  }

  ghost function Elems<T>(s: seq<T>): set<T> {
    set x | x in s
  }

  lemma ElemsAppend<T>(s: seq<T>, x: T)
    requires x !in s
    ensures multiset(Elems(s + [x])) == multiset(Elems(s)) + multiset{x}
  {
    assert Elems(s + [x]) == Elems(s) + {x};
  }

  lemma {:induction false} NoDupElems<T>(s: seq<T>)
    requires NoDup(s)
    ensures multiset(Elems(s)) == multiset(s)
  {
    if s != [] {
      var r := s[..|s| - 1];
      var x := s[|s| - 1];
      NoDupElems(r);
      assert s == r + [x] && x !in r;
      ElemsAppend(r, x);
    }
  }
}
