/** Octets, big-endian numbers and the error codes the library returns. */
module Octets {
  type u8 = b: int | 0 <= b < 256
  type bytes = seq<u8>

  datatype Option<+T> = None | Some(value: T)

  const SC_SUCCESS := 0
  const SC_ERROR_WRONG_LENGTH := -1206
  const SC_ERROR_INVALID_ARGUMENTS := -1300
  const SC_ERROR_BUFFER_TOO_SMALL := -1303
  const SC_ERROR_INVALID_DATA := -1305
  const SC_ERROR_INTERNAL := -1400
  const SC_ERROR_INVALID_ASN1_OBJECT := -1401
  const SC_ERROR_ASN1_OBJECT_NOT_FOUND := -1402
  const SC_ERROR_ASN1_END_OF_CONTENTS := -1403
  const SC_ERROR_NOT_SUPPORTED := -1408

  const TWO_32 := 0x1_0000_0000

  function Pow256(k: nat): (r: nat)
    ensures r > 0
  {
    if k == 0 then 1 else 256 * Pow256(k - 1)
  }

  /** The number the octets stand for, most significant first. */
  function Be(s: bytes): nat {
    if s == [] then 0 else 256 * Be(s[..|s| - 1]) + s[|s| - 1]
  }

  /** The last k octets of n, most significant first. */
  function ToBe(n: nat, k: nat): (s: bytes)
    ensures |s| == k
  {
    if k == 0 then [] else ToBe(n / 256, k - 1) + [n % 256]
  }

  lemma BeAppend(s: bytes, x: u8)
    ensures Be(s + [x]) == 256 * Be(s) + x
  {
    assert (s + [x])[..|s|] == s;
  }

  lemma Weighted(x: int, p: int, b: int, y: int)
    ensures 256 * (x * p + b) + y == x * (256 * p) + (256 * b + y)
  {
  }

  lemma {:induction false} BePrepend(x: u8, s: bytes)
    ensures Be([x] + s) == x * Pow256(|s|) + Be(s)
  {
    if s != [] {
      var r, y := s[..|s| - 1], s[|s| - 1];
      BePrepend(x, r);
      assert [x] + s == ([x] + r) + [y];
      BeAppend([x] + r, y);
      Weighted(x, Pow256(|r|), Be(r), y);
    } else {
      assert [x] + s == [] + [x];
      BeAppend([], x);
    }
  }

  lemma {:induction false} BeToBe(n: nat, k: nat)
    requires n < Pow256(k)
    ensures Be(ToBe(n, k)) == n
  {
    if k > 0 {
      BeToBe(n / 256, k - 1);
    }
  }

  lemma {:induction false} ToBeBe(s: bytes)
    ensures ToBe(Be(s), |s|) == s && Be(s) < Pow256(|s|)
  {
    if s != [] {
      ToBeBe(s[..|s| - 1]);
    }
  }

  lemma {:induction false} ToBeDigit(n: nat, k: nat, i: nat)
    requires i < k
    ensures ToBe(n, k)[i] == n / Pow256(k - 1 - i) % 256
  {
    if i < k - 1 {
      ToBeDigit(n / 256, k - 1, i);
      DivDiv(n, 256, Pow256(k - 2 - i));
    }
  }

  lemma MulLe(p: nat, x: int, y: int)
    requires x <= y
    ensures x * p <= y * p
  {
  }

  lemma MulStep(d: nat, x: int, y: int)
    ensures x < y ==> d * x + d <= d * y
  {
    if x < y { assert d * (x + 1) <= d * y; }
  }

  lemma DivUnique(n: int, d: int, q: int, r: int)
    requires d > 0 && n == d * q + r && 0 <= r < d
    ensures n / d == q && n % d == r
  {
    MulStep(d, q, n / d);
    MulStep(d, n / d, q);
  }

  lemma DivDiv(n: nat, a: nat, b: nat)
    requires a > 0 && b > 0
    ensures a * b > 0 && n / a / b == n / (a * b)
  {
    Parts(n, a);
    Parts(n / a, b);
    TwoSteps(n, a, b, n / a, n % a, n / a / b, n / a % b);
    DivUnique(n, a * b, n / a / b, a * (n / a % b) + n % a);
  }

  lemma Parts(n: nat, d: nat)
    requires d > 0
    ensures n == d * (n / d) + n % d && 0 <= n % d < d
  {
  }

  lemma TwoSteps(n: nat, a: nat, b: nat, q: nat, r: nat, k: nat, s: nat)
    requires n == a * q + r && r < a && q == b * k + s && s < b
    ensures a * b > 0 && n == (a * b) * k + (a * s + r) && 0 <= a * s + r < a * b
  {
    MulStep(a, s, b);
    MulStep(a, 0, b);
    Regrouped(a, b, k, s);
  }

  lemma Regrouped(a: int, b: int, q: int, r: int)
    ensures a * (b * q + r) == (a * b) * q + a * r
  {
  }
}
