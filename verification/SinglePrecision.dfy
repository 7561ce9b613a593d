/** The quotient by which list_findpos of `OpenSC/src/common/simclist.c` picks its starting point:
    `(float)(posstart+1) / numels` in IEEE 754 single precision, rounding to nearest even. */
module SinglePrecision {
  import opened Octets

  const DIGITS_24 := 0x100_0000
  const HALF_24 := 0x80_0000

  /** The distance of neighbouring floats at n. */
  function Unit(n: nat): (u: nat)
    ensures u > 0
  {
    if n < DIGITS_24 then 1 else 2 * Unit(n / 2)
  }

  /** The whole number n as a float: the nearest multiple of the unit, the even one of two. */
  function F32(n: nat): nat {
    var u := Unit(n);
    u * Nearest(n / u, n % u, u)
  }

  function Nearest(q: nat, r: nat, u: nat): (k: nat)
    ensures q <= k <= q + 1
  {
    if 2 * r > u || (2 * r == u && q % 2 == 1) then q + 1 else q
  }

  /** Which of the quarters the rounded quotient p/n falls in. A quotient rounds to 1/4, 1/2 or 3/4
      when it is no further off than half the distance of the floats there. */
  datatype Quarter = First | Second | Third | Fourth

  function QuarterOf(p: nat, n: nat): (q: Quarter)
    ensures n == 0 ==> q == First
  {
    var x, y := F32(p), F32(n);
    if n == 0 || 0x400_0000 * x <= 0x100_0001 * y then First
    else if 0x400_0000 * x < 0x1FF_FFFF * y then Second
    else if 0x200_0000 * x <= 0x180_0001 * y then Third
    else Fourth
  }

  /** The quotient is rounded up to 1/2 although the position is before the middle. */
  predicate Astray(pos: int, n: nat) {
    -1 <= pos < (n - 1) / 2 && QuarterOf(pos + 1, n) == Third
  }

  /** Where the search for `pos` ends: at the middle when it starts on the wrong side of it. */
  function Landing(pos: int, n: nat): (p: int)
    ensures -1 <= pos <= n ==> -1 <= p <= n && (pos < n ==> p < n) && (pos >= 0 ==> p >= 0)
    ensures p != pos <==> Astray(pos, n)
  {
    if Astray(pos, n) then (n - 1) / 2 else pos
  }

  // ----- rounding -----

  lemma SmallIsExact(n: nat)
    requires n <= DIGITS_24
    ensures F32(n) == n
  {
    if n == DIGITS_24 { assert Unit(n) == 2 * Unit(n / 2) == 2; }
  }

  lemma {:induction false} UnitBounds(n: nat)
    ensures n < DIGITS_24 * Unit(n) && (Unit(n) > 1 ==> DIGITS_24 * Unit(n) <= 2 * n)
  {
    if n >= DIGITS_24 { UnitBounds(n / 2); }
  }

  lemma {:induction false} UnitGrows(m: nat, n: nat)
    requires m <= n
    ensures Unit(m) == Unit(n) || 2 * Unit(m) <= Unit(n)
  {
    if m >= DIGITS_24 { UnitGrows(m / 2, n / 2); }
  }

  lemma Multiples(u: nat, a: int, b: int)
    requires a <= b
    ensures u * a <= u * b
  {
  }

  /** n in units, and its rounded value. */
  lemma InParts(n: nat) returns (q: nat, r: nat)
    ensures n == Unit(n) * q + r && r < Unit(n) && F32(n) == Unit(n) * Nearest(q, r, Unit(n))
  {
    q, r := n / Unit(n), n % Unit(n);
  }

  lemma InsideBinade(n: nat)
    ensures F32(n) <= DIGITS_24 * Unit(n) && (Unit(n) > 1 ==> DIGITS_24 * Unit(n) <= 2 * F32(n))
  {
    hide *;
    UnitBounds(n);
    var q, r := InParts(n);
    InUnits(n, Unit(n), q, r, Nearest(q, r, Unit(n)));
  }

  lemma InUnits(n: nat, u: nat, q: nat, r: nat, k: nat)
    requires n == u * q + r && r < u && q <= k <= q + 1 && n < DIGITS_24 * u && (u > 1 ==> DIGITS_24 * u <= 2 * n)
    ensures u * k <= DIGITS_24 * u && (u > 1 ==> DIGITS_24 * u <= 2 * (u * k))
  {
    if q >= DIGITS_24 { Multiples(u, DIGITS_24, q); }
    Multiples(u, k, DIGITS_24);
    if u > 1 {
      MulStep(u, q, HALF_24);
      Multiples(u, HALF_24, k);
    }
  }

  /** Rounding keeps the order. */
  lemma RoundingKeepsOrder(m: nat, n: nat)
    requires m <= n
    ensures F32(m) <= F32(n)
  {
    hide F32, Nearest;
    UnitGrows(m, n);
    if Unit(m) == Unit(n) {
      SameUnit(m, n);
    } else {
      InsideBinade(m);
      InsideBinade(n);
    }
  }

  lemma SameUnit(m: nat, n: nat)
    requires m <= n && Unit(m) == Unit(n)
    ensures F32(m) <= F32(n)
  {
    hide *;
    var q, r := InParts(m);
    var k, s := InParts(n);
    var u := Unit(m);
    NearestKeepsOrder(m, n, u, q, r, k, s);
    Multiples(u, Nearest(q, r, u), Nearest(k, s, u));
  }

  lemma NearestKeepsOrder(m: nat, n: nat, u: nat, q: nat, r: nat, k: nat, s: nat)
    requires m <= n && m == u * q + r && r < u && n == u * k + s && s < u
    ensures Nearest(q, r, u) <= Nearest(k, s, u)
  {
    MulStep(u, k, q);
  }

  /** The rounded number is a multiple of the unit, no other is nearer, and of two as near it is the
      even one; 24 binary digits hold it. */
  lemma {:induction false} NearestFloat(n: nat) returns (k: nat)
    ensures F32(n) == Unit(n) * k && k <= DIGITS_24 && (Unit(n) > 1 ==> HALF_24 <= k)
    ensures var d := 2 * (F32(n) - n); -1 * Unit(n) <= d <= Unit(n) && (d == Unit(n) || d == -1 * Unit(n) ==> k % 2 == 0)
  {
    hide *;
    var q, r := InParts(n);
    k := Nearest(q, r, Unit(n));
    UnitBounds(n);
    InUnitsCount(n, Unit(n), q, r, k);
    NearestIs(n, Unit(n), q, r);
  }

  lemma NearestIs(n: nat, u: nat, q: nat, r: nat)
    requires n == u * q + r && r < u
    ensures var k := Nearest(q, r, u);
      var d := 2 * (u * k - n); q <= k <= q + 1 && -1 * u <= d <= u && (d == u || d == -1 * u ==> k % 2 == 0)
  {
    assert u * (q + 1) == u * q + u;
  }

  lemma InUnitsCount(n: nat, u: nat, q: nat, r: nat, k: nat)
    requires n == u * q + r && r < u && k == Nearest(q, r, u) && n < DIGITS_24 * u && (u > 1 ==> DIGITS_24 * u <= 2 * n)
    ensures k <= DIGITS_24 && (u > 1 ==> HALF_24 <= k)
  {
    if q >= DIGITS_24 { Multiples(u, DIGITS_24, q); }
    if u > 1 { MulStep(u, q, HALF_24); }
  }

  /** The quotient x/y in units of 1/scale, rounded to nearest even. */
  function Quotient(x: nat, y: nat, scale: nat): nat
    requires y > 0
  {
    Nearest(scale * x / y, scale * x % y, y)
  }

  /** The quarters are those of the rounded quotient: floats are 2^-25 apart from 1/4 to 1/2, and 2^-24
      from there to 1. */
  lemma {:induction false} QuarterIsRounded(p: nat, n: nat)
    requires F32(n) > 0
    ensures var q, r := Quotient(F32(p), F32(n), 0x200_0000), Quotient(F32(p), F32(n), 0x100_0000);
      && (QuarterOf(p, n) == First <==> n == 0 || q <= 0x80_0000)
      && (QuarterOf(p, n) == Second <==> n > 0 && 0x80_0000 < q < 0x100_0000)
      && (QuarterOf(p, n) == Third <==> n > 0 && 0x100_0000 <= q && r <= 0xC0_0000)
  {
    hide F32, Quotient;
    var x, y := F32(p), F32(n);
    RoundedBelow(x, y, 0x200_0000, 0x80_0000);
    RoundedBelow(x, y, 0x200_0000, 0xFF_FFFF);
    RoundedBelow(x, y, 0x100_0000, 0xC0_0000);
  }

  /** A quotient rounds to at most k when it is at most k + 1/2, or below it if k is odd. */
  lemma RoundedBelow(x: nat, y: nat, scale: nat, k: nat)
    requires y > 0
    ensures Quotient(x, y, scale) <= k
      <==> if k % 2 == 0 then 2 * (scale * x) <= 2 * (k * y) + y else 2 * (scale * x) < 2 * (k * y) + y
  {
    var z := scale * x;
    Parts(z, y);
    NearestBelow(z, y, z / y, z % y, k);
  }

  lemma NearestBelow(z: nat, y: nat, q: nat, r: nat, k: nat)
    requires z == y * q + r && r < y
    ensures Nearest(q, r, y) <= k <==> if k % 2 == 0 then 2 * z <= 2 * (k * y) + y else 2 * z < 2 * (k * y) + y
  {
    MulStep(y, q, k);
    MulStep(y, k, q);
  }

  lemma RoundingDoubles(p: nat)
    ensures F32(2 * p) == 2 * F32(p)
  {
    if 2 * p < DIGITS_24 {
      SmallIsExact(2 * p);
      SmallIsExact(p);
    } else {
      var u := Unit(p);
      assert Unit(2 * p) == 2 * u;
      var q, r := p / u, p % u;
      assert 2 * p == (2 * u) * q + 2 * r by { assert p == u * q + r; }
      DivUnique(2 * p, 2 * u, q, 2 * r);
      assert Nearest(q, 2 * r, 2 * u) == Nearest(q, r, u);
    }
  }

  /** The second quarter never reaches behind the middle. */
  lemma SecondIsBefore(pos: int, n: nat)
    requires -1 <= pos && QuarterOf(pos + 1, n) == Second
    ensures pos <= (n - 1) / 2
  {
    if pos > (n - 1) / 2 {
      RoundingKeepsOrder(n, 2 * (pos + 1));
      RoundingDoubles(pos + 1);
    }
  }

  lemma LandingIs(pos: int, n: nat)
    requires -1 <= pos <= n
    ensures match QuarterOf(pos + 1, n)
      case First => Landing(pos, n) == pos
      case Second => Landing(pos, n) == pos <= (n - 1) / 2
      case Third => Landing(pos, n) == if pos < (n - 1) / 2 then (n - 1) / 2 else pos
      case Fourth => Landing(pos, n) == pos
  {
    if QuarterOf(pos + 1, n) == Second { SecondIsBefore(pos, n); }
  }

  /** Up to 2^24 elements the search always starts on the right side. */
  lemma NeverAstray(pos: int, n: nat)
    requires n <= DIGITS_24
    ensures !Astray(pos, n)
  {
    if -1 <= pos < (n - 1) / 2 {
      SmallIsExact(pos + 1);
      SmallIsExact(n);
    }
  }

  /** Up to 2^24 elements no more than a quarter of the list is walked. */
  lemma QuarterIsNear(pos: int, n: nat)
    requires -1 <= pos <= n <= DIGITS_24
    ensures match QuarterOf(pos + 1, n)
      case First => pos + 1 <= n / 4 + 1
      case Second => (n - 1) / 2 - pos <= n / 4 + 1
      case Third => pos - (n - 1) / 2 <= n / 4 + 1
      case Fourth => n - pos <= n / 4 + 1
  {
    SmallIsExact(n);
    if pos < DIGITS_24 { SmallIsExact(pos + 1); } else { OneMore(); }
  }

  lemma OneMore()
    ensures F32(DIGITS_24 + 1) == DIGITS_24
  {
    assert Unit(DIGITS_24 + 1) == 2 * Unit(0x80_0000) == 2;
  }

  /** Neither end is ever missed, however long the list. */
  lemma EndsNeverAstray(n: nat)
    ensures !Astray(-1, n) && !Astray(n - 1, n) && !Astray(n, n)
  {
  }

  /** With one element more there is a position before the middle for which the quotient is 1/2. */
  lemma FirstAstray()
    ensures Astray(0x7F_FFFF, DIGITS_24 + 1)
  {
    SmallIsExact(0x80_0000);
    OneMore();
  }
}
