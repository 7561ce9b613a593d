/** INTEGER contents (section 8.3 of ITU-T X.690): asn1_encode_integer and
    sc_asn1_decode_integer of `OpenSC/src/libopensc/asn1.c`, for 32-bit `int`. */
module DerInteger {
  import opened Octets

  const INT_MIN := -0x8000_0000
  const INT_MAX := 0x7FFF_FFFF

  predicate IsInt(v: int) {
    INT_MIN <= v <= INT_MAX
  }

  /** Two's complement, most significant octet first. */
  function Signed(s: bytes): int {
    if s != [] && s[0] >= 0x80 then Be(s) - Pow256(|s|) else Be(s)
  }

  /** The first nine bits are neither all zero nor all one. */
  predicate Minimal(s: bytes) {
    |s| > 0 && (|s| > 1 ==> !(s[0] == 0 && s[1] < 0x80) && !(s[0] == 0xFF && s[1] >= 0x80))
  }

  datatype Decoded = Int(v: int) | Refused(error: int)

  function Decode(s: bytes, strict: bool): Decoded {
    if s == [] then Refused(SC_ERROR_INVALID_ASN1_OBJECT)
    else if |s| > 4 then Refused(SC_ERROR_NOT_SUPPORTED)
    else if strict && !Minimal(s) then Refused(SC_ERROR_INVALID_ASN1_OBJECT)
    else Int(Signed(s))
  }

  /** The loop has read i octets, of a negative number their complement. */
  predicate Accumulated(s: bytes, i: nat, isNegative: bool, a: int)
    requires i <= |s|
  {
    && a == (if isNegative then Pow256(i) - 1 - Be(s[..i]) else Be(s[..i]))
    && (i > 0 ==> 0 <= a < 0x80 * Pow256(i - 1))
  }

  lemma FirstOctet(s: bytes)
    requires s != []
    ensures Be(s[..0]) == 0 && Be(s[..1]) == s[0] && Pow256(0) == 1 && Pow256(1) == 256
  {
    assert s[..0] == [] && s[..1] == [] + [s[0]] && Be([]) == 0;
    BeAppend([], s[0]);
    Pow256Upto4();
  }

  /** No check in the loop can fail, and the next octet extends the number. */
  lemma NextOctet(s: bytes, i: nat, isNegative: bool, a: int)
    requires i < |s| <= 4 && Accumulated(s, i, isNegative, a) && (i == 0 ==> !isNegative && s[0] < 0x80)
    ensures INT_MIN + 256 <= a <= INT_MAX / 256
    ensures Accumulated(s, i + 1, isNegative, a * 256 + if isNegative then 255 - s[i] else s[i])
  {
    Pow256Upto4();
    FirstOctet(s);
    assert s[..i + 1] == s[..i] + [s[i]];
    BeAppend(s[..i], s[i]);
    assert i > 0 ==> Pow256(i) == 256 * Pow256(i - 1);
    assert Pow256(i + 1) == 256 * Pow256(i);
    hide Be, Pow256;
  }

  /** sc_asn1_decode_integer: a negative number is accumulated through its complement. */
  method DecodeInteger(inbuf: bytes, strict: bool) returns (r: int, out: int)
    ensures Decode(inbuf, strict) == if r == SC_SUCCESS then Int(out) else Refused(r)
  {
    out := 0;
    if |inbuf| == 0 { return SC_ERROR_INVALID_ASN1_OBJECT, out; }
    if |inbuf| > 4 { return SC_ERROR_NOT_SUPPORTED, out; }
    var a, isNegative, i := 0, false, 0;
    FirstOctet(inbuf);
    hide Be, Pow256;
    if inbuf[0] >= 0x80 {
      if strict && |inbuf| > 1 && inbuf[0] == 0xFF && inbuf[1] >= 0x80 { return SC_ERROR_INVALID_ASN1_OBJECT, out; }
      isNegative := true;
      a := 255 - inbuf[0];
      i := 1;
    } else {
      if strict && |inbuf| > 1 && inbuf[0] == 0 && inbuf[1] < 0x80 { return SC_ERROR_INVALID_ASN1_OBJECT, out; }
    }
    while i < |inbuf|
      invariant 0 <= i <= |inbuf| && (isNegative ==> i > 0)
      invariant Accumulated(inbuf, i, isNegative, a) && (i == 0 ==> inbuf[0] < 0x80)
    {
      NextOctet(inbuf, i, isNegative, a);
      if a > INT_MAX / 256 || a < INT_MIN + 256 { return SC_ERROR_NOT_SUPPORTED, out; }
      a := a * 256 + if isNegative then 255 - inbuf[i] else inbuf[i];
      i := i + 1;
    }
    assert inbuf[..i] == inbuf;
    if isNegative { a := -1 * a - 1; }
    return SC_SUCCESS, a;
  }

  lemma Pow256Upto4()
    ensures Pow256(0) == 1 && Pow256(1) == 0x100 && Pow256(2) == 0x1_0000
    ensures Pow256(3) == 0x100_0000 && Pow256(4) == TWO_32
  {
    assert Pow256(1) == 256 * Pow256(0);
    assert Pow256(2) == 256 * Pow256(1);
    assert Pow256(3) == 256 * Pow256(2);
    assert Pow256(4) == 256 * Pow256(3);
  }

  // ----- the shortest form -----

  /** Drop leading zeros, but leave one in front of an octet whose top bit is set. */
  function StripZeros(s: bytes): bytes {
    if s == [] then [] else if s[0] == 0 then StripZeros(s[1..]) else if s[0] >= 0x80 then [0] + s else s
  }

  /** Drop leading 0xFF, but leave one in front of an octet whose top bit is clear. */
  function StripOnes(s: bytes): bytes {
    if s == [] then [] else if s[0] == 0xFF then StripOnes(s[1..]) else if s[0] < 0x80 then [0xFF] + s else s
  }

  /** The contents octets of an int. */
  function IntOctets(v: int): bytes
    requires IsInt(v)
  {
    var s := if v < 0 then StripOnes(ToBe(v + TWO_32, 4)) else StripZeros(ToBe(v, 4));
    if s != [] then s else if v < 0 then [0xFF] else [0]
  }

  lemma StripNothing()
    ensures StripZeros([]) == [] && StripOnes([]) == []
  {
  }

  lemma {:induction false} StripZerosAppend(s: bytes, b: u8)
    ensures StripZeros(s + [b]) ==
      if StripZeros(s) != [] then StripZeros(s) + [b] else if b == 0 then [] else if b >= 0x80 then [0, b] else [b]
  {
    if s == [] {
      assert s + [b] == [b] && [0] + [b] == [0, b];
    } else if s[0] == 0 {
      StripZerosAppend(s[1..], b);
      assert (s + [b])[1..] == s[1..] + [b];
    } else {
      assert [0] + (s + [b]) == [0] + s + [b];
    }
  }

  lemma {:induction false} StripOnesAppend(s: bytes, b: u8)
    ensures StripOnes(s + [b]) ==
      if StripOnes(s) != [] then StripOnes(s) + [b] else if b == 0xFF then [] else if b < 0x80 then [0xFF, b] else [b]
  {
    if s == [] {
      assert s + [b] == [b] && [0xFF] + [b] == [0xFF, b];
    } else if s[0] == 0xFF {
      StripOnesAppend(s[1..], b);
      assert (s + [b])[1..] == s[1..] + [b];
    } else {
      assert [0xFF] + (s + [b]) == [0xFF] + s + [b];
    }
  }

  /** asn1_encode_integer: the octets from the top, leading sign octets skipped. */
  method EncodeInteger(v: int) returns (obj: array<u8>, objsize: nat)
    requires IsInt(v)
    ensures fresh(obj) && 1 <= objsize <= obj.Length && obj[..objsize] == IntOctets(v)
  {
    hide StripZeros, StripOnes, ToBe, ShiftedOctet, Pow256;
    obj := new u8[5](_ => 0);
    StripNothing();
    var i, p, skipSign, skipZero := 4, 0, v < 0, v >= 0;
    ghost var s := if v < 0 then ToBe(v + TWO_32, 4) else ToBe(v, 4);
    TopOctet(v);
    var first := true;
    while first || i > 0
      invariant 0 <= i <= 4 && (first <==> i == 4) && p <= 5 - i
      invariant v >= 0 ==> !skipSign && obj[..p] == StripZeros(s[..4 - i]) && (skipZero <==> p == 0)
      invariant v < 0 ==> !skipZero && obj[..p] == StripOnes(s[..4 - i]) && (skipSign <==> p == 0)
      invariant skipSign && i < 4 ==> obj[0] == 0xFF
      decreases i
    {
      first := false;
      i := i - 1;
      var b := ShiftedOctet(v, i);
      assert s[..4 - i] == s[..3 - i] + [b];
      StripZerosAppend(s[..3 - i], b);
      StripOnesAppend(s[..3 - i], b);
      if skipSign {
        if b != 0xFF { skipSign := false; }
        if b >= 0x80 {
          obj[p] := b;
          if b == 0xFF { continue; }
        } else {
          p := p + 1;
          skipSign := false;
        }
      }
      if b == 0 && skipZero { continue; }
      if skipZero {
        skipZero := false;
        if b >= 0x80 && v > 0 {
          obj[p] := 0;
          p := p + 1;
        }
      }
      obj[p] := b;
      p := p + 1;
    }
    assert s[..4] == s;
    if skipSign { p := p + 1; }
    objsize := p;
    if objsize == 0 {
      objsize := 1;
      obj[0] := 0;
    }
  }

  /** The low octet of `v >> 8i`. */
  function ShiftedOctet(v: int, i: nat): (b: u8)
    requires IsInt(v) && i < 4
    ensures b == (if v < 0 then ToBe(v + TWO_32, 4) else ToBe(v, 4))[3 - i]
    ensures v == 0 ==> b == 0
  {
    ToBeDigit(if v < 0 then v + TWO_32 else v, 4, 3 - i);
    WrapKeepsOctets(v, i);
    v / Pow256(i) % 256
  }

  lemma WrapKeepsOctets(v: int, i: nat)
    requires i < 4
    ensures (v + TWO_32) / Pow256(i) % 256 == v / Pow256(i) % 256
  {
    Pow256Upto4();
    var p := Pow256(i);
    var k := if i == 0 then 0x100_0000 else if i == 1 then 0x1_0000 else if i == 2 then 0x100 else 1;
    var q, r := v / p, v % p;
    assert v == p * q + r;
    assert p * (256 * k) == TWO_32;
    assert v + TWO_32 == p * (q + 256 * k) + r;
    DivUnique(v + TWO_32, p, q + 256 * k, r);
    DivUnique(q + 256 * k, 256, q / 256 + k, q % 256);
  }

  lemma TopOctet(v: int)
    requires IsInt(v)
    ensures v < 0 ==> ToBe(v + TWO_32, 4)[0] >= 0x80
    ensures v >= 0 ==> ToBe(v, 4)[0] < 0x80
  {
    ToBeDigit(if v < 0 then v + TWO_32 else v, 4, 0);
    Pow256Upto4();
  }

  // ----- ints and strictly accepted strings are in one-to-one correspondence -----

  lemma {:induction false} StripZerosMeaning(s: bytes)
    requires s == [] || s[0] < 0x80
    ensures var r := StripZeros(s);
      |r| <= |s| && Be(r) == Be(s) && (r != [] ==> Minimal(r) && r[0] < 0x80) && (r == [] ==> Be(s) == 0)
    decreases |s|
  {
    if s != [] && s[0] == 0 {
      var t := s[1..];
      BePrepend(0, t);
      assert [0] + t == s;
      if t != [] && t[0] >= 0x80 {
        assert StripZeros(t) == [0] + t;
      } else {
        StripZerosMeaning(t);
      }
    }
  }

  lemma {:induction false} StripOnesMeaning(s: bytes)
    requires s != [] && s[0] >= 0x80
    ensures var r := StripOnes(s);
      |r| <= |s| && (r != [] ==> Minimal(r) && r[0] >= 0x80 && Signed(r) == Signed(s)) && (r == [] ==> Signed(s) == -1)
    decreases |s|
  {
    if s[0] == 0xFF {
      var t := s[1..];
      BePrepend(0xFF, t);
      assert [0xFF] + t == s;
      if t == [] {
        assert s == [] + [0xFF];
        BeAppend([], 0xFF);
      } else if t[0] < 0x80 {
        assert StripOnes(t) == [0xFF] + t;
      } else {
        StripOnesMeaning(t);
      }
    }
  }

  lemma IntOctetsMeaning(v: int)
    requires IsInt(v)
    ensures 1 <= |IntOctets(v)| <= 4 && Minimal(IntOctets(v)) && Signed(IntOctets(v)) == v
  {
    TopOctet(v);
    Pow256Upto4();
    BeAppend([], 0xFF);
    BeAppend([], 0);
    assert [] + [0xFF] == [0xFF] && [] + [0] == [0];
    if v < 0 {
      BeToBe(v + TWO_32, 4);
      StripOnesMeaning(ToBe(v + TWO_32, 4));
    } else {
      BeToBe(v, 4);
      StripZerosMeaning(ToBe(v, 4));
    }
  }

  /** Two minimal strings of at most four octets with the same value are the same string. */
  lemma MinimalUnique(s: bytes, t: bytes)
    requires Minimal(s) && Minimal(t) && |s| <= |t| <= 4 && Signed(s) == Signed(t)
    ensures s == t
  {
    Pow256Upto4();
    SignedRange(s);
    if |s| < |t| {
      MinimalLarge(t);
      SignedWiden(|s|, |t|);
    } else {
      ToBeBe(s);
      ToBeBe(t);
    }
  }

  lemma SignedRange(s: bytes)
    requires s != []
    ensures -0x80 * Pow256(|s| - 1) <= Signed(s) < 0x80 * Pow256(|s| - 1)
  {
    ToBeBe(s[1..]);
    BePrepend(s[0], s[1..]);
    assert s == [s[0]] + s[1..];
    hide Be;
    var p := Pow256(|s| - 1);
    if s[0] >= 0x80 {
      MulLe(p, 0x80, s[0]);
      MulLe(p, s[0], 0xFF);
    } else {
      MulLe(p, s[0], 0x7F);
      MulLe(p, 0, s[0]);
    }
  }

  /** A minimal string of several octets does not fit into one octet less. */
  lemma MinimalLarge(t: bytes)
    requires Minimal(t) && |t| > 1
    ensures !(-0x80 * Pow256(|t| - 2) <= Signed(t) < 0x80 * Pow256(|t| - 2))
  {
    BeOfTwoMore(t);
    hide Be, Pow256;
    var p, n := Pow256(|t| - 2), 256 * t[0] as int + t[1];
    if t[0] >= 0x80 {
      MulLe(p, n, 0xFF7F);
    } else {
      MulLe(p, 0x80, n);
    }
  }

  lemma BeOfTwoMore(t: bytes)
    requires |t| > 1
    ensures var p, n := Pow256(|t| - 2), 256 * t[0] as int + t[1];
      n * p <= Be(t) < n * p + p && Pow256(|t|) == 0x1_0000 * p
  {
    hide Be, ToBe, Pow256;
    var u := t[2..];
    ToBeBe(u);
    BeOfTwo(t[0], t[1], u);
    assert t == [t[0]] + ([t[1]] + u);
    MulStep(Pow256(|u|), 256 * t[0] as int + t[1], 256 * t[0] as int + t[1] + 1);
  }

  lemma BeOfTwo(a: u8, b: u8, u: bytes)
    ensures Be([a] + ([b] + u)) == (256 * a as int + b) * Pow256(|u|) + Be(u)
    ensures Pow256(|u| + 2) == 0x1_0000 * Pow256(|u|)
  {
    BePrepend(b, u);
    BePrepend(a, [b] + u);
    hide Be;
    assert Pow256(|u| + 1) == 256 * Pow256(|u|) && Pow256(|u| + 2) == 256 * Pow256(|u| + 1);
    Regroup(a, b, Pow256(|u|));
  }

  lemma Regroup(a: int, b: int, p: int)
    ensures a * (256 * p) + b * p == (256 * a + b) * p
  {
  }

  lemma SignedWiden(k: nat, n: nat)
    requires 1 <= k < n <= 4
    ensures Pow256(k - 1) <= Pow256(n - 2)
  {
    Pow256Upto4();
  }

  lemma SignedIsInt(s: bytes)
    requires 1 <= |s| <= 4
    ensures IsInt(Signed(s))
  {
    Pow256Upto4();
    SignedRange(s);
  }

  /** Decoding undoes encoding, strictly or not. */
  lemma DecodeEncoded(v: int, strict: bool)
    requires IsInt(v)
    ensures Decode(IntOctets(v), strict) == Int(v)
  {
    IntOctetsMeaning(v);
  }

  /** Encoding undoes strict decoding: what strict mode accepts is the one encoding of its value. */
  lemma EncodeDecoded(s: bytes)
    ensures Decode(s, true).Int? <==> 1 <= |s| <= 4 && Minimal(s)
    ensures Decode(s, true).Int? ==> IsInt(Decode(s, true).v) && IntOctets(Decode(s, true).v) == s
  {
    if Decode(s, true).Int? {
      var v := Signed(s);
      Pow256Upto4();
      SignedRange(s);
      IntOctetsMeaning(v);
      var t := IntOctets(v);
      if |s| <= |t| { MinimalUnique(s, t); } else { MinimalUnique(t, s); }
    }
  }

  /** No string that decodes to the same number is shorter than the encoder's. */
  lemma EncodedIsShortest(v: int, s: bytes)
    requires IsInt(v) && Decode(s, false) == Int(v)
    ensures |IntOctets(v)| <= |s|
  {
    IntOctetsMeaning(v);
    var t := IntOctets(v);
    Pow256Upto4();
    SignedRange(s);
    if |s| < |t| {
      MinimalLarge(t);
      SignedWiden(|s|, |t|);
    }
  }

  // ----- without strictness -----

  /** The octet that repeats the sign. */
  function SignOctet(v: int): u8 {
    if v < 0 then 0xFF else 0
  }

  lemma SignExtended(s: bytes)
    requires s != []
    ensures Signed([SignOctet(Signed(s))] + s) == Signed(s) && (Signed(s) < 0 <==> s[0] >= 0x80)
  {
    hide Be, Pow256;
    BePrepend(0, s);
    BePrepend(0xFF, s);
    TopHalf(s);
  }

  lemma TopHalf(s: bytes)
    requires s != []
    ensures Be(s) < Pow256(|s|) && Pow256(|s| + 1) == 256 * Pow256(|s|)
  {
    ToBeBe(s);
  }

  /** Without strictness every string of one to four octets is read: it is the encoding of its value
      with up to three octets of its sign in front. */
  lemma {:induction false} NonStrict(s: bytes)
    ensures Decode(s, false).Int? <==> 1 <= |s| <= 4
    ensures 1 <= |s| <= 4 ==>
      var v := Decode(s, false).v;
      IsInt(v) && |IntOctets(v)| <= |s| && s == seq(|s| - |IntOctets(v)|, _ => SignOctet(v)) + IntOctets(v)
  {
    if 1 <= |s| <= 4 {
      if Minimal(s) {
        EncodeDecoded(s);
      } else {
        var r := s[1..];
        assert s == [s[0]] + r;
        NonStrict(r);
        SignExtended(r);
        var v := Signed(r);
        var k := |r| - |IntOctets(v)|;
        hide IntOctets, Signed;
        assert [SignOctet(v)] + seq(k, _ => SignOctet(v)) == seq(k + 1, _ => SignOctet(v));
      }
    }
  }
}
