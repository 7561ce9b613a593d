/** BIT STRING contents (section 8.6 of ITU-T X.690): encode_bit_string (inverting form),
    decode_bit_string and the bit fields of `OpenSC/src/libopensc/asn1.c`. In memory bit k of a
    string is bit k%8, counted from the least significant, of octet k/8; on the wire the first bit
    of an octet is the most significant one. */
module DerBits {
  import opened Octets

  // ----- octets as bits -----

  function Pow2(k: nat): (r: nat)
    ensures r > 0
  {
    if k == 0 then 1 else 2 * Pow2(k - 1)
  }

  /** The number with these bits, least significant first. */
  function FromBits(s: seq<bool>): (r: nat)
    ensures r < Pow2(|s|)
  {
    if s == [] then 0 else (if s[0] then 1 else 0) + 2 * FromBits(s[1..])
  }

  function ToBits(n: nat, k: nat): (s: seq<bool>)
    ensures |s| == k
  {
    if k == 0 then [] else [n % 2 == 1] + ToBits(n / 2, k - 1)
  }

  function OctetBits(b: u8): (s: seq<bool>)
    ensures |s| == 8
  {
    ToBits(b, 8)
  }

  function BitsOctet(s: seq<bool>): u8
    requires |s| == 8
  {
    assert Pow2(2) == 4 && Pow2(4) == 16 && Pow2(6) == 64 && Pow2(8) == 256;
    FromBits(s)
  }

  lemma {:induction false} ToBitsFromBits(s: seq<bool>)
    ensures ToBits(FromBits(s), |s|) == s
  {
    if s != [] {
      ToBitsFromBits(s[1..]);
    }
  }

  lemma OctetBitsOfOctet(s: seq<bool>)
    requires |s| == 8
    ensures OctetBits(BitsOctet(s)) == s
  {
    ToBitsFromBits(s);
  }

  lemma {:induction false} FromBitsToBits(n: nat, k: nat)
    requires n < Pow2(k)
    ensures FromBits(ToBits(n, k)) == n
  {
    if k > 0 {
      FromBitsToBits(n / 2, k - 1);
      assert ToBits(n, k)[1..] == ToBits(n / 2, k - 1);
    }
  }

  lemma {:induction false} BitDigit(n: nat, k: nat, i: nat)
    requires i < k
    ensures ToBits(n, k)[i] == (n / Pow2(i) % 2 == 1)
  {
    if i > 0 {
      BitDigit(n / 2, k - 1, i - 1);
      DivDiv(n, 2, Pow2(i - 1));
    }
  }

  /** Setting a clear bit adds its weight. */
  lemma {:induction false} SetBit(s: seq<bool>, p: nat)
    requires p < |s| && !s[p]
    ensures FromBits(s[p := true]) == FromBits(s) + Pow2(p)
  {
    if p > 0 {
      SetBit(s[1..], p - 1);
      assert s[p := true][1..] == s[1..][p - 1 := true];
    }
  }

  /** Bit k of a string in memory. */
  function MemBit(data: bytes, k: nat): bool
    requires k < 8 * |data|
  {
    OctetBits(data[k / 8])[k % 8]
  }

  /** Bit k of the contents octets after the initial one. */
  function WireBit(c: bytes, k: nat): bool
    requires k < 8 * (|c| - 1)
  {
    OctetBits(c[1 + k / 8])[7 - k % 8]
  }

  function OctetsFor(n: nat): nat {
    (n + 7) / 8
  }

  // ----- encoding -----

  /** The bits of an octet in the opposite order, only the first m of them. */
  function Flipped(s: seq<bool>, m: nat): (r: seq<bool>)
    requires |s| == 8
    ensures |r| == 8
  {
    seq(8, q requires 0 <= q < 8 => 7 - q < m && s[7 - q])
  }

  /** How many bits of a string of n are in octet j. */
  function BitsIn(n: nat, j: nat): nat {
    if n <= 8 * j then 0 else if n - 8 * j < 8 then n - 8 * j else 8
  }

  function EncodeBits(data: bytes, n: nat): bytes
    requires OctetsFor(n) <= |data|
  {
    [8 * OctetsFor(n) - n]
    + seq(OctetsFor(n), j requires 0 <= j < OctetsFor(n) => BitsOctet(Flipped(OctetBits(data[j]), BitsIn(n, j))))
  }

  /** What the encoding is, bit by bit. */
  lemma EncodedBits(data: bytes, n: nat)
    requires OctetsFor(n) <= |data|
    ensures var c := EncodeBits(data, n);
      && |c| == 1 + OctetsFor(n) && c[0] == 8 * OctetsFor(n) - n
      && forall k :: 0 <= k < 8 * OctetsFor(n) ==> WireBit(c, k) == (k < n && MemBit(data, k))
  {
    var c := EncodeBits(data, n);
    forall k | 0 <= k < 8 * OctetsFor(n) ensures WireBit(c, k) == (k < n && MemBit(data, k)) {
      var j := k / 8;
      ToBitsFromBits(Flipped(OctetBits(data[j]), BitsIn(n, j)));
    }
  }

  method FlipOctet(b: u8, bitsToGo: nat) returns (out: u8)
    requires bitsToGo <= 8
    ensures out == BitsOctet(Flipped(OctetBits(b), bitsToGo))
  {
    out := 0;
    var i := 0;
    AllClear(8);
    assert Flipped(OctetBits(b), 0) == seq(8, _ => false);
    while i < bitsToGo
      invariant 0 <= i <= bitsToGo && out == BitsOctet(Flipped(OctetBits(b), i))
    {
      FlipStep(b, i);
      out := out + (b / Pow2(i) % 2) * Pow2(7 - i);
      i := i + 1;
    }
  }

  lemma OctetDigit(b: u8, i: nat)
    requires i < 8
    ensures b / Pow2(i) % 2 == if OctetBits(b)[i] then 1 else 0
  {
    BitDigit(b, 8, i);
  }

  lemma SetOctetBit(s: seq<bool>, p: nat)
    requires |s| == 8 && p < 8 && !s[p]
    ensures BitsOctet(s[p := true]) == BitsOctet(s) + Pow2(p)
  {
    SetBit(s, p);
  }

  lemma FlipStep(b: u8, i: nat)
    requires i < 8
    ensures BitsOctet(Flipped(OctetBits(b), i + 1)) == BitsOctet(Flipped(OctetBits(b), i)) + (b / Pow2(i) % 2) * Pow2(7 - i)
  {
    hide BitsOctet, OctetBits, Pow2;
    var s := OctetBits(b);
    OctetDigit(b, i);
    if s[i] { SetOctetBit(Flipped(s, i), 7 - i); }
    assert Flipped(s, i + 1) == if s[i] then Flipped(s, i)[7 - i := true] else Flipped(s, i);
  }

  /** encode_bit_string with inversion; `bitsLeft` is the number of bits. */
  method EncodeBitString(inbuf: bytes, bitsLeft0: nat) returns (outbuf: array<u8>)
    requires OctetsFor(bitsLeft0) <= |inbuf|
    ensures fresh(outbuf) && outbuf[..] == EncodeBits(inbuf, bitsLeft0)
  {
    hide BitsOctet, Flipped;
    outbuf := new u8[OctetsFor(bitsLeft0) + 1](_ => 0);
    var bitsLeft, skipped, j := bitsLeft0, 0, 0;
    ghost var c := EncodeBits(inbuf, bitsLeft0);
    while bitsLeft != 0
      invariant 0 <= j <= OctetsFor(bitsLeft0) && 0 <= bitsLeft
      invariant bitsLeft == if 8 * j <= bitsLeft0 then bitsLeft0 - 8 * j else 0
      invariant skipped == if bitsLeft == 0 then 8 * OctetsFor(bitsLeft0) - bitsLeft0 else 0
      invariant bitsLeft == 0 ==> j == OctetsFor(bitsLeft0)
      invariant forall i :: 1 <= i <= j ==> outbuf[i] == c[i]
    {
      var bitsToGo := 8;
      if bitsLeft < 8 {
        bitsToGo := bitsLeft;
        skipped := 8 - bitsLeft;
      }
      outbuf[1 + j] := FlipOctet(inbuf[j], bitsToGo);
      bitsLeft := bitsLeft - bitsToGo;
      j := j + 1;
    }
    outbuf[0] := skipped;
  }

  // ----- decoding -----

  function Unflipped(s: seq<bool>, m: nat): (r: seq<bool>)
    requires |s| == 8
    ensures |r| == 8
  {
    seq(8, q requires 0 <= q < 8 => q < m && s[7 - q])
  }

  /** `n` is the number of bits; the octets after `data` are zero. */
  datatype BitsResult = Bits(n: int, data: bytes) | Error(code: int)

  function DecodedOctet(c: bytes, j: nat, invert: bool): u8
    requires 1 + j < |c|
  {
    var unused := if j == |c| - 2 then c[0] % 8 else 0;
    if invert then BitsOctet(Unflipped(OctetBits(c[1 + j]), 8 - unused)) else c[1 + j]
  }

  predicate PaddingSet(c: bytes)
    requires |c| >= 1
  {
    |c| > 1 && c[0] % 8 > 0 && OctetBits(c[|c| - 1])[c[0] % 8 - 1]
  }

  function DecodeBits(c: bytes, outlen: nat, invert: bool, strict: bool): BitsResult {
    if c == [] then Error(SC_ERROR_INVALID_ASN1_OBJECT)
    else if strict && ((|c| == 1 && c[0] != 0) || c[0] > 7) then Error(SC_ERROR_INVALID_ASN1_OBJECT)
    else if outlen < |c| - 1 then Error(SC_ERROR_BUFFER_TOO_SMALL)
    else if PaddingSet(c) then Error(SC_ERROR_INVALID_ASN1_OBJECT)
    else Bits(8 * (|c| - 1) - c[0] % 8, seq(|c| - 1, j requires 0 <= j < |c| - 1 => DecodedOctet(c, j, invert)))
  }

  method UnflipOctet(b: u8, bitsToGo: nat) returns (out: u8)
    requires bitsToGo <= 8
    ensures out == BitsOctet(Unflipped(OctetBits(b), bitsToGo))
  {
    out := 0;
    var i := 0;
    AllClear(8);
    assert Unflipped(OctetBits(b), 0) == seq(8, _ => false);
    while i < bitsToGo
      invariant 0 <= i <= bitsToGo && out == BitsOctet(Unflipped(OctetBits(b), i))
    {
      UnflipStep(b, i);
      out := out + (b / Pow2(7 - i) % 2) * Pow2(i);
      i := i + 1;
    }
  }

  lemma UnflipStep(b: u8, i: nat)
    requires i < 8
    ensures BitsOctet(Unflipped(OctetBits(b), i + 1)) == BitsOctet(Unflipped(OctetBits(b), i)) + (b / Pow2(7 - i) % 2) * Pow2(i)
  {
    hide BitsOctet, OctetBits, Pow2;
    var s := OctetBits(b);
    OctetDigit(b, 7 - i);
    if s[7 - i] { SetOctetBit(Unflipped(s, i), i); }
    assert Unflipped(s, i + 1) == if s[7 - i] then Unflipped(s, i)[i := true] else Unflipped(s, i);
  }

  /** decode_bit_string: the number of bits or an error code. */
  method DecodeBitString(inbuf: bytes, outbuf: array<u8>, invert: bool, strict: bool) returns (r: int)
    modifies outbuf
    ensures match DecodeBits(inbuf, outbuf.Length, invert, strict)
      case Bits(n, data) => r == n && outbuf[..] == data + seq(outbuf.Length - |data|, _ => 0)
      case Error(e) => r == e
  {
    hide BitsOctet, Unflipped, OctetBits;
    if |inbuf| < 1 { return SC_ERROR_INVALID_ASN1_OBJECT; }
    if strict {
      if |inbuf| == 1 && inbuf[0] != 0 { return SC_ERROR_INVALID_ASN1_OBJECT; }
      if inbuf[0] > 7 { return SC_ERROR_INVALID_ASN1_OBJECT; }
    }
    ClearAll(outbuf);
    var zeroBits := inbuf[0] % 8;
    var octetsLeft, count := |inbuf| - 1, 0;
    if outbuf.Length < octetsLeft { return SC_ERROR_BUFFER_TOO_SMALL; }
    while octetsLeft != 0
      invariant 0 <= count <= |inbuf| - 1 && octetsLeft == |inbuf| - 1 - count
      invariant forall j :: 0 <= j < count ==> outbuf[j] == DecodedOctet(inbuf, j, invert)
      invariant forall j :: count <= j < outbuf.Length ==> outbuf[j] == 0
      invariant octetsLeft == 0 ==> !PaddingSet(inbuf)
    {
      var bitsToGo := 8;
      if octetsLeft == 1 && zeroBits > 0 {
        bitsToGo := 8 - zeroBits;
        PaddingBit(inbuf);
        assert 1 + count == |inbuf| - 1;
        if inbuf[1 + count] / Pow2(zeroBits - 1) % 2 == 1 { return SC_ERROR_INVALID_ASN1_OBJECT; }
      }
      if invert {
        outbuf[count] := UnflipOctet(inbuf[1 + count], bitsToGo);
      } else {
        outbuf[count] := inbuf[1 + count];
      }
      octetsLeft, count := octetsLeft - 1, count + 1;
    }
    return count * 8 - zeroBits;
  }

  lemma PaddingBit(c: bytes)
    requires |c| > 1 && c[0] % 8 > 0
    ensures PaddingSet(c) <==> c[|c| - 1] / Pow2(c[0] % 8 - 1) % 2 == 1
  {
    BitDigit(c[|c| - 1], 8, c[0] % 8 - 1);
  }

  method ClearAll(outbuf: array<u8>)
    modifies outbuf
    ensures forall j :: 0 <= j < outbuf.Length ==> outbuf[j] == 0
  {
    for i := 0 to outbuf.Length
      invariant forall j :: 0 <= j < i ==> outbuf[j] == 0
    {
      outbuf[i] := 0;
    }
  }

  /** Decoding undoes encoding, in strict mode too: all n bits come back, zeros follow them. */
  lemma DecodeEncoded(data: bytes, n: nat, outlen: nat, strict: bool)
    requires OctetsFor(n) <= |data| && OctetsFor(n) <= outlen
    ensures var r := DecodeBits(EncodeBits(data, n), outlen, true, strict);
      && r.Bits? && r.n == n && |r.data| == OctetsFor(n)
      && forall k :: 0 <= k < 8 * OctetsFor(n) ==> MemBit(r.data, k) == (k < n && MemBit(data, k))
  {
    var c := EncodeBits(data, n);
    EncodedBits(data, n);
    NoPaddingSet(data, n);
    hide BitsOctet, OctetBits, EncodeBits, PaddingSet, MemBit, WireBit;
    var r := DecodeBits(c, outlen, true, strict);
    forall k | 0 <= k < 8 * OctetsFor(n) ensures MemBit(r.data, k) == (k < n && MemBit(data, k)) {
      assert WireBit(c, k) == (k < n && MemBit(data, k));
      DecodedMemBit(c, r.data, k);
    }
  }

  lemma NoPaddingSet(data: bytes, n: nat)
    requires OctetsFor(n) <= |data|
    ensures !PaddingSet(EncodeBits(data, n))
  {
    hide OctetBits, EncodeBits, MemBit;
    var c := EncodeBits(data, n);
    EncodedBits(data, n);
    if |c| > 1 && c[0] > 0 {
      assert n / 8 == |c| - 2 && n % 8 == 8 - c[0];
      assert !WireBit(c, n);
    }
  }

  lemma DecodedMemBit(c: bytes, data: bytes, k: nat)
    requires c != [] && c[0] < 8 && k < 8 * (|c| - 1)
    requires data == seq(|c| - 1, j requires 0 <= j < |c| - 1 => DecodedOctet(c, j, true))
    ensures MemBit(data, k) == (k < 8 * (|c| - 1) - c[0] && WireBit(c, k))
  {
    hide OctetBits, DecodedOctet;
    DecodedBit(c, k / 8, k % 8);
    assert k == 8 * (k / 8) + k % 8;
  }

  lemma DecodedBit(c: bytes, j: nat, q: nat)
    requires 1 + j < |c| && q < 8 && c[0] < 8
    ensures OctetBits(DecodedOctet(c, j, true))[q] == (8 * j + q < 8 * (|c| - 1) - c[0] && OctetBits(c[1 + j])[7 - q])
  {
    var m := if j == |c| - 2 then 8 - c[0] else 8;
    hide OctetBits, BitsOctet, Unflipped;
    assert DecodedOctet(c, j, true) == BitsOctet(Unflipped(OctetBits(c[1 + j]), m));
    UnflippedBit(OctetBits(c[1 + j]), m, q);
  }

  lemma UnflippedBit(s: seq<bool>, m: nat, q: nat)
    requires |s| == 8 && q < 8
    ensures OctetBits(BitsOctet(Unflipped(s, m)))[q] == (q < m && s[7 - q])
  {
    ToBitsFromBits(Unflipped(s, m));
    hide FromBits, ToBits;
  }

  lemma {:induction false} AllClear(k: nat)
    ensures FromBits(seq(k, _ => false)) == 0
  {
    if k > 0 {
      AllClear(k - 1);
      assert seq(k, _ => false)[1..] == seq(k - 1, _ => false);
    }
  }

  // ----- bit fields: bit strings kept in an unsigned int -----

  function BitLength(field: nat): nat {
    if field == 0 then 0 else 1 + BitLength(field / 2)
  }

  /** The octets of a 32-bit number, least significant first. */
  function Le(field: nat): (s: bytes)
    ensures |s| == 4
  {
    [field % 256, field / 0x100 % 256, field / 0x1_0000 % 256, field / 0x100_0000 % 256]
  }

  function FromLe(s: bytes): (r: nat)
    requires |s| == 4
    ensures r < TWO_32
  {
    s[0] as int + s[1] as int * 0x100 + s[2] as int * 0x1_0000 + s[3] as int * 0x100_0000
  }

  lemma {:induction false} BitLengthFits(field: nat)
    ensures field < Pow2(BitLength(field))
  {
    if field > 0 {
      BitLengthFits(field / 2);
    }
  }

  lemma {:induction false} BitLengthBound(field: nat, k: nat)
    requires field < Pow2(k)
    ensures BitLength(field) <= k
  {
    if field > 0 {
      BitLengthBound(field / 2, k - 1);
    }
  }

  function EncodeField(field: nat): bytes
    requires field < TWO_32
  {
    FieldLength(field);
    EncodeBits(Le(field), BitLength(field))
  }

  lemma FieldLength(field: nat)
    requires field < TWO_32
    ensures BitLength(field) <= 32
  {
    OctetWeights();
    BitLengthBound(field, 32);
  }

  lemma Pow2Octet(k: nat)
    ensures Pow2(k + 8) == 256 * Pow2(k)
  {
    assert Pow2(k + 8) == 2 * Pow2(k + 7) && Pow2(k + 6) == 2 * Pow2(k + 5);
    assert Pow2(k + 4) == 2 * Pow2(k + 3) && Pow2(k + 2) == 2 * Pow2(k + 1);
  }

  datatype FieldResult = Field(v: nat) | FieldError(code: int)

  /** The octets with zeros behind them, four in all. */
  function Filled(data: bytes): (s: bytes)
    requires |data| <= 4
    ensures |s| == 4
  {
    data + seq(4 - |data|, _ => 0)
  }

  function DecodeField(c: bytes, strict: bool): FieldResult {
    match DecodeBits(c, 4, true, strict)
    case Error(e) => FieldError(e)
    case Bits(n, data) =>
      if n < 0 then FieldError(n) else Field(FromLe(Filled(data)))
  }

  /** encode_bit_field for the four octets of an unsigned int. */
  method EncodeBitField(field0: nat) returns (outbuf: array<u8>)
    requires field0 < TWO_32
    ensures fresh(outbuf) && outbuf[..] == EncodeField(field0)
  {
    var field, bits := field0, 0;
    while field != 0
      invariant BitLength(field0) == bits + BitLength(field)
    {
      field, bits := field / 2, bits + 1;
    }
    FieldLength(field0);
    outbuf := EncodeBitString(Le(field0), bits);
  }

  /** decode_bit_field into an unsigned int. */
  method DecodeBitField(inbuf: bytes, strict: bool) returns (r: int, field: nat)
    ensures match DecodeField(inbuf, strict)
      case Field(v) => r == SC_SUCCESS && field == v
      case FieldError(e) => r == e
  {
    hide Pow256, FromLe, DecodedOctet, PaddingSet;
    field := 0;
    var data := new u8[4](_ => 0);
    var n := DecodeBitString(inbuf, data, true, strict);
    r := n;
    if n < 0 { return; }
    ghost var d := data[..];
    var i := 0;
    while 8 * i < n
      invariant 0 <= i <= 4 && data[..] == d && field == LeSum(d, i)
    {
      assert LeSum(d, i + 1) == field + data[i] * Pow256(i);
      field := field + data[i] * Pow256(i);
      i := i + 1;
    }
    LeSumWhole(d, i);
    r := SC_SUCCESS;
  }

  /** The number the first i octets stand for, least significant first. */
  function LeSum(d: bytes, i: nat): nat
    requires i <= |d|
  {
    if i == 0 then 0 else LeSum(d, i - 1) + d[i - 1] * Pow256(i - 1)
  }

  lemma LeSumWhole(d: bytes, i: nat)
    requires |d| == 4 && i <= 4 && forall j :: i <= j < 4 ==> d[j] == 0
    ensures LeSum(d, i) == FromLe(d)
  {
    assert Pow256(1) == 256 && Pow256(2) == 0x1_0000 && Pow256(3) == 0x100_0000;
    assert LeSum(d, 1) == d[0];
    assert LeSum(d, 2) == d[0] as int + d[1] as int * 0x100;
    assert LeSum(d, 3) == d[0] as int + d[1] as int * 0x100 + d[2] as int * 0x1_0000;
  }

  lemma {:induction false} HighBitsClear(x: nat, k: nat, n: nat, i: nat)
    requires x < Pow2(n) && n <= i < k
    ensures !ToBits(x, k)[i]
  {
    if n > 0 {
      HighBitsClear(x / 2, k - 1, n - 1, i - 1);
    } else if i > 0 {
      HighBitsClear(0, k - 1, 0, i - 1);
    }
  }

  /** Octet j of the field, cut off at the bit length, is octet j. */
  lemma OctetOfField(field: nat, j: nat)
    requires field < TWO_32 && j < 4
    ensures 8 * j >= BitLength(field) ==> Le(field)[j] == 0
    ensures 8 * j < BitLength(field) < 8 * j + 8 ==> Le(field)[j] < Pow2(BitLength(field) - 8 * j)
  {
    LeOctet(field, j);
    hide Pow2, BitLength, Le;
    CutOctet(field, j);
  }

  lemma CutOctet(field: nat, j: nat)
    ensures 8 * j >= BitLength(field) ==> field / Pow2(8 * j) % 256 == 0
    ensures 8 * j < BitLength(field) < 8 * j + 8 ==> field / Pow2(8 * j) % 256 < Pow2(BitLength(field) - 8 * j)
  {
    BitLengthFits(field);
    hide Pow2, BitLength;
    ShiftSmall(field, BitLength(field), 8 * j);
    LowOctet(field / Pow2(8 * j), BitLength(field) - 8 * j);
  }

  lemma LowOctet(x: nat, m: int)
    requires if m <= 0 then x == 0 else x < Pow2(m)
    ensures m <= 0 ==> x % 256 == 0
    ensures 0 < m < 8 ==> x % 256 < Pow2(m)
  {
    if 0 < m < 8 {
      OctetWeights();
      hide Pow2;
      Pow2Upto(m, 8);
      DivUnique(x, 256, 0, x);
    }
  }

  lemma LeOctet(field: nat, j: nat)
    requires field < TWO_32 && j < 4
    ensures Le(field)[j] == field / Pow2(8 * j) % 256
  {
    OctetWeights();
    if j == 0 {
    } else if j == 1 {
    } else if j == 2 {
    } else {
    }
  }

  lemma ShiftSmall(x: nat, n: nat, m: nat)
    requires x < Pow2(n)
    ensures m >= n ==> x / Pow2(m) == 0
    ensures m < n ==> x / Pow2(m) < Pow2(n - m)
  {
    if m >= n {
      Pow2Upto(n, m);
      DivUnique(x, Pow2(m), 0, x);
    } else {
      Pow2Add(m, n - m);
      DivLess(x, Pow2(m), Pow2(n - m));
    }
  }

  lemma {:induction false} Pow2Upto(a: nat, b: nat)
    requires a <= b
    ensures Pow2(a) <= Pow2(b)
  {
    if a < b {
      Pow2Upto(a, b - 1);
    }
  }

  lemma OctetWeights()
    ensures Pow2(0) == 1 && Pow2(8) == 0x100 && Pow2(16) == 0x1_0000 && Pow2(24) == 0x100_0000 && Pow2(32) == TWO_32
  {
    Pow2Octet(0);
    Pow2Octet(8);
    Pow2Octet(16);
    Pow2Octet(24);
  }

  lemma {:induction false} Pow2Add(a: nat, b: nat)
    ensures Pow2(a + b) == Pow2(a) * Pow2(b)
  {
    if a > 0 {
      Pow2Add(a - 1, b);
    }
  }

  lemma DivLess(x: nat, a: nat, b: nat)
    requires a > 0 && x < a * b
    ensures x / a < b
  {
    MulStep(a, b, x / a + 1);
  }

  lemma SameOctet(d: u8, b: u8, m: nat)
    requires forall q :: 0 <= q < 8 ==> OctetBits(d)[q] == (q < m && OctetBits(b)[q])
    requires m < 8 ==> b < Pow2(m)
    ensures d == b
  {
    OctetWeights();
    forall q | 0 <= q < 8 ensures OctetBits(d)[q] == OctetBits(b)[q] {
      if q >= m { HighBitsClear(b, 8, m, q); }
    }
    assert OctetBits(d) == OctetBits(b);
    FromBitsToBits(d, 8);
    FromBitsToBits(b, 8);
  }

  /** Decoding a bit field undoes encoding it, for every 32-bit number. */
  lemma DecodeFieldEncoded(field: nat, strict: bool)
    requires field < TWO_32
    ensures DecodeField(EncodeField(field), strict) == Field(field)
  {
    FieldLength(field);
    var n := BitLength(field);
    DecodeEncoded(Le(field), n, 4, strict);
    hide OctetBits, DecodeBits, EncodeBits, MemBit, Le;
    var data := DecodeBits(EncodeField(field), 4, true, strict).data;
    var d := Filled(data);
    forall j | 0 <= j < 4 ensures d[j] == Le(field)[j] {
      if j < OctetsFor(n) {
        FieldOctet(field, data, j);
      } else {
        OctetOfField(field, j);
      }
    }
    assert d == Le(field);
    LeFromLe(field);
  }

  lemma LeFromLe(field: nat)
    requires field < TWO_32
    ensures FromLe(Le(field)) == field
  {
    DivDiv(field, 0x100, 0x100);
    DivDiv(field, 0x1_0000, 0x100);
    DivUnique(field / 0x100_0000, 256, 0, field / 0x100_0000);
    Digits(field, field / 0x100, field / 0x1_0000, field / 0x100_0000);
  }

  lemma Digits(a: nat, b: nat, c: nat, d: nat)
    requires b == a / 256 && c == b / 256 && d == c / 256
    ensures a == a % 256 + b % 256 * 0x100 + c % 256 * 0x1_0000 + d * 0x100_0000
  {
  }

  lemma FieldOctet(field: nat, data: bytes, j: nat)
    requires field < TWO_32 && 8 * j < BitLength(field) && |data| == OctetsFor(BitLength(field)) <= 4
    requires forall k :: 0 <= k < 8 * |data| ==> MemBit(data, k) == (k < BitLength(field) && MemBit(Le(field), k))
    ensures data[j] == Le(field)[j]
  {
    hide Le, BitLength;
    OctetOfField(field, j);
    forall q | 0 <= q < 8 ensures OctetBits(data[j])[q] == (q < BitLength(field) - 8 * j && OctetBits(Le(field)[j])[q]) {
      assert MemBit(data, 8 * j + q) == (8 * j + q < BitLength(field) && MemBit(Le(field), 8 * j + q));
      MemBitAt(data, j, q);
      MemBitAt(Le(field), j, q);
    }
    SameOctet(data[j], Le(field)[j], BitLength(field) - 8 * j);
  }

  lemma MemBitAt(data: bytes, j: nat, q: nat)
    requires j < |data| && q < 8
    ensures MemBit(data, 8 * j + q) == OctetBits(data[j])[q]
  {
    assert (8 * j + q) / 8 == j && (8 * j + q) % 8 == q;
  }

  // ----- what the decoder accepts -----

  /** The number of unused bits and of used ones, as the initial octet has it. */
  function Unused(c: bytes): nat
    requires c != []
  {
    c[0] % 8
  }

  function Used(c: bytes): int
    requires c != []
  {
    8 * (|c| - 1) - Unused(c)
  }

  lemma PaddingIsFirstUnused(c: bytes)
    requires c != []
    ensures PaddingSet(c) <==> |c| > 1 && Unused(c) > 0 && WireBit(c, Used(c))
  {
    hide OctetBits;
    if |c| > 1 && Unused(c) > 0 { assert Used(c) / 8 == |c| - 2 && Used(c) % 8 == 8 - Unused(c); }
  }

  /** All that the decoder does, on any octets. Of the unused bits only the first is looked at. With
      inversion the used bits come out, in the other order within each octet; without it the octets do. */
  lemma {:induction false} DecodeBitsMeans(c: bytes, outlen: nat, invert: bool, strict: bool)
    ensures var r := DecodeBits(c, outlen, invert, strict);
      var loose := c == [] || (strict && (c[0] > 7 || (|c| == 1 && c[0] > 0)));
      if loose then r == Error(SC_ERROR_INVALID_ASN1_OBJECT)
      else if outlen < |c| - 1 then r == Error(SC_ERROR_BUFFER_TOO_SMALL)
      else if |c| > 1 && Unused(c) > 0 && WireBit(c, Used(c)) then r == Error(SC_ERROR_INVALID_ASN1_OBJECT)
      else
        && r.Bits? && r.n == Used(c) && |r.data| == |c| - 1
        && (!invert ==> r.data == c[1..])
        && (invert ==> forall k :: 0 <= k < 8 * |r.data| ==> MemBit(r.data, k) == (k < Used(c) && WireBit(c, k)))
  {
    hide OctetBits, BitsOctet, Unflipped, WireBit, MemBit, PaddingSet;
    if c != [] { PaddingIsFirstUnused(c); }
    var r := DecodeBits(c, outlen, invert, strict);
    if r.Bits? && invert {
      forall k | 0 <= k < 8 * |r.data| ensures MemBit(r.data, k) == (k < Used(c) && WireBit(c, k)) {
        AnyDecodedBit(c, r.data, k);
      }
    }
  }

  lemma AnyDecodedBit(c: bytes, data: bytes, k: nat)
    requires c != [] && k < 8 * (|c| - 1)
    requires data == seq(|c| - 1, j requires 0 <= j < |c| - 1 => DecodedOctet(c, j, true))
    ensures MemBit(data, k) == (k < Used(c) && WireBit(c, k))
  {
    hide OctetBits, BitsOctet, Unflipped;
    var j, q := k / 8, k % 8;
    var m := if j == |c| - 2 then 8 - Unused(c) else 8;
    assert DecodedOctet(c, j, true) == BitsOctet(Unflipped(OctetBits(c[1 + j]), m));
    UnflippedBit(OctetBits(c[1 + j]), m, q);
    assert k == 8 * j + q;
  }

  lemma SameBits(a: u8, b: u8)
    requires forall q :: 0 <= q < 8 ==> OctetBits(a)[q] == OctetBits(b)[q]
    ensures a == b
  {
    SameOctet(a, b, 8);
  }

  lemma SameWire(c: bytes, e: bytes)
    requires c != [] && |c| == |e| && c[0] == e[0] && forall k :: 0 <= k < 8 * (|c| - 1) ==> WireBit(c, k) == WireBit(e, k)
    ensures c == e
  {
    hide OctetBits;
    forall j | 1 <= j < |c| ensures c[j] == e[j] {
      forall q | 0 <= q < 8 ensures OctetBits(c[j])[q] == OctetBits(e[j])[q] {
        var k := 8 * (j - 1) + (7 - q);
        assert k / 8 == j - 1 && k % 8 == 7 - q;
        assert WireBit(c, k) == WireBit(e, k);
      }
      SameBits(c[j], e[j]);
    }
  }

  /** A string accepted in strict mode is the encoding of what was read if and only if all its unused
      bits are zero, which section 11.2.1 of ITU-T X.690 asks for and the decoder does not. */
  lemma {:induction false} EncodeDecoded(c: bytes, outlen: nat)
    requires DecodeBits(c, outlen, true, true).Bits?
    ensures var r := DecodeBits(c, outlen, true, true);
      && r.n >= 0 && OctetsFor(r.n) == |r.data|
      && (EncodeBits(r.data, r.n) == c <==> forall k :: r.n <= k < 8 * (|c| - 1) ==> !WireBit(c, k))
  {
    hide OctetBits, BitsOctet, EncodeBits, DecodeBits, WireBit, MemBit;
    DecodeBitsMeans(c, outlen, true, true);
    var r := DecodeBits(c, outlen, true, true);
    EncodedBits(r.data, r.n);
    var e := EncodeBits(r.data, r.n);
    forall k | 0 <= k < 8 * (|c| - 1) ensures WireBit(e, k) == (k < r.n && WireBit(c, k)) {
      assert MemBit(r.data, k) == (k < r.n && WireBit(c, k));
    }
    if forall k :: r.n <= k < 8 * (|c| - 1) ==> !WireBit(c, k) { SameWire(c, e); }
  }

  /** Five bits, the last of the three unused ones set. */
  lemma PaddingOverlooked()
    ensures var r := DecodeBits([3, 1], 1, true, true); r.Bits? && r.n == 5 && EncodeBits(r.data, 5) != [3, 1]
  {
    var c := [3, 1];
    assert OctetBits(1) == [true, false, false, false, false, false, false, false];
    hide OctetBits;
    DecodeBitsMeans(c, 1, true, true);
    EncodeDecoded(c, 1);
    assert WireBit(c, 7);
  }

  // ----- what a bit field is -----

  lemma ModShift(x: nat, q: nat)
    requires q < 8
    ensures x % 256 / Pow2(q) % 2 == x / Pow2(q) % 2
  {
    hide Pow2;
    Halves(q);
    ModShiftBy(x, Pow2(q), Pow2(7 - q));
  }

  lemma ModShiftBy(x: nat, p: nat, r: nat)
    requires p > 0 && 2 * r * p == 256
    ensures x % 256 / p % 2 == x / p % 2
  {
    var b := x % 256;
    Parts(x, 256);
    Parts(b, p);
    ShiftedSum(x, x / 256, b, p, r, b / p, b % p);
  }

  lemma Halves(q: nat)
    requires q < 8
    ensures 2 * Pow2(7 - q) * Pow2(q) == 256
  {
    OctetWeights();
    Pow2Add(q, 7 - q);
    assert Pow2(8) == 2 * Pow2(7);
  }

  lemma ShiftedSum(x: nat, a: nat, b: nat, p: nat, r: nat, q: nat, s: nat)
    requires p > 0 && x == 256 * a + b && 2 * r * p == 256 && b == p * q + s && s < p
    ensures x / p % 2 == q % 2
  {
    assert x == p * (2 * (r * a) + q) + s by { Grouped(a, p, r, q); }
    DivUnique(x, p, 2 * (r * a) + q, s);
  }

  lemma Grouped(a: nat, p: nat, r: nat, q: nat)
    requires 2 * r * p == 256
    ensures p * (2 * (r * a) + q) == 256 * a + p * q
  {
    assert p * (2 * (r * a)) == (2 * r * p) * a;
  }

  /** Bit k of the octets is bit k of the number. */
  lemma FieldBit(field: nat, k: nat)
    requires field < TWO_32 && k < 32
    ensures MemBit(Le(field), k) == (field / Pow2(k) % 2 == 1)
  {
    FieldBitAt(field, k / 8, k % 8);
  }

  lemma FieldBitAt(field: nat, j: nat, q: nat)
    requires field < TWO_32 && j < 4 && q < 8
    ensures MemBit(Le(field), 8 * j + q) == (field / Pow2(8 * j + q) % 2 == 1)
  {
    hide Pow2, Le, OctetBits, MemBit;
    LeOctet(field, j);
    OctetDigit(Le(field)[j], q);
    ModShift(field / Pow2(8 * j), q);
    DivDiv(field, Pow2(8 * j), Pow2(q));
    Pow2Add(8 * j, q);
    MemBitAt(Le(field), j, q);
  }

  /** A bit field is the bits of the number up to its highest one, lowest first. */
  lemma {:induction false} EncodedField(field: nat)
    requires field < TWO_32
    ensures var c, n := EncodeField(field), BitLength(field);
      && field < Pow2(n) && (field > 0 ==> n > 0 && Pow2(n - 1) <= field) && |c| == 1 + OctetsFor(n) && c[0] < 8 && Used(c) == n
      && forall k :: 0 <= k < 8 * OctetsFor(n) ==> WireBit(c, k) == (k < n && field / Pow2(k) % 2 == 1)
  {
    hide OctetBits, EncodeBits, MemBit, WireBit, Le, Pow2, BitLength;
    FieldLength(field);
    BitLengthFits(field);
    if field > 0 { BitLengthTight(field); }
    var n := BitLength(field);
    EncodedBits(Le(field), n);
    forall k | 0 <= k < 8 * OctetsFor(n) ensures WireBit(EncodeField(field), k) == (k < n && field / Pow2(k) % 2 == 1) {
      if k < n { FieldBit(field, k); }
    }
  }

  lemma {:induction false} BitLengthTight(field: nat)
    requires field > 0
    ensures BitLength(field) > 0 && Pow2(BitLength(field) - 1) <= field
  {
    if field > 1 { BitLengthTight(field / 2); }
  }

  lemma LeOfFromLe(s: bytes)
    requires |s| == 4
    ensures Le(FromLe(s)) == s
  {
    var c := s[2] as int + 0x100 * s[3] as int;
    var b := s[1] as int + 0x100 * c;
    var a := s[0] as int + 0x100 * b;
    assert a == FromLe(s);
    DivUnique(a, 0x100, b, s[0]);
    DivUnique(b, 0x100, c, s[1]);
    DivUnique(c, 0x100, s[3], s[2]);
    DivDiv(a, 0x100, 0x100);
    DivDiv(a, 0x1_0000, 0x100);
    DivUnique(s[3], 0x100, 0, s[3]);
  }

  /** On any octets: bit k of the number is bit k of the string, and zero behind its end; refused with
      the bit string, and when the string has less than no bits. */
  lemma {:induction false} DecodedField(c: bytes, strict: bool)
    ensures match DecodeField(c, strict)
      case Field(v) => c != [] && v < TWO_32 && |c| <= 5 && Used(c) >= 0
        && forall k :: 0 <= k < 32 ==> (v / Pow2(k) % 2 == 1) == (k < Used(c) && WireBit(c, k))
      case FieldError(e) =>
        DecodeBits(c, 4, true, strict) == Error(e) || (c != [] && e == Used(c) < 0 && DecodeBits(c, 4, true, strict) == Bits(e, []))
  {
    hide Pow2, Le, FromLe, MemBit, WireBit, DecodeBits, Filled;
    DecodeBitsMeans(c, 4, true, strict);
    match DecodeBits(c, 4, true, strict)
    case Error(_) =>
    case Bits(n, data) =>
      if n >= 0 {
        var v := FromLe(Filled(data));
        forall k | 0 <= k < 32 ensures (v / Pow2(k) % 2 == 1) == (k < Used(c) && WireBit(c, k)) {
          FilledBit(data, k);
        }
      }
  }

  lemma FilledBit(data: bytes, k: nat)
    requires |data| <= 4 && k < 32
    ensures (FromLe(Filled(data)) / Pow2(k) % 2 == 1) == (k < 8 * |data| && MemBit(data, k))
  {
    hide Pow2, Le, FromLe, OctetBits;
    LeOfFromLe(Filled(data));
    FieldBit(FromLe(Filled(data)), k);
    if k >= 8 * |data| { NoBits(k % 8); }
  }

  lemma NoBits(q: nat)
    requires q < 8
    ensures !OctetBits(0)[q]
  {
    OctetDigit(0, q);
  }
}
