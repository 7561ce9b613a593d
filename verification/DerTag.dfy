/** Identifier and length octets of DER (sections 8.1.2 and 8.1.3 of ITU-T X.690) as
    `OpenSC/src/libopensc/asn1.c` reads, writes and searches them. */
module DerTag {
  import opened Octets

  /** The identifier octets the library reads back: one octet, or an octet ending in 0x1F followed by
      one or two more; 0x00 and 0xFF in front mean the end of the data. */
  predicate LegalTag(t: bytes) {
    || (|t| == 1 && t[0] != 0 && t[0] % 32 != 31)
    || (|t| == 2 && t[0] % 32 == 31 && t[0] != 0xFF && t[1] < 0x80)
    || (|t| == 3 && t[0] % 32 == 31 && t[0] != 0xFF && t[1] >= 0x80 && t[2] < 0x80)
  }

  /** Class and constructed bits of the first octet. */
  function TagClass(t: bytes): nat
    requires t != []
  {
    t[0] - t[0] % 32
  }

  /** What is left of the identifier octets without those bits, as one number. */
  function TagNumber(t: bytes): nat
    requires t != []
  {
    Be([t[0] % 32] + t[1..])
  }

  /** The number of octets n needs. */
  function Width(n: nat): nat {
    if n == 0 then 0 else 1 + Width(n / 256)
  }

  function LenOctets(n: nat): bytes {
    if n <= 127 then [n] else [(0x80 + Width(n)) % 256] + ToBe(n, Width(n))
  }

  /** One element: identifier, length, contents. */
  function Element(t: bytes, c: bytes): bytes {
    t + LenOctets(|c|) + c
  }

  // ----- reading -----

  /** `Tag` gives class bits, number, header size and announced length. */
  datatype Header =
    | Invalid
    | EndOfData
    | Tag(cla: nat, tag: nat, size: nat, len: nat)

  /** How many octets the identifier at the start of buf takes; 0 when it is not acceptable. */
  function IdSize(buf: bytes): nat
    requires buf != []
  {
    if buf[0] % 32 != 31 then 1
    else if |buf| >= 2 && buf[1] < 0x80 then 2
    else if |buf| >= 3 && buf[2] < 0x80 then 3
    else 0
  }

  function ReadLength(buf: bytes): Option<(nat, nat)> {
    if buf == [] then None
    else if buf[0] < 0x80 then Some((buf[0] as nat, 1))
    else
      var k := buf[0] - 0x80;
      if k > 4 || k > |buf| - 1 then None else Some((Be(buf[1..1 + k]), 1 + k))
  }

  function ReadHeader(buf: bytes): Header {
    if buf == [] then Invalid
    else if buf[0] == 0 || buf[0] == 0xFF then EndOfData
    else
      var k := IdSize(buf);
      if k == 0 then Invalid
      else match ReadLength(buf[k..])
        case None => Invalid
        case Some((len, n)) => Tag(TagClass(buf), TagNumber(buf[..k]), k + n, len)
  }

  /** First part of sc_asn1_read_tag, the tag octets; size 0 stands for the error return. */
  method ReadId(buf: bytes) returns (size: nat, tag: nat)
    requires buf != []
    ensures size == IdSize(buf) <= |buf|
    ensures size > 0 ==> tag == TagNumber(buf[..size])
  {
    tag, size := buf[0] % 32, 1;
    assert Be([buf[0] % 32]) == tag;
    if tag == 31 {
      var n, more := 2, true;
      while more
        invariant 1 <= size <= |buf| && size + n == 3 && 0 <= n
        invariant tag == Be([31] + buf[1..size])
        invariant more ==> IdSize(buf) == 0 || IdSize(buf) > size
        invariant !more ==> IdSize(buf) == size
        decreases n, more
      {
        if size == |buf| || n == 0 { return 0, tag; }
        assert [31] + buf[1..size + 1] == ([31] + buf[1..size]) + [buf[size]];
        tag := tag * 256 + buf[size];
        more := buf[size] >= 0x80;
        size, n := size + 1, n - 1;
      }
    }
    assert [buf[0] % 32] + buf[1..size] == [buf[..size][0] % 32] + buf[..size][1..];
  }

  /** Second part, the length octets; size 0 stands for the error return. */
  method ReadLen(buf: bytes) returns (size: nat, len: nat)
    ensures size == 0 <==> ReadLength(buf) == None
    ensures size > 0 ==> ReadLength(buf) == Some((len, size)) && size <= |buf|
  {
    if |buf| == 0 { return 0, 0; }
    len, size := buf[0], 1;
    if len >= 0x80 {
      len := len - 0x80;
      if len > 4 || len > |buf| - 1 { return 0, 0; }
      var a: nat, i := 0, 0;
      while i < len
        invariant 0 <= i <= len == buf[0] - 0x80 && size == 1 + i <= |buf| && len <= |buf| - 1
        invariant a == Be(buf[1..size])
      {
        assert buf[1..size + 1] == buf[1..size] + [buf[size]];
        a := a * 256 + buf[size];
        size, i := size + 1, i + 1;
      }
      len := a;
    }
  }

  /** sc_asn1_read_tag: `p` is the cursor after the header, or -1 for the null pointer. */
  method ReadTag(buf: bytes) returns (rv: int, p: int, cla: nat, tag: nat, taglen: nat)
    ensures match ReadHeader(buf)
      case Invalid => rv == SC_ERROR_INVALID_ASN1_OBJECT && p == -1
      case EndOfData => rv == SC_SUCCESS && p == -1 && tag == 0 && taglen == 0
      case Tag(c, t, size, len) =>
        && p == size && cla == c && tag == t && taglen == len
        && rv == if size + len > |buf| then SC_ERROR_ASN1_END_OF_CONTENTS else SC_SUCCESS
  {
    rv, p, cla, tag, taglen := SC_ERROR_INVALID_ASN1_OBJECT, -1, 0, 0, 0;
    if |buf| == 0 { return; }
    if buf[0] == 0xFF || buf[0] == 0 {
      rv := SC_SUCCESS;
      return;
    }
    var k, t := ReadId(buf);
    if k == 0 { return; }
    var n, len := ReadLen(buf[k..]);
    if n == 0 { return; }
    cla, tag, taglen, p := buf[0] - buf[0] % 32, t, len, k + n;
    rv := if len > |buf| - p then SC_ERROR_ASN1_END_OF_CONTENTS else SC_SUCCESS;
  }

  // ----- what is written is read back -----

  lemma {:induction false} WidthFits(n: nat)
    ensures n < Pow256(Width(n))
  {
    if n > 0 {
      WidthFits(n / 256);
    }
  }

  lemma WidthOf32Bits(n: nat)
    requires n < TWO_32
    ensures Width(n) <= 4 && (n > 0 ==> Width(n) >= 1)
  {
    assert n / 256 / 256 / 256 / 256 == 0;
    assert Width(n / 256 / 256 / 256) <= 1;
    assert Width(n / 256 / 256) <= 2;
    assert Width(n / 256) <= 3;
  }

  lemma LengthReadBack(n: nat, rest: bytes)
    requires n < TWO_32
    ensures ReadLength(LenOctets(n) + rest) == Some((n, |LenOctets(n)|))
  {
    hide Width, ToBe, Be, Pow256;
    if n > 127 {
      var buf, k := LenOctets(n) + rest, Width(n);
      WidthOf32Bits(n);
      WidthFits(n);
      BeToBe(n, k);
      assert (0x80 + k) % 256 == 0x80 + k;
      assert buf[0] == 0x80 + k && buf[1..1 + k] == ToBe(n, k);
    }
  }

  lemma HeaderReadBack(t: bytes, c: bytes, rest: bytes)
    requires LegalTag(t) && |c| < TWO_32
    ensures ReadHeader(Element(t, c) + rest) == Tag(TagClass(t), TagNumber(t), |t| + |LenOctets(|c|)|, |c|)
  {
    hide LenOctets, Be, ReadLength;
    var buf := Element(t, c) + rest;
    assert buf == t + (LenOctets(|c|) + (c + rest));
    assert buf[..|t|] == t && buf[|t|..] == LenOctets(|c|) + (c + rest);
    assert forall i :: 0 <= i < |t| ==> buf[i] == t[i];
    LengthReadBack(|c|, c + rest);
  }

  lemma NumberOf(t: bytes)
    requires LegalTag(t)
    ensures |t| == 1 ==> TagNumber(t) == t[0] % 32
    ensures |t| == 2 ==> TagNumber(t) == (t[0] as int % 32) * 256 + t[1]
    ensures |t| == 3 ==> TagNumber(t) == ((t[0] as int % 32) * 256 + t[1]) * 256 + t[2]
  {
    BeAppend([], t[0] % 32);
    assert [] + [t[0] % 32] == [t[0] % 32];
    if |t| == 1 {
      assert [t[0] % 32] + t[1..] == [t[0] % 32];
    } else {
      BeAppend([t[0] % 32], t[1]);
      assert [t[0] % 32] + t[1..] == if |t| == 2 then [t[0] % 32] + [t[1]] else [t[0] % 32] + [t[1]] + [t[2]];
      if |t| == 3 { BeAppend([t[0] % 32] + [t[1]], t[2]); }
    }
  }

  // ----- what is accepted -----

  /** Lengths up to 127 are one octet; the first octet of a longer one counts those that follow, as few
      as will hold the number, the most significant one first. */
  lemma {:induction false} LengthForm(n: nat)
    requires n < TWO_32
    ensures var l := LenOctets(n);
      if n <= 127 then l == [n] else 2 <= |l| <= 5 && l[0] == 0x80 + |l| - 1 && l[1] > 0 && Be(l[1..]) == n
  {
    hide Width, ToBe, Be, LenOctets;
    LongLength(n);
    if n > 127 {
      WidthOf32Bits(n);
      WidthFits(n);
      BeToBe(n, Width(n));
      LeadingDigit(n);
    }
  }

  lemma LongLength(n: nat)
    ensures n <= 127 ==> LenOctets(n) == [n]
    ensures n > 127 && Width(n) <= 4 ==> LenOctets(n) == [0x80 + Width(n)] + ToBe(n, Width(n))
  {
    hide Width, ToBe;
  }

  lemma {:induction false} LeadingDigit(n: nat)
    requires n > 0
    ensures Width(n) > 0 && ToBe(n, Width(n))[0] > 0
  {
    if n >= 256 { LeadingDigit(n / 256); } else { assert Width(n / 256) == 0; }
  }

  /** Any announced length of up to four octets is read, leading zeros and all; longer ones are not. */
  lemma {:induction false} LengthRead(b: u8, d: bytes)
    ensures b < 0x80 ==> ReadLength([b] + d) == Some((b as nat, 1))
    ensures b >= 0x80 && b - 0x80 <= 4 && b - 0x80 <= |d| ==> ReadLength([b] + d) == Some((Be(d[..b - 0x80]), 1 + b - 0x80))
    ensures b >= 0x80 && (b - 0x80 > 4 || b - 0x80 > |d|) ==> ReadLength([b] + d) == None
    ensures ReadLength([]) == None
  {
    if b >= 0x80 && b - 0x80 <= |d| { assert ([b] + d)[1..1 + b - 0x80] == d[..b - 0x80]; }
  }

  /** A header is accepted exactly when legal identifier octets and a length stand in front, and is then
      taken for these. */
  lemma {:induction false} HeaderExactly(buf: bytes)
    ensures ReadHeader(buf).Tag? <==> exists k :: 1 <= k <= |buf| && LegalTag(buf[..k]) && ReadLength(buf[k..]).Some?
    ensures forall k :: 1 <= k <= |buf| && LegalTag(buf[..k]) && ReadLength(buf[k..]).Some? ==>
      var (len, n) := ReadLength(buf[k..]).value;
      ReadHeader(buf) == Tag(TagClass(buf[..k]), TagNumber(buf[..k]), k + n, len)
    ensures ReadHeader(buf) == EndOfData <==> buf != [] && buf[0] in {0, 0xFF}
  {
    hide ReadLength, TagNumber;
    forall k | 1 <= k <= |buf| && LegalTag(buf[..k]) ensures IdSize(buf) == k && buf[0] != 0 && buf[0] != 0xFF {
      assert forall i :: 0 <= i < k ==> buf[..k][i] == buf[i];
    }
    if ReadHeader(buf).Tag? {
      var k := IdSize(buf);
      assert forall i :: 0 <= i < k ==> buf[..k][i] == buf[i];
      assert LegalTag(buf[..k]) && ReadLength(buf[k..]).Some?;
    }
  }
}
