/** Command APDUs as octet strings (section 5.1 of ISO/IEC 7816-4:2005) the way
    `OpenSC/src/libopensc/apdu.c` writes and reads them. */
module ApduCodec {
  import opened Octets
  import DerWrite

  const CASE_1 := 0x01
  const CASE_2_SHORT := 0x02
  const CASE_3_SHORT := 0x03
  const CASE_4_SHORT := 0x04
  const CASE_2_EXT := 0x12
  const CASE_3_EXT := 0x13
  const CASE_4_EXT := 0x14

  const PROTO_T0 := 1
  const PROTO_T1 := 2

  datatype Command = Command(cse: nat, cla: u8, ins: u8, p1: u8, p2: u8, lc: nat, le: nat, data: bytes)

  /** sc_apdu_get_length */
  function GetLength(a: Command, proto: nat): nat {
    if a.cse == CASE_1 then if proto == PROTO_T0 then 5 else 4
    else if a.cse == CASE_2_SHORT then 5
    else if a.cse == CASE_2_EXT then if proto == PROTO_T0 then 5 else 7
    else if a.cse == CASE_3_SHORT then 5 + a.lc
    else if a.cse == CASE_3_EXT then if proto == PROTO_T0 then 5 + a.lc else 7 + a.lc
    else if a.cse == CASE_4_SHORT then if proto == PROTO_T0 then 5 + a.lc else 6 + a.lc
    else if a.cse == CASE_4_EXT then if proto == PROTO_T0 then 5 + a.lc else 9 + a.lc
    else 0
  }

  /** The octet a cast to unsigned char leaves. */
  function Low(n: nat): u8 {
    n % 256
  }

  /** Two octets, high one first. */
  function Low2(n: nat): bytes {
    [Low(n / 256), Low(n)]
  }

  /** What follows the four octets of the header. */
  function Body(a: Command, proto: nat): bytes
    requires a.lc <= |a.data|
  {
    var data := a.data[..a.lc];
    if a.cse == CASE_1 then if proto == PROTO_T0 then [0] else []
    else if a.cse == CASE_2_SHORT then [Low(a.le)]
    else if a.cse == CASE_2_EXT then if proto == PROTO_T0 then [Low(a.le)] else [0] + Low2(a.le)
    else if a.cse == CASE_3_SHORT then [Low(a.lc)] + data
    else if a.cse == CASE_3_EXT then if proto == PROTO_T0 then data else [0] + Low2(a.lc) + data
    else if a.cse == CASE_4_SHORT then [Low(a.lc)] + data + if proto == PROTO_T0 then [] else [Low(a.le)]
    else if a.cse == CASE_4_EXT then
      if proto == PROTO_T0 then [Low(a.lc)] + data else [0] + Low2(a.lc) + data + Low2(a.le)
    else []
  }

  function Wire(a: Command, proto: nat): bytes
    requires a.lc <= |a.data|
  {
    [a.cla, a.ins, a.p1, a.p2] + Body(a, proto)
  }

  /** Case 3 extended data over T=0 have to go through ENVELOPE. */
  predicate NeedsEnvelope(a: Command, proto: nat) {
    a.cse == CASE_3_EXT && proto == PROTO_T0 && a.lc > 255
  }

  /** The announced length is the length written, but for the one case in which the Lc octet is
      counted and not written. */
  lemma LengthExactly(a: Command, proto: nat)
    requires a.lc <= |a.data| && GetLength(a, proto) > 0
    ensures |Wire(a, proto)| == GetLength(a, proto) <==> !(a.cse == CASE_3_EXT && proto == PROTO_T0)
    ensures |Wire(a, proto)| <= GetLength(a, proto) <= |Wire(a, proto)| + 1
  {
    assert |a.data[..a.lc]| == a.lc;
  }

  /** Lengths are written with the more significant octet first. */
  lemma HighOctetFirst(n: nat, hi: u8, lo: u8)
    ensures Low2(n) == ToBe(n, 2) && Number(hi, lo) == Be([hi, lo]) && Low(n) == ToBe(n, 1)[0]
  {
    assert ToBe(n / 256 / 256, 0) == [] && ToBe(n / 256, 1) == [n / 256 % 256];
    BeAppend([], hi);
    BeAppend([hi], lo);
    assert [] + [hi] == [hi] && [hi] + [lo] == [hi, lo];
  }

  /** Over T=0 case 1 gets a zero octet and case 4 loses its Le; an extended APDU looks like the short
      one with the low octet of its length, except that case 3 has no Lc at all and is refused when it
      would not fit one octet. */
  lemma OverT0(a: Command)
    requires a.lc <= |a.data|
    ensures a.cse == CASE_1 ==> Wire(a, PROTO_T0) == Wire(a, PROTO_T1) + [0]
    ensures a.cse in {CASE_2_SHORT, CASE_3_SHORT} ==> Wire(a, PROTO_T0) == Wire(a, PROTO_T1)
    ensures a.cse == CASE_4_SHORT ==> Wire(a, PROTO_T0) + [a.le % 256] == Wire(a, PROTO_T1)
    ensures a.cse in {CASE_2_EXT, CASE_4_EXT} ==> Wire(a, PROTO_T0) == Wire(a.(cse := a.cse - 16), PROTO_T0)
    ensures a.cse == CASE_3_EXT ==>
      && Wire(a.(cse := CASE_3_SHORT), PROTO_T0) == Wire(a, PROTO_T0)[..4] + [a.lc % 256] + Wire(a, PROTO_T0)[4..]
    ensures NeedsEnvelope(a, PROTO_T0) <==> a.cse == CASE_3_EXT && a.lc % 256 != a.lc
    ensures !NeedsEnvelope(a, PROTO_T1)
  {
  }

  // ----- writing through a pointer -----

  method PutOctets(out: array<u8>, p0: nat, s: bytes) returns (p: nat)
    requires p0 + |s| <= out.Length
    modifies out
    ensures p == p0 + |s| && out[..p] == old(out[..p0]) + s && out[p..] == old(out[p..])
  {
    DerWrite.Copy(out, p0, s);
    p := p0 + |s|;
    assert out[..p] == out[..p0] + out[p0..p];
  }

  /** The part of sc_apdu2bytes that depends on the case. */
  method PutBody(out: array<u8>, p0: nat, a: Command, proto: nat) returns (p: nat)
    requires a.lc <= |a.data| && p0 + |Body(a, proto)| <= out.Length && !NeedsEnvelope(a, proto)
    modifies out
    ensures p == p0 + |Body(a, proto)| && out[..p] == old(out[..p0]) + Body(a, proto) && out[p..] == old(out[p..])
  {
    hide Low;
    var t0 := proto == PROTO_T0;
    if a.cse == CASE_1 {
      p := PutOctets(out, p0, if t0 then [0] else []);
    } else if a.cse == CASE_2_SHORT {
      p := PutOctets(out, p0, [Low(a.le)]);
    } else if a.cse == CASE_2_EXT {
      p := PutOctets(out, p0, if t0 then [Low(a.le)] else [0] + Low2(a.le));
    } else if a.cse == CASE_3_SHORT {
      p := PutParts(out, p0, [Low(a.lc)], a.data[..a.lc], []);
    } else if a.cse == CASE_3_EXT {
      p := PutParts(out, p0, if t0 then [] else [0] + Low2(a.lc), a.data[..a.lc], []);
    } else if a.cse == CASE_4_SHORT {
      p := PutParts(out, p0, [Low(a.lc)], a.data[..a.lc], if t0 then [] else [Low(a.le)]);
    } else if a.cse == CASE_4_EXT {
      p := PutParts(out, p0, if t0 then [Low(a.lc)] else [0] + Low2(a.lc), a.data[..a.lc], if t0 then [] else Low2(a.le));
    } else {
      p := PutOctets(out, p0, []);
    }
  }

  /** Lc field, data, Le field. */
  method PutParts(out: array<u8>, p0: nat, lc: bytes, data: bytes, le: bytes) returns (p: nat)
    requires p0 + |lc| + |data| + |le| <= out.Length
    modifies out
    ensures p == p0 + |lc| + |data| + |le| && out[..p] == old(out[..p0]) + (lc + data + le) && out[p..] == old(out[p..])
  {
    ghost var before, end := out[..p0], p0 + |lc| + |data| + |le|;
    ghost var tail := out[end..];
    assert out[p0 + |lc|..][|data| + |le|..] == tail;
    p := PutOctets(out, p0, lc);
    assert out[p..][|data| + |le|..] == out[end..] && out[p + |data|..][|le|..] == out[end..];
    p := PutOctets(out, p, data);
    assert out[p..][|le|..] == out[end..];
    p := PutOctets(out, p, le);
    assert before + lc + data + le == before + (lc + data + le);
  }

  /** sc_apdu2bytes. A command of no known case has length 0 and gets no check of the buffer. */
  method Apdu2Bytes(a: Command, proto: nat, out: array?<u8>) returns (r: int, ghost n: nat)
    requires a.lc <= |a.data|
    requires out != null && GetLength(a, proto) == 0 ==> out.Length >= 4
    modifies out
    ensures r == if out == null || out.Length < GetLength(a, proto) || NeedsEnvelope(a, proto)
                 then SC_ERROR_INVALID_ARGUMENTS else SC_SUCCESS
    ensures r == SC_SUCCESS ==>
      && out != null && n == |Wire(a, proto)| <= out.Length
      && out[..n] == Wire(a, proto) && out[n..] == old(out[n..])
    ensures r != SC_SUCCESS && out != null ==>
      forall k :: (if NeedsEnvelope(a, proto) then 4 else 0) <= k < out.Length ==> out[k] == old(out[k])
  {
    n := 0;
    var len := GetLength(a, proto);
    if out == null || out.Length < len { return SC_ERROR_INVALID_ARGUMENTS, n; }
    var p := PutOctets(out, 0, [a.cla, a.ins, a.p1, a.p2]);
    if NeedsEnvelope(a, proto) { return SC_ERROR_INVALID_ARGUMENTS, n; }
    p := PutBody(out, p, a, proto);
    n := p;
    r := SC_SUCCESS;
  }

  /** sc_apdu_get_octets: a fresh buffer of the announced length. */
  method GetOctets(a: Command, proto: nat) returns (r: int, buf: array?<u8>)
    requires a.lc <= |a.data|
    ensures r == if GetLength(a, proto) == 0 || NeedsEnvelope(a, proto) then SC_ERROR_INTERNAL else SC_SUCCESS
    ensures r == SC_SUCCESS ==> buf != null && fresh(buf) && buf.Length == GetLength(a, proto) && Wire(a, proto) <= buf[..]
  {
    var nlen := GetLength(a, proto);
    if nlen == 0 { return SC_ERROR_INTERNAL, null; }
    buf := new u8[nlen];
    LengthExactly(a, proto);
    var e, n := Apdu2Bytes(a, proto, buf);
    if e != SC_SUCCESS { return SC_ERROR_INTERNAL, null; }
    r := SC_SUCCESS;
  }

  // ----- reading -----

  datatype Parsed = Parsed(a: Command) | Refused(code: int)

  function Number(hi: u8, lo: u8): nat {
    256 * (hi as int) + lo
  }

  function Le1(b: u8): nat {
    if b == 0 then 256 else b
  }

  function Le2(b: bytes): nat
    requires |b| == 2
  {
    if b == [0, 0] then 65536 else Number(b[0], b[1])
  }

  /** What may follow the data: nothing, or Le in one octet, in two when extended. */
  function ParseLe(a: Command, t: bytes, ext: bool): Parsed {
    if t == [] then Parsed(a.(cse := if ext then CASE_3_EXT else CASE_3_SHORT))
    else if ext then if |t| == 2 then Parsed(a.(cse := CASE_4_EXT, le := Le2(t))) else Refused(SC_ERROR_INVALID_DATA)
    else if |t| == 1 then Parsed(a.(cse := CASE_4_SHORT, le := Le1(t[0]))) else Refused(SC_ERROR_INVALID_DATA)
  }

  function ParseData(a: Command, lc: nat, rest: bytes, ext: bool): Parsed {
    if |rest| < lc then Refused(SC_ERROR_INVALID_DATA)
    else ParseLe(a.(lc := lc, data := rest[..lc]), rest[lc..], ext)
  }

  function ParseBody(a: Command, b: bytes): Parsed {
    if b == [] then Parsed(a)
    else if b[0] == 0 && |b| >= 3 then
      if |b| == 3 then Parsed(a.(cse := CASE_2_EXT, le := Le2(b[1..])))
      else ParseData(a, Number(b[1], b[2]), b[3..], true)
    else if |b| == 1 then Parsed(a.(cse := CASE_2_SHORT, le := Le1(b[0])))
    else ParseData(a, b[0], b[1..], false)
  }

  function Header(b: bytes): Command
    requires |b| >= 4
  {
    Command(CASE_1, b[0], b[1], b[2], b[3], 0, 0, [])
  }

  function Parse(b: bytes): Parsed {
    if |b| < 4 then Refused(SC_ERROR_INVALID_DATA) else ParseBody(Header(b), b[4..])
  }

  /** sc_bytes2apdu: `p` is the cursor, `len` what is left behind it. */
  method Bytes2Apdu(buf: bytes) returns (r: Parsed)
    ensures r == Parse(buf)
  {
    var len := |buf|;
    if len < 4 { return Refused(SC_ERROR_INVALID_DATA); }
    var a := Command(CASE_1, buf[0], buf[1], buf[2], buf[3], 0, 0, []);
    var p := 4;
    len := len - 4;
    if len == 0 { return Parsed(a); }
    ghost var b := buf[4..];
    hide ParseData;
    var ext := buf[p] == 0 && len >= 3;
    if ext {
      p := p + 1;
      if len == 3 {
        var le := Number(buf[p], buf[p + 1]);
        return Parsed(a.(cse := CASE_2_EXT, le := if le == 0 then 65536 else le));
      }
      a := a.(lc := Number(buf[p], buf[p + 1]));
      p, len := p + 2, len - 3;
    } else if len == 1 {
      var le := buf[p];
      return Parsed(a.(cse := CASE_2_SHORT, le := if le == 0 then 256 else le));
    } else {
      a := a.(lc := buf[p]);
      p, len := p + 1, len - 1;
    }
    r := ReadData(buf, p, a, ext);
  }

  method ReadData(buf: bytes, p0: nat, a0: Command, ext: bool) returns (r: Parsed)
    requires p0 <= |buf|
    ensures r == ParseData(a0, a0.lc, buf[p0..], ext)
  {
    var a, p, len := a0, p0, |buf| - p0;
    if len < a.lc { return Refused(SC_ERROR_INVALID_DATA); }
    a := a.(data := buf[p..p + a.lc]);
    p, len := p + a.lc, len - a.lc;
    ghost var t := buf[p0..][a.lc..];
    assert t == buf[p..] && buf[p0..][..a.lc] == a.data;
    if len == 0 { return Parsed(a.(cse := if ext then CASE_3_EXT else CASE_3_SHORT)); }
    if ext {
      if len < 2 { return Refused(SC_ERROR_INVALID_DATA); }
      var le := Number(buf[p], buf[p + 1]);
      a := a.(cse := CASE_4_EXT, le := if le == 0 then 65536 else le);
      len := len - 2;
    } else {
      a := a.(cse := CASE_4_SHORT, le := if buf[p] == 0 then 256 else buf[p]);
      len := len - 1;
    }
    if len != 0 { return Refused(SC_ERROR_INVALID_DATA); }
    return Parsed(a);
  }

  // ----- both ways over T=1 -----

  /** Commands that have an encoding of their own: no field set that the case does not send, Lc the
      length of the data, each length in the range of its field. Only case 4 may have no data. */
  predicate Representable(a: Command) {
    && a.lc == |a.data|
    && (a.cse == CASE_1 ==> a.lc == 0 && a.le == 0)
    && (a.cse == CASE_2_SHORT ==> a.lc == 0 && 1 <= a.le <= 256)
    && (a.cse == CASE_2_EXT ==> a.lc == 0 && 1 <= a.le <= 65536)
    && (a.cse == CASE_3_SHORT ==> 1 <= a.lc <= 255 && a.le == 0)
    && (a.cse == CASE_3_EXT ==> 1 <= a.lc <= 65535 && a.le == 0)
    && (a.cse == CASE_4_SHORT ==> a.lc <= 255 && 1 <= a.le <= 256)
    && (a.cse == CASE_4_EXT ==> a.lc <= 65535 && 1 <= a.le <= 65536)
    && a.cse in {CASE_1, CASE_2_SHORT, CASE_2_EXT, CASE_3_SHORT, CASE_3_EXT, CASE_4_SHORT, CASE_4_EXT}
  }

  /** Two octets and the number in them. */
  lemma NumberOctets(m: nat, hi: u8, lo: u8)
    requires m == Number(hi, lo)
    ensures Low(m / 256) == hi && Low(m) == lo && m < 65536
  {
    assert m / 256 == hi && m % 256 == lo;
  }

  lemma OctetsNumber(n: nat)
    ensures Number(Low(n / 256), Low(n)) == n <==> n < 65536
    ensures Low(n) == n <==> n < 256
  {
    NumberOctets(Number(Low(n / 256), Low(n)), Low(n / 256), Low(n));
    var q := n / 256;
    assert n < 65536 ==> q < 256 && Low(q) == q;
  }

  /** The octets of a length field and the length they are read as, with zero for the largest. */
  lemma LengthFields(n: nat, hi: u8, lo: u8)
    ensures Le1(Low(n)) == n <==> 1 <= n <= 256
    ensures Le2(Low2(n)) == n <==> 1 <= n <= 65536
    ensures Number(Low(n / 256), Low(n)) == n <==> n < 65536
    ensures Low(n) == n <==> n < 256
    ensures Low2(Number(hi, lo)) == [hi, lo] && Low2(Le2([hi, lo])) == [hi, lo] && Low(Le1(lo)) == lo
    ensures Number(hi, lo) < 65536 && 1 <= Le2([hi, lo]) <= 65536 && 1 <= Le1(lo) <= 256
  {
    OctetsNumber(n);
    NumberOctets(Number(hi, lo), hi, lo);
    assert Low(65536) == 0 && Low(256) == 0 && Low2(65536) == [0, 0];
    assert Low(n) == 0 && n < 512 ==> n in {0, 256};
    NumberOctets(Number(Low(n / 256), Low(n)), Low(n / 256), Low(n));
    assert Low2(n) == [0, 0] ==> Number(Low(n / 256), Low(n)) == 0;
    assert Number(hi, lo) == 0 ==> hi == 0 && lo == 0;
    hide Low, Number;
  }

  /** The data end where Lc says, Le is what follows. */
  lemma ParseDataOf(a: Command, data: bytes, t: bytes, ext: bool)
    ensures ParseData(a, |data|, data + t, ext) == ParseLe(a.(lc := |data|, data := data), t, ext)
  {
    assert (data + t)[..|data|] == data && (data + t)[|data|..] == t;
  }

  lemma ParseDataKeeps(a: Command, lc: nat, rest: bytes, ext: bool)
    ensures var r := ParseData(a, lc, rest, ext); r.Parsed? ==>
      && r.a.lc == lc == |r.a.data| <= |rest| && r.a.data[..lc] == r.a.data
      && r.a == a.(cse := r.a.cse, lc := lc, data := r.a.data, le := r.a.le)
      && r.a.cse in (if ext then {CASE_3_EXT, CASE_4_EXT} else {CASE_3_SHORT, CASE_4_SHORT})
      && (r.a.cse in {CASE_3_EXT, CASE_3_SHORT} ==> rest == r.a.data && r.a.le == a.le)
      && (r.a.cse == CASE_4_EXT ==> |rest| == lc + 2 && rest == r.a.data + rest[lc..] && r.a.le == Le2(rest[lc..]))
      && (r.a.cse == CASE_4_SHORT ==> |rest| == lc + 1 && rest == r.a.data + rest[lc..] && r.a.le == Le1(rest[lc]))
  {
  }

  lemma ParseShort(a: Command, h: Command)
    requires a.lc <= |a.data| && a.cse in {CASE_3_SHORT, CASE_4_SHORT}
    requires h == a.(cse := CASE_1, lc := 0, le := 0, data := [])
    ensures ParseBody(h, Body(a, PROTO_T1)) == Parsed(a) <==> Representable(a)
  {
    hide Low, Le1, ParseData, Number, Low2, Le2;
    var b, data := Body(a, PROTO_T1), a.data[..a.lc];
    var t := if a.cse == CASE_4_SHORT then [Low(a.le)] else [];
    LengthFields(a.lc, 0, 0);
    LengthFields(a.le, 0, 0);
    assert b[1..] == data + t;
    if b[0] == 0 && |b| >= 3 {
      ParseDataKeeps(h, Number(b[1], b[2]), b[3..], true);
    } else if a.lc < 256 {
      ParseDataOf(h, data, t, false);
    } else {
      ParseDataKeeps(h, b[0], b[1..], false);
    }
  }

  lemma ParseExt(a: Command, h: Command)
    requires a.lc <= |a.data| && a.cse in {CASE_3_EXT, CASE_4_EXT}
    requires h == a.(cse := CASE_1, lc := 0, le := 0, data := [])
    ensures ParseBody(h, Body(a, PROTO_T1)) == Parsed(a) <==> Representable(a)
  {
    hide Low, Le1, Le2, Number, ParseData;
    var b, data := Body(a, PROTO_T1), a.data[..a.lc];
    var t := if a.cse == CASE_4_EXT then Low2(a.le) else [];
    LengthFields(a.lc, 0, 0);
    LengthFields(a.le, 0, 0);
    assert b[3..] == data + t && b[0] == 0;
    assert |b| > 3 ==> ParseBody(h, b) == ParseData(h, Number(b[1], b[2]), b[3..], true);
    if a.lc < 65536 {
      ParseDataOf(h, data, t, true);
    } else {
      ParseDataKeeps(h, Number(b[1], b[2]), b[3..], true);
    }
  }

  /** Reading gives the command back if and only if it is representable. */
  lemma {:induction false} ParseWritten(a: Command)
    requires a.lc <= |a.data|
    ensures Parse(Wire(a, PROTO_T1)) == Parsed(a) <==> Representable(a)
  {
    var b, h := Body(a, PROTO_T1), a.(cse := CASE_1, lc := 0, le := 0, data := []);
    assert Wire(a, PROTO_T1)[4..] == b && Header(Wire(a, PROTO_T1)) == h;
    if a.cse in {CASE_3_SHORT, CASE_4_SHORT} {
      hide ParseBody, Body;
      ParseShort(a, h);
    } else if a.cse in {CASE_3_EXT, CASE_4_EXT} {
      hide ParseBody, Body;
      ParseExt(a, h);
    } else {
      LengthFields(a.le, 0, 0);
      hide Low, Le1, Le2, ParseData;
    }
  }

  /** Every octet string that is accepted is the encoding of what was read, which is representable. */
  lemma {:induction false} WriteParsed(b: bytes)
    requires Parse(b).Parsed?
    ensures var a := Parse(b).a; Representable(a) && Wire(a, PROTO_T1) == b
  {
    var h, t := Header(b), b[4..];
    WriteBody(h, t);
    hide Body, ParseBody, Representable;
    assert b == [b[0], b[1], b[2], b[3]] + t;
  }

  /** The octet strings that are accepted are exactly the encodings of representable commands. */
  lemma {:induction false} AcceptedExactly(b: bytes)
    ensures Parse(b).Parsed? <==> exists a: Command :: Representable(a) && Wire(a, PROTO_T1) == b
  {
    if Parse(b).Parsed? {
      WriteParsed(b);
    } else if a: Command :| Representable(a) && Wire(a, PROTO_T1) == b {
      ParseWritten(a);
    }
  }

  lemma WriteBody(h: Command, t: bytes)
    requires h.cse == CASE_1 && h.lc == 0 && h.le == 0 && h.data == [] && ParseBody(h, t).Parsed?
    ensures var a := ParseBody(h, t).a;
      Representable(a) && Body(a, PROTO_T1) == t && a.(cse := CASE_1, lc := 0, le := 0, data := []) == h
  {
    hide ParseBody, Body, Representable;
    if |t| >= 3 && t[0] == 0 { WriteExtended(h, t); } else { WriteShort(h, t); }
  }

  lemma WriteExtended(h: Command, t: bytes)
    requires h.cse == CASE_1 && h.lc == 0 && h.le == 0 && h.data == [] && ParseBody(h, t).Parsed? && |t| >= 3 && t[0] == 0
    ensures var a := ParseBody(h, t).a;
      Representable(a) && Body(a, PROTO_T1) == t && a.(cse := CASE_1, lc := 0, le := 0, data := []) == h
  {
    hide Number, Low2, Low, Body, Representable, ParseData, Le2;
    LengthFields(0, t[1], t[2]);
    assert t == [0] + [t[1], t[2]] + t[3..] && (|t| == 3 ==> t[1..] == [t[1], t[2]] && t[3..] == []);
    if |t| > 3 { WriteData(h, Number(t[1], t[2]), t[3..], true); } else { WriteLeOnly(h, Le2(t[1..])); }
  }

  /** A header and Le. */
  lemma WriteLeOnly(h: Command, le: nat)
    requires h.cse == CASE_1 && h.lc == 0 && h.le == 0 && h.data == [] && 1 <= le <= 65536
    ensures var a := h.(cse := CASE_2_EXT, le := le); Representable(a) && Body(a, PROTO_T1) == [0] + Low2(le)
  {
    hide Low2;
  }

  lemma WriteShort(h: Command, t: bytes)
    requires h.cse == CASE_1 && h.lc == 0 && h.le == 0 && h.data == [] && ParseBody(h, t).Parsed? && (|t| < 3 || t[0] != 0)
    ensures var a := ParseBody(h, t).a;
      Representable(a) && Body(a, PROTO_T1) == t && a.(cse := CASE_1, lc := 0, le := 0, data := []) == h
  {
    hide Number, ParseData, Low2, Le2, Le1;
    if |t| >= 1 {
      LengthFields(0, 0, t[0]);
      assert t == [t[0]] + t[1..];
      if |t| > 1 { WriteData(h, t[0], t[1..], false); }
    }
  }

  lemma WriteData(h: Command, lc: nat, rest: bytes, ext: bool)
    requires h.cse == CASE_1 && h.lc == 0 && h.le == 0 && h.data == [] && ParseData(h, lc, rest, ext).Parsed?
    requires lc <= (if ext then 65535 else 255) && rest != []
    ensures var a := ParseData(h, lc, rest, ext).a;
      && Representable(a) && a.(cse := CASE_1, lc := 0, le := 0, data := []) == h
      && a.lc == lc
      && Body(a, PROTO_T1) == (if ext then [0] + Low2(lc) else [Low(lc)]) + rest
  {
    ParseDataKeeps(h, lc, rest, ext);
    hide Low, Number, Le1, Le2, ParseData, Low2;
    var t := rest[lc..];
    if |t| == 1 {
      LengthFields(0, 0, t[0]);
      assert t == [t[0]];
    } else if |t| == 2 {
      LengthFields(0, t[0], t[1]);
      assert t == [t[0], t[1]];
    }
  }
}
