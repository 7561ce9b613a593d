/** ECDSA signatures, r || s and back (the last part of `OpenSC/src/libopensc/asn1.c`): one encoder
    and two decoders, one through the engine and one by hand. */
module EcdsaSig {
  import opened Octets
  import opened DerTag
  import opened DerWrite
  import opened DerSearch
  import opened Asn1Engine
  import opened Asn1RoundTrip
  import opened Asn1Loops
  import DerInteger

  const INTEGER := 2
  const SEQUENCE := 0x2000_0010

  function Coefficient(o: bytes, present: bool): Entry {
    Entry(OctetString(true, o), INTEGER, false, false, present)
  }

  function Coefficients(r: bytes, s: bytes, present: bool): Entries {
    Cons(Coefficient(r, present), Cons(Coefficient(s, present), End))
  }

  /** SEQUENCE { r INTEGER, s INTEGER } */
  function SigTable(r: bytes, s: bytes, present: bool): Entries {
    Cons(Entry(Struct(Coefficients(r, s, present)), SEQUENCE, false, false, present), End)
  }

  // ----- r || s to a sequence -----

  /** Without leading zeros, down to one octet. */
  function Strip(o: bytes): bytes {
    if |o| > 1 && o[0] == 0 then Strip(o[1..]) else o
  }

  function SigOf(inbuf: bytes): Entries {
    var h := |inbuf| / 2;
    SigTable(Strip(inbuf[..h]), Strip(inbuf[h..2 * h]), true)
  }

  method StripZeros(inbuf: bytes) returns (r: bytes)
    ensures r == Strip(inbuf)
  {
    r := inbuf;
    while |r| > 1 && r[0] == 0
      invariant Strip(inbuf) == Strip(r)
    {
      r := r[1..];
    }
  }

  /** sc_asn1_sig_value_rs_to_sequence */
  method RsToSequence(inbuf: bytes) returns (d: Encoded)
    ensures d == EncodeList(SigOf(inbuf))
  {
    var h := |inbuf| / 2;
    var r := StripZeros(inbuf[..h]);
    var s := StripZeros(inbuf[h..2 * h]);
    d := EncodeTable(SigTable(r, s, true));
  }

  // ----- a sequence to r || s, through the engine -----

  datatype Rs = Rs(b: bytes) | NoRs(code: int)

  function Zeros(n: nat): (z: bytes)
    ensures |z| == n
  {
    seq(n, _ => 0)
  }

  /** o at the end of n octets. */
  function Aligned(o: bytes, n: nat): (z: bytes)
    requires |o| <= n
    ensures |z| == n
  {
    Zeros(n - |o|) + o
  }

  /** A coefficient as the engine reads it. */
  function ReadUnsigned(buf: bytes): Option<(bytes, bytes)> {
    match SkipTag(buf, INTEGER)
    case Some((obj, rest)) => Some((WithoutPad(obj), rest))
    case None => None
  }

  function EngineCoefficients(inbuf: bytes): Option<(bytes, bytes)> {
    match SkipTag(inbuf, SEQUENCE)
    case None => None
    case Some((c, _)) =>
      match ReadUnsigned(c)
      case None => None
      case Some((r, c')) =>
        match ReadUnsigned(c')
        case None => None
        case Some((s, _)) => Some((r, s))
  }

  /** What the engine makes of the table of a signature. */
  lemma EngineReads(inbuf: bytes)
    ensures match Decode(SigTable([], [], false), inbuf, false)
      case Failed(c) => EngineCoefficients(inbuf) == None && c != SC_SUCCESS
      case Done(es, _, _) =>
        && EngineCoefficients(inbuf).Some?
        && es == SigTable(EngineCoefficients(inbuf).value.0, EngineCoefficients(inbuf).value.1, true)
  {
    hide ReadHeader;
    ShortIsNoElement(inbuf, SEQUENCE);
    match SkipTag(inbuf, SEQUENCE)
    case None =>
    case Some((c, rest)) => FieldsRead(c, rest);
  }

  lemma FieldsRead(c: bytes, rest: bytes)
    ensures match Decode(Coefficients([], [], false), c, false)
      case Failed(e) => e != SC_SUCCESS
        && (ReadUnsigned(c).None? || ReadUnsigned(ReadUnsigned(c).value.1).None?)
      case Done(es, _, _) =>
        && ReadUnsigned(c).Some? && ReadUnsigned(ReadUnsigned(c).value.1).Some?
        && es == Coefficients(ReadUnsigned(c).value.0, ReadUnsigned(ReadUnsigned(c).value.1).value.0, true)
  {
    ShortIsNoElement(c, INTEGER);
    OneRead(c);
    if ReadUnsigned(c).Some? { OneRead(ReadUnsigned(c).value.1); }
  }

  lemma OneRead(c: bytes)
    ensures DecodeEntry(Coefficient([], false), c)
      == match ReadUnsigned(c)
         case None => Missing(SC_ERROR_ASN1_OBJECT_NOT_FOUND)
         case Some((o, rest)) => Took(Coefficient(o, true), rest)
  {
  }

  lemma ShortIsNoElement(buf: bytes, tag: nat)
    ensures |buf| < 2 || buf[0] == 0 || buf[0] == 0xFF ==> SkipTag(buf, tag) == None
  {
    HeaderSize(buf);
  }

  function SequenceToRs(inbuf: bytes, buflen: nat): Rs {
    var h := buflen / 2;
    if buflen == 0 then NoRs(SC_ERROR_INVALID_ARGUMENTS)
    else match Decode(SigTable([], [], false), inbuf, false)
      case Failed(c) => NoRs(c)
      case Done(es, _, _) =>
        EngineReads(inbuf);
        var fields := es.first.kind.fields;
        var r, s := fields.first.kind.octets, fields.rest.first.kind.octets;
        if h < |r| || h < |s| then NoRs(SC_ERROR_BUFFER_TOO_SMALL) else Rs(Aligned(r, h) + Aligned(s, buflen - h))
  }

  /** sc_asn1_sig_value_sequence_to_rs */
  method SequenceToRsBytes(inbuf: bytes, buf: array<u8>) returns (rv: int)
    modifies buf
    ensures match SequenceToRs(inbuf, buf.Length)
      case Rs(b) => rv == SC_SUCCESS && buf[..] == b
      case NoRs(c) => rv == c && buf[..] == old(buf[..])
  {
    hide Decode, WithoutPad, SkipTag;
    if buf.Length == 0 { return SC_ERROR_INVALID_ARGUMENTS; }
    var h := buf.Length / 2;
    var d := DecodeTable(SigTable([], [], false), inbuf, false);
    EngineReads(inbuf);
    if d.Failed? { return d.code; }
    var fields := d.es.first.kind.fields;
    var r, s := fields.first.kind.octets, fields.rest.first.kind.octets;
    if h < |r| || h < |s| { return SC_ERROR_BUFFER_TOO_SMALL; }
    StoreBoth(buf, h, r, s);
    return SC_SUCCESS;
  }

  /** One number in the first h octets, the other in the rest. */
  method StoreBoth(buf: array<u8>, h: nat, r: bytes, s: bytes)
    requires |r| <= h <= buf.Length && |s| <= buf.Length - h
    modifies buf
    ensures buf[..] == Aligned(r, h) + Aligned(s, buf.Length - h)
  {
    hide Aligned;
    Clear(buf);
    assert buf[0..h] == Zeros(h) && buf[h..] == Zeros(buf.Length - h);
    CopyAligned(buf, 0, h, r);
    assert buf[h..buf.Length] == buf[h..];
    CopyAligned(buf, h, buf.Length - h, s);
    assert buf[..] == buf[..h] + buf[h..];
  }

  /** memcpy to the end of n octets that are zero. */
  method CopyAligned(buf: array<u8>, p: nat, n: nat, o: bytes)
    requires |o| <= n && p + n <= buf.Length && buf[p..p + n] == Zeros(n)
    modifies buf
    ensures buf[..p] == old(buf[..p]) && buf[p..p + n] == Aligned(o, n) && buf[p + n..] == old(buf[p + n..])
  {
    Copy(buf, p + n - |o|, o);
    assert old(buf[..p + n - |o|])[..p] == old(buf[..p]);
    assert old(buf[..p + n - |o|])[p..] == old(buf[p..p + n])[..n - |o|];
    assert buf[p..p + n] == buf[..p + n - |o|][p..] + buf[p + n - |o|..p + n];
  }

  /** memset */
  method Clear(buf: array<u8>)
    modifies buf
    ensures buf[..] == Zeros(buf.Length)
  {
    for i := 0 to buf.Length
      invariant forall k :: 0 <= k < i ==> buf[k] == 0
    {
      buf[i] := 0;
    }
  }

  // ----- a sequence to r || s, by hand -----

  /** One element with identifier octet `id` that is not empty; none of the tags of several octets
      adds up to such a number. */
  function ReadNonEmpty(buf: bytes, id: nat): Option<(bytes, bytes)> {
    match ReadHeader(buf)
    case Tag(cla, tag, size, len) =>
      if size + len > |buf| || len == 0 || cla + tag != id then None
      else Some((buf[size..size + len], buf[size + len..]))
    case _ => None
  }

  function FitField(v: bytes, fieldsize: nat): Option<bytes> {
    if |v| == fieldsize + 1 then if v[0] != 0 then None else Some(v[1..])
    else if |v| > fieldsize then None
    else Some(v)
  }

  function ReadField(buf: bytes, fieldsize: nat): (f: Option<(bytes, bytes)>)
    ensures f.Some? ==> |f.value.0| <= fieldsize
  {
    match ReadNonEmpty(buf, INTEGER)
    case None => None
    case Some((v, rest)) =>
      match FitField(v, fieldsize)
      case None => None
      case Some(v') => Some((v', rest))
  }

  /** The fields written by the first i rounds, and what is left to read. */
  function AfterRounds(c: bytes, fieldsize: nat, i: nat): (a: Option<(bytes, bytes)>)
    ensures a.Some? ==> |a.value.0| == i * fieldsize
  {
    if i == 0 then Some(([], c))
    else match AfterRounds(c, fieldsize, i - 1)
      case None => None
      case Some((written, left)) =>
        match ReadField(left, fieldsize)
        case None => None
        case Some((v, rest)) => Some((written + Aligned(v, fieldsize), rest))
  }

  function EcdsaSignature(data: bytes, fieldsize: nat, outlen: nat): Rs {
    if outlen < 2 * fieldsize then NoRs(SC_ERROR_INVALID_DATA)
    else match ReadNonEmpty(data, 0x30)
      case None => NoRs(SC_ERROR_INVALID_DATA)
      case Some((c, _)) =>
        match AfterRounds(c, fieldsize, 2)
        case None => NoRs(SC_ERROR_INVALID_DATA)
        case Some((written, _)) => Rs(written + Zeros(outlen - 2 * fieldsize))
  }

  method NextElement(buf: bytes, id: nat) returns (ok: bool, v: bytes, rest: bytes)
    ensures ReadNonEmpty(buf, id) == if ok then Some((v, rest)) else None
  {
    HeaderSize(buf);
    var r, p, cla, tag, len := ReadTag(buf);
    if p == -1 || r < 0 || len == 0 || cla + tag != id { return false, [], []; }
    return true, buf[p..p + len], buf[p + len..];
  }

  method NextField(buf: bytes, fieldsize: nat) returns (ok: bool, v: bytes, rest: bytes)
    ensures ReadField(buf, fieldsize) == if ok then Some((v, rest)) else None
  {
    hide ReadNonEmpty;
    ok, v, rest := NextElement(buf, INTEGER);
    if !ok { return; }
    if |v| == fieldsize + 1 {
      if v[0] != 0 { return false, [], []; }
      v := v[1..];
    }
    if |v| > fieldsize { return false, [], []; }
  }

  lemma RoundsStop(c: bytes, fieldsize: nat, i: nat)
    requires 1 <= i <= 2 && AfterRounds(c, fieldsize, i) == None
    ensures AfterRounds(c, fieldsize, 2) == None
  {
    if i == 1 { hide ReadField; }
  }

  /** sc_asn1_decode_ecdsa_signature */
  method DecodeEcdsaSignature(data: bytes, fieldsize: nat, out: array<u8>) returns (r: int)
    modifies out
    ensures match EcdsaSignature(data, fieldsize, out.Length)
      case Rs(b) => r == 2 * fieldsize && out[..] == b
      case NoRs(c) => r == c
  {
    hide ReadNonEmpty, AfterRounds;
    if out.Length < 2 * fieldsize { return SC_ERROR_INVALID_DATA; }
    Clear(out);
    var ok, c, rest := NextElement(data, 0x30);
    if !ok { return SC_ERROR_INVALID_DATA; }
    var found := CopyFields(c, fieldsize, out);
    r := if found then 2 * fieldsize else SC_ERROR_INVALID_DATA;
  }

  method CopyFields(c: bytes, fieldsize: nat, out: array<u8>) returns (ok: bool)
    requires 2 * fieldsize <= out.Length && out[..] == Zeros(out.Length)
    modifies out
    ensures ok == AfterRounds(c, fieldsize, 2).Some?
    ensures ok ==> out[..] == AfterRounds(c, fieldsize, 2).value.0 + Zeros(out.Length - 2 * fieldsize)
  {
    hide ReadField;
    var p: nat, i, left := 0, 0, c;
    ghost var written: bytes := [];
    while i < 2
      invariant 0 <= i <= 2 && p == (if i == 0 then 0 else if i == 1 then fieldsize else 2 * fieldsize)
      invariant |written| == p && out[..] == written + Zeros(out.Length - p)
      invariant AfterRounds(c, fieldsize, i) == Some((written, left))
    {
      var found, v, next := NextField(left, fieldsize);
      if !found {
        RoundsStop(c, fieldsize, i + 1);
        return false;
      }
      written := NextAligned(out, p, fieldsize, v, written);
      left, p, i := next, p + fieldsize, i + 1;
    }
    ok := true;
  }

  method NextAligned(out: array<u8>, p: nat, n: nat, v: bytes, ghost before: bytes) returns (ghost after: bytes)
    requires |v| <= n && p + n <= out.Length && |before| == p && out[..] == before + Zeros(out.Length - p)
    modifies out
    ensures after == before + Aligned(v, n) && out[..] == after + Zeros(out.Length - p - n)
  {
    after := before + Aligned(v, n);
    assert out[..p] == before && out[p..p + n] == Zeros(n) && out[p + n..] == Zeros(out.Length - p - n);
    CopyAligned(out, p, n, v);
    assert out[..] == out[..p] + out[p..p + n] + out[p + n..];
  }

  // ----- the two decoders agree -----

  lemma HeaderParts(buf: bytes)
    ensures match ReadHeader(buf)
      case Tag(cla, tag, _, _) => cla % 32 == 0 && (tag < 31 || tag >= 31 * 256)
      case _ => true
  {
    if buf != [] {
      var k := IdSize(buf);
      var t := buf[..k];
      if k == 1 {
        assert [t[0] % 32] + t[1..] == [] + [t[0] % 32];
        BeAppend([], t[0] % 32);
      } else if k > 1 {
        LongNumber(t);
      }
    }
  }

  lemma LongNumber(t: bytes)
    requires |t| > 1 && t[0] % 32 == 31
    ensures TagNumber(t) >= 31 * 256
  {
    var r := t[1..];
    BePrepend(31, r);
    BePrepend(r[0], r[1..]);
    assert r == [r[0]] + r[1..];
    assert Pow256(|r|) == 256 * Pow256(|r| - 1) >= 256;
  }

  /** Both read the same element, only one of them insists on contents. */
  lemma SameElement(buf: bytes, tag: nat, id: nat)
    requires (tag, id) == (SEQUENCE, 0x30) || (tag, id) == (INTEGER, INTEGER)
    ensures ReadNonEmpty(buf, id)
      == match SkipTag(buf, tag)
         case Some((v, rest)) => if v == [] then None else Some((v, rest))
         case None => None
  {
    HeaderParts(buf);
  }

  /** Where the engine reads an integer that is not empty and fits, the other decoder reads the same
      digits, and it reads nothing else. */
  lemma SameField(buf: bytes, fieldsize: nat)
    requires fieldsize > 0
    ensures match ReadUnsigned(buf)
      case None => ReadField(buf, fieldsize) == None
      case Some((o, rest)) =>
        && (ReadField(buf, fieldsize).Some? <==> o != [] && |o| <= fieldsize)
        && (ReadField(buf, fieldsize).Some? ==>
              var (v, left) := ReadField(buf, fieldsize).value;
              left == rest && Aligned(v, fieldsize) == Aligned(o, fieldsize))
  {
    SameElement(buf, INTEGER, INTEGER);
    hide SkipTag, ReadNonEmpty;
  }

  /** A sequence that begins with two integers of one octet, 0. */
  predicate TwoZeros(data: bytes) {
    match SkipTag(data, SEQUENCE)
    case None => false
    case Some((c, _)) =>
      match SkipTag(c, INTEGER)
      case None => false
      case Some((r, rest)) => r == [0] && SkipTag(rest, INTEGER).Some? && SkipTag(rest, INTEGER).value.0 == [0]
  }

  /** In fields of no octets only the number 0 written as one octet has room. */
  lemma FieldOfNone(buf: bytes)
    ensures ReadField(buf, 0)
      == match SkipTag(buf, INTEGER)
         case Some((v, rest)) => if v == [0] then Some(([], rest)) else None
         case None => None
  {
    hide ReadNonEmpty, SkipTag;
    SameElement(buf, INTEGER, INTEGER);
    if SkipTag(buf, INTEGER).Some? {
      var v := SkipTag(buf, INTEGER).value.0;
      if |v| == 1 { assert v == [v[0]] && v[1..] == []; }
    }
  }

  lemma NothingThere()
    ensures SkipTag([], INTEGER) == None && Aligned([], 0) + Aligned([], 0) == [] && Zeros(0) == []
  {
  }

  lemma NoRoom(data: bytes)
    ensures EcdsaSignature(data, 0, 0) == if TwoZeros(data) then Rs([]) else NoRs(SC_ERROR_INVALID_DATA)
  {
    hide ReadNonEmpty, ReadField, SkipTag, AfterRounds;
    SameElement(data, SEQUENCE, 0x30);
    if SkipTag(data, SEQUENCE).Some? {
      var c := SkipTag(data, SEQUENCE).value.0;
      TwoRounds(c, 0);
      NothingThere();
      FieldOfNone(c);
      if SkipTag(c, INTEGER).Some? { FieldOfNone(SkipTag(c, INTEGER).value.1); }
    }
  }

  /** sc_asn1_sig_value_sequence_to_rs and sc_asn1_decode_ecdsa_signature give the same octets for the
      same input, except that only the first accepts integers without contents, and only the second
      accepts fields of no octets, for two zeros. */
  lemma {:induction false} DecodersAgree(data: bytes, fieldsize: nat)
    ensures var a, b := SequenceToRs(data, 2 * fieldsize), EcdsaSignature(data, fieldsize, 2 * fieldsize);
      if fieldsize == 0 then a.NoRs? && (b.Rs? <==> TwoZeros(data)) && (b.Rs? ==> b == Rs([]))
      else
        && (b.Rs? <==> a.Rs? && EngineCoefficients(data).value.0 != [] && EngineCoefficients(data).value.1 != [])
        && (b.Rs? ==> a == b)
  {
    if fieldsize == 0 { NoRoom(data); } else { DecodersAgreeOnFields(data, fieldsize); }
  }

  lemma {:induction false} DecodersAgreeOnFields(data: bytes, fieldsize: nat)
    requires fieldsize > 0
    ensures var a, b := SequenceToRs(data, 2 * fieldsize), EcdsaSignature(data, fieldsize, 2 * fieldsize);
      && (b.Rs? <==> a.Rs? && EngineCoefficients(data).value.0 != [] && EngineCoefficients(data).value.1 != [])
      && (b.Rs? ==> a == b)
  {
    hide ReadNonEmpty, ReadField, ReadUnsigned, Decode, AfterRounds, SkipTag;
    EngineReads(data);
    SameElement(data, SEQUENCE, 0x30);
    if SkipTag(data, SEQUENCE).Some? {
      var c := SkipTag(data, SEQUENCE).value.0;
      NothingToRead();
      TwoRounds(c, fieldsize);
      SameField(c, fieldsize);
      if ReadUnsigned(c).Some? { SameField(ReadUnsigned(c).value.1, fieldsize); }
      assert forall z: bytes :: z + Zeros(0) == z;
    }
  }

  lemma NothingToRead()
    ensures ReadUnsigned([]) == None
  {
  }

  lemma TwoRounds(c: bytes, fieldsize: nat)
    ensures AfterRounds(c, fieldsize, 2)
      == match ReadField(c, fieldsize)
         case None => None
         case Some((r, c')) =>
           match ReadField(c', fieldsize)
           case None => None
           case Some((s, rest)) => Some((Aligned(r, fieldsize) + Aligned(s, fieldsize), rest))
  {
    hide ReadField;
    assert AfterRounds(c, fieldsize, 0) == Some(([], c));
    assert forall z: bytes :: [] + z == z;
    assert AfterRounds(c, fieldsize, 1)
        == match ReadField(c, fieldsize)
           case None => None
           case Some((r, c')) => Some((Aligned(r, fieldsize), c'));
  }

  // ----- the round trip -----

  lemma {:induction false} StripIs(o: bytes)
    ensures |Strip(o)| <= |o| && (o != [] ==> Strip(o) != []) && WithoutPad(Strip(o)) == Strip(o)
    ensures Aligned(Strip(o), |o|) == o && Be(Strip(o)) == Be(o)
  {
    hide Be, Pow256;
    if |o| > 1 && o[0] == 0 {
      StripIs(o[1..]);
      assert o == [0] + o[1..];
      BePrepend(0, o[1..]);
      assert Zeros(|o| - |Strip(o)|) == [0] + Zeros(|o| - 1 - |Strip(o)|);
    }
  }

  lemma SigTags()
    ensures WireTag(INTEGER) == [2] && WireTag(SEQUENCE) == [0x30]
    ensures LegalEngineTag(INTEGER) && LegalEngineTag(SEQUENCE)
    ensures WellFormedLong(ShortTag(INTEGER)) && WellFormedLong(ShortTag(SEQUENCE))
  {
    assert ToBe(0, 0) == [];
    assert ToBe(2, 1) == [2] && ToBe(16, 1) == [16];
    assert Width(0) == 0 && Width(2) == 1 && Width(16) == 1;
  }

  /** Tables of one and of two entries, one step at a time. */
  lemma OneEntry(e: Entry, whole: bool)
    requires !e.kind.Choice?
    ensures var t := Cons(e, End);
      && Image(t) == Cons(ImageEntry(e), End) && Blank(t) == Cons(BlankEntry(e), End)
      && (ReachesFields(t, whole) <==> Reaches(e))
      && EncodeList(t) == After([], EncodeEntry(e))
      && FirstTags(t) == EntryTags(e)
      && (LegalEntry(e) && e.present ==> Legal(t))
  {
    hide BlankEntry, ImageEntry, Reaches, EncodeEntry, LegalEntry, EntryTags;
    assert Image(End) == End && Blank(End) == End && ReachesFields(End, whole) && EncodeList(End) == Bytes([]) && Legal(End);
  }

  lemma TwoEntries(e: Entry, e': Entry, whole: bool)
    requires !e.kind.Choice? && !e'.kind.Choice?
    ensures var t := Cons(e, Cons(e', End));
      && Image(t) == Cons(ImageEntry(e), Cons(ImageEntry(e'), End)) && Blank(t) == Cons(BlankEntry(e), Cons(BlankEntry(e'), End))
      && (ReachesFields(t, whole) <==> Reaches(e) && Reaches(e'))
      && (EncodeEntry(e).Bytes? ==> EncodeList(t) == After(EncodeEntry(e).b, EncodeEntry(e')))
      && (LegalEntry(e) && LegalEntry(e') && e.present && e'.present && !e.optional ==> Legal(t))
  {
    hide BlankEntry, ImageEntry, Reaches, EncodeEntry, LegalEntry, EntryTags;
    OneEntry(e', whole);
  }

  /** The contents of a coefficient. */
  function Digits(o: bytes): bytes {
    Padded(true, Strip(o))
  }

  lemma OneCoefficient(o: bytes)
    requires o != [] && WithoutPad(o) == o
    ensures EncodeEntry(Coefficient(o, true)) == Bytes(Element([2], Padded(true, o)))
    ensures ImageEntry(Coefficient(o, true)) == Coefficient(o, true) && BlankEntry(Coefficient(o, true)) == Coefficient([], false)
    ensures Reaches(Coefficient(o, true)) && (|Padded(true, o)| < TWO_32 ==> LegalEntry(Coefficient(o, true)))
  {
    hide Element, LegalEngineTag, WellFormedLong, ShortTag, WithoutPad;
    SigTags();
    assert EncodeContents(OctetString(true, o)) == Bytes(Padded(true, o));
    assert WriteElement(INTEGER, Padded(true, o)) == Some(Element([2], Padded(true, o)));
  }

  /** A coefficient is written as the shortest two's complement form of its number. */
  lemma DigitsAreShortest(o: bytes)
    requires o != []
    ensures DerInteger.Minimal(Digits(o)) && DerInteger.Signed(Digits(o)) == Be(o)
  {
    StripIs(o);
    var t := Strip(o);
    if t[0] >= 0x80 { BePrepend(0, t); } else { assert [] + t == t; }
  }

  /** The table of two coefficients. */
  lemma BothCoefficients(r: bytes, s: bytes)
    requires r != [] && WithoutPad(r) == r && s != [] && WithoutPad(s) == s
    ensures var t, c := Coefficients(r, s, true), Element([2], Padded(true, r)) + Element([2], Padded(true, s));
      && EncodeList(t) == Bytes(c)
      && Image(t) == t && Blank(t) == Coefficients([], [], false) && ReachesFields(t, false)
      && (|c| < TWO_32 ==> Legal(t))
  {
    hide Image, Blank, EncodeEntry, ReachesFields, Legal, WithoutPad;
    OneCoefficient(r);
    OneCoefficient(s);
    TwoEntries(Coefficient(r, true), Coefficient(s, true), false);
  }

  /** The whole table. */
  lemma WholeTable(r: bytes, s: bytes)
    requires r != [] && WithoutPad(r) == r && s != [] && WithoutPad(s) == s
    ensures var t, c := SigTable(r, s, true), Element([2], Padded(true, r)) + Element([2], Padded(true, s));
      && EncodeList(t) == Bytes(Element([0x30], c))
      && Image(t) == t && Blank(t) == SigTable([], [], false) && ReachesFields(t, true)
      && (|c| < TWO_32 ==> Legal(t))
  {
    BothCoefficients(r, s);
    hide Image, Blank, ReachesFields, Legal, Element, LegalEngineTag, WellFormedLong, ShortTag, WithoutPad, EncodeList;
    SigTags();
    var e, c := SigTable(r, s, true).first, EncodeList(Coefficients(r, s, true)).b;
    OneEntry(e, true);
    assert EncodeContents(e.kind) == Bytes(c);
    assert WriteElement(SEQUENCE, c) == Some(Element([0x30], c)) && c != [];
    assert EncodeEntry(e) == Bytes(Element([0x30], c));
    assert |c| < TWO_32 ==> LegalKind(e.kind);
  }

  /** The contents of the sequence. */
  function SigContents(inbuf: bytes): bytes {
    var h := |inbuf| / 2;
    Element([2], Digits(inbuf[..h])) + Element([2], Digits(inbuf[h..2 * h]))
  }

  /** Every r || s of at least two octets is encoded, as a sequence of two integers. */
  lemma {:induction false} SigEncoded(inbuf: bytes)
    requires |inbuf| >= 2
    ensures EncodeList(SigOf(inbuf)) == Bytes(Element([0x30], SigContents(inbuf)))
  {
    hide EncodeList, Element, Padded, Strip, WithoutPad;
    var h := |inbuf| / 2;
    StripIs(inbuf[..h]);
    StripIs(inbuf[h..2 * h]);
    WholeTable(Strip(inbuf[..h]), Strip(inbuf[h..2 * h]));
  }

  /** Both decoders recover the octets, leading zeros and all, from what the encoder made of them. */
  lemma {:induction false} RsRoundTrip(inbuf: bytes)
    requires |inbuf| >= 2 && |inbuf| % 2 == 0 && |SigContents(inbuf)| < TWO_32
    ensures var d := EncodeList(SigOf(inbuf));
      && d.Bytes?
      && SequenceToRs(d.b, |inbuf|) == Rs(inbuf)
      && EcdsaSignature(d.b, |inbuf| / 2, |inbuf|) == Rs(inbuf)
  {
    hide EncodeList, Decode, EcdsaSignature, Image, Blank, Legal, ReachesFields;
    hide Aligned, Element, Padded, Strip, WithoutPad, EngineCoefficients;
    var h := |inbuf| / 2;
    var r, s := Strip(inbuf[..h]), Strip(inbuf[h..]);
    assert inbuf[h..2 * h] == inbuf[h..];
    StripIs(inbuf[..h]);
    StripIs(inbuf[h..]);
    WholeTable(r, s);
    assert SigOf(inbuf) == SigTable(r, s, true);
    RoundTripExactly(SigOf(inbuf));
    var b := EncodeList(SigOf(inbuf)).b;
    EngineReads(b);
    assert inbuf[..h] + inbuf[h..] == inbuf;
    DecodersAgree(b, h);
  }
}
