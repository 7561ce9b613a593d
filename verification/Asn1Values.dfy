/** What the table-driven coder of `OpenSC/src/libopensc/asn1.c` writes for a value, and what it takes
    any octets for, in the terms of ITU-T X.690. */
module Asn1Values {
  import opened Octets
  import opened DerTag
  import opened DerWrite
  import opened DerSearch
  import opened Asn1Engine
  import opened Asn1RoundTrip
  import opened Asn1Rewrite
  import DerInteger
  import DerOid
  import DerBits

  // ----- what is written -----

  /** The contents octets stand for the value: section 8.2 and 11.1 (boolean), 8.3 (integer), 8.6 (bit
      string), 8.7 (octet string), 8.8 (null), 8.19 (object identifier). */
  ghost predicate Means(k: Kind, c: bytes) {
    match k
    case Null => c == []
    case Boolean(b) => |c| == 1 && forall q :: 0 <= q < 8 ==> DerBits.OctetBits(c[0])[q] == b
    case Integer(i) => DerInteger.Minimal(c) && DerInteger.Signed(c) == i
    case BitString(bits) =>
      && |c| == 1 + DerBits.OctetsFor(bits.n) && DerBits.Used(c) == bits.n && c[0] < 8
      && forall k :: 0 <= k < 8 * (|c| - 1) ==> DerBits.WireBit(c, k) == (k < bits.n && DerBits.MemBit(bits.data, k))
    case BitField(f) =>
      && c != [] && c[0] < 8 && DerBits.Used(c) >= 0 && f < DerBits.Pow2(DerBits.Used(c))
      && (f > 0 ==> DerBits.Used(c) > 0 && DerBits.Pow2(DerBits.Used(c) - 1) <= f)
      && forall k :: 0 <= k < 8 * (|c| - 1) ==> DerBits.WireBit(c, k) == (k < DerBits.Used(c) && f / DerBits.Pow2(k) % 2 == 1)
    case OctetString(unsigned, o) => WithSign(unsigned, o, c)
    case Text(unsigned, o) => WithSign(unsigned, o, c)
    case ObjectId(arcs) => 2 <= |arcs| < DerOid.MAX_ARCS ==> DerOid.DecodeOid(c) == DerOid.Oid(arcs)
    case _ => true
  }

  /** The octets themselves; an unsigned number keeps its value and has its top bit clear. */
  predicate WithSign(unsigned: bool, o: bytes, c: bytes) {
    && (c == o || c == [0] + o) && (!unsigned || o == [] ==> c == o)
    && (unsigned && o != [] ==> c[0] < 0x80 && Be(c) == Be(o) && (o[0] < 0x80 ==> c == o))
  }

  /** A present primitive entry is written as one element under its tag whose contents mean its value. */
  lemma {:induction false} WrittenValue(e: Entry) returns (c: bytes)
    requires e.present && !e.kind.Choice? && !e.kind.Struct? && LegalEngineTag(e.tag) && EncodeEntry(e).Bytes?
    ensures EncodeEntry(e).b == Element(WireTag(e.tag), c) && Means(e.kind, c)
  {
    hide Element, LegalEngineTag, WireTag, ShortTag, WellFormedLong;
    c := EncodeContents(e.kind).b;
    ContentsMean(e.kind);
    TagWritten(e.tag, c);
  }

  lemma TagWritten(tag: UInt32, c: bytes)
    requires LegalEngineTag(tag)
    ensures Written(tag, c) == Bytes(Element(WireTag(tag), c))
  {
    WrittenIdParts(tag);
  }

  lemma ContentsMean(k: Kind)
    requires !k.Choice? && !k.Struct? && EncodeContents(k).Bytes?
    ensures Means(k, EncodeContents(k).b)
  {
    match k
    case Boolean(b) => BooleanMeans(b);
    case Integer(i) => DerInteger.IntOctetsMeaning(i);
    case BitString(bits) => BitsMean(bits);
    case BitField(f) => FieldMeans(f);
    case OctetString(unsigned, o) => SignKept(unsigned, o);
    case Text(unsigned, o) => SignKept(unsigned, o);
    case ObjectId(arcs) => if |arcs| < DerOid.MAX_ARCS { DerOid.DecodeEncoded(arcs); }
    case _ =>
  }

  lemma BooleanOctet(b: bool)
    ensures var x: u8 := if b then 0xFF else 0; forall q :: 0 <= q < 8 ==> DerBits.OctetBits(x)[q] == b
  {
    if b {
      assert DerBits.OctetBits(0xFF) == [true, true, true, true, true, true, true, true];
    } else {
      assert DerBits.OctetBits(0) == [false, false, false, false, false, false, false, false];
    }
  }

  lemma BooleanMeans(b: bool)
    ensures Means(Boolean(b), EncodeContents(Boolean(b)).b)
  {
    var x: u8 := if b then 0xFF else 0;
    BooleanOctet(b);
    assert EncodeContents(Boolean(b)).b == [x];
  }

  lemma BitsMean(bits: MemBits)
    ensures Means(BitString(bits), DerBits.EncodeBits(bits.data, bits.n))
  {
    hide DerBits.EncodeBits, DerBits.WireBit, DerBits.MemBit;
    DerBits.EncodedBits(bits.data, bits.n);
  }

  lemma FieldMeans(f: UInt32)
    ensures Means(BitField(f), DerBits.EncodeField(f))
  {
    hide DerBits.EncodeField, DerBits.WireBit, DerBits.Pow2, DerBits.BitLength;
    DerBits.EncodedField(f);
  }

  lemma SignKept(unsigned: bool, o: bytes)
    ensures WithSign(unsigned, o, Padded(unsigned, o))
  {
    BePrepend(0, o);
  }

  /** A BOOLEAN under tag 1: eight equal bits behind identifier and length. */
  lemma {:induction false} BooleanWritten(b: bool, optional: bool, emptyAllowed: bool) returns (x: u8)
    ensures EncodeEntry(Entry(Boolean(b), 1, optional, emptyAllowed, true)) == Bytes([1, 1, x])
    ensures forall q :: 0 <= q < 8 ==> DerBits.OctetBits(x)[q] == b
  {
    ShortTags();
    var e := Entry(Boolean(b), 1, optional, emptyAllowed, true);
    TagWritten(1, EncodeContents(e.kind).b);
    var c := WrittenValue(e);
    x := c[0];
    assert TagOctets(1) == [1] && c == [x];
  }

  // ----- which tables are written -----

  predicate NonePresent(es: Entries) {
    match es
    case End => true
    case Cons(e, rest) => !e.present && NonePresent(rest)
  }

  predicate AbsentAndOptional(es: Entries) {
    match es
    case End => true
    case Cons(e, rest) => !e.present && e.optional && AbsentAndOptional(rest)
  }

  /** The value takes no octets. */
  predicate Octetless(k: Kind) {
    match k
    case Null => true
    case OctetString(_, o) => o == []
    case Text(_, o) => o == []
    case Struct(fields) => AbsentAndOptional(fields)
    case _ => false
  }

  /** The tag can be written, and a value without octets is allowed to be there. */
  predicate Allowed(e: Entry, octetless: bool) {
    WellFormedLong(ShortTag(e.tag)) && (octetless ==> MayBeEmpty(e))
  }

  /** There are octets for the entry: it is optional and absent, or has a value that can be written; of
      the alternatives of a choice at most one is present, and it can be written. */
  predicate Encodes(e: Entry)
    decreases e, 0
  {
    if !e.present then e.optional || Allowed(e, true)
    else match e.kind
      case Choice(alts) => if NonePresent(alts) then Allowed(e, true) else OneEncodes(alts)
      case Struct(fields) => EncodesAll(fields) && Allowed(e, AbsentAndOptional(fields))
      case ObjectId(arcs) => DerOid.Encodable(arcs) && Allowed(e, false)
      case NoParm => false
      case _ => Allowed(e, Octetless(e.kind))
  }

  predicate OneEncodes(alts: Entries)
    decreases alts, 0
  {
    match alts
    case End => true
    case Cons(e, rest) => if e.present then Encodes(e) && NonePresent(rest) else OneEncodes(rest)
  }

  predicate EncodesAll(es: Entries)
    decreases es, 0
  {
    match es
    case End => true
    case Cons(e, rest) => Encodes(e) && EncodesAll(rest)
  }

  /** The encoder accepts exactly such tables, and makes nothing exactly of entries that are all absent
      and optional. */
  lemma {:induction false} AcceptedTables(es: Entries)
    ensures EncodeList(es).Bytes? <==> EncodesAll(es)
    ensures EncodeList(es) == Bytes([]) <==> AbsentAndOptional(es)
    decreases es, 2
  {
    hide EncodeEntry, Encodes;
    match es
    case End =>
    case Cons(e, rest) =>
      AcceptedEntry(e);
      AcceptedTables(rest);
  }

  lemma {:induction false} AcceptedEntry(e: Entry)
    ensures EncodeEntry(e).Bytes? <==> Encodes(e)
    ensures EncodeEntry(e) == Bytes([]) <==> !e.present && e.optional
    decreases e, 1
  {
    hide Written, MayBeEmpty, Constructed, EncodeContents, WellFormedLong, ShortTag;
    ConstructedBit(e.tag);
    if e.present && e.kind.Choice? {
      AcceptedChoice(e.kind.alts);
    } else if e.present {
      AcceptedContents(e.kind);
      if EncodeContents(e.kind).Bytes? { Finished(e, EncodeContents(e.kind).b); }
    }
    Finished(e, []);
  }

  lemma {:induction false} AcceptedChoice(alts: Entries)
    ensures NonePresent(alts) <==> PresentCount(alts) == 0
    ensures PresentCount(alts) == 1 ==> (OneEncodes(alts) <==> EncodeEntry(Chosen(alts)).Bytes?) && EncodeEntry(Chosen(alts)) != Bytes([])
    ensures PresentCount(alts) > 1 ==> !OneEncodes(alts)
    decreases alts, 2
  {
    hide EncodeEntry, Encodes;
    match alts
    case End =>
    case Cons(e, rest) =>
      AcceptedEntry(e);
      AcceptedChoice(rest);
  }

  lemma {:induction false} AcceptedContents(k: Kind)
    requires !k.Choice?
    ensures EncodeContents(k).Bytes? <==> match k
      case Struct(fields) => EncodesAll(fields)
      case ObjectId(arcs) => DerOid.Encodable(arcs)
      case NoParm => false
      case _ => true
    ensures EncodeContents(k) == Bytes([]) <==> Octetless(k)
    decreases k, 0
  {
    hide DerOid.EncodeOid, DerBits.EncodeBits, DerBits.EncodeField, DerInteger.IntOctets;
    match k
    case Struct(fields) => AcceptedTables(fields);
    case Integer(i) => DerInteger.IntOctetsMeaning(i);
    case BitString(bits) => BitsMean(bits);
    case BitField(f) => FieldMeans(f);
    case ObjectId(arcs) => if DerOid.Encodable(arcs) { ArcsTakeOctets(arcs); }
    case _ =>
  }

  lemma ArcsTakeOctets(c: seq<nat>)
    requires |c| >= 2
    ensures DerOid.EncodeOid(c) != []
  {
    hide DerOid.ArcOctets, DerOid.EncodeArcs;
    DerOid.ArcOctetsIs((c[0] * 40 + c[1]) % TWO_32);
  }

  lemma Finished(e: Entry, buf: bytes)
    ensures var r := Finish(e, buf);
      && (r.Bytes? <==> (buf == [] && e.optional && !e.present) || Allowed(e, buf == []))
      && (r == Bytes([]) <==> buf == [] && e.optional && !e.present)
  {
    hide Constructed, Element, WellFormedLong, WireTag;
    ConstructedBit(e.tag);
    if WellFormedLong(ShortTag(e.tag)) { assert |Element(WireTag(e.tag), buf)| > 0 by { ElementTakes(WireTag(e.tag), buf); } }
  }

  lemma ElementTakes(t: bytes, c: bytes)
    requires t != []
    ensures Element(t, c) != []
  {
    hide LenOctets;
  }

  // ----- what any octets are taken for -----

  /** The value read from contents octets, whatever they are, or the refusal. */
  ghost predicate ReadAs(k: Kind, obj: bytes, r: DecodedKind) {
    match k
    case Null => r == Value(Null)
    case Boolean(_) =>
      if |obj| != 1 then r == Bad(SC_ERROR_INVALID_ASN1_OBJECT)
      else r == Value(Boolean(exists q :: 0 <= q < 8 && DerBits.OctetBits(obj[0])[q]))
    case Integer(_) =>
      if obj == [] then r == Bad(SC_ERROR_INVALID_ASN1_OBJECT)
      else if |obj| > 4 then r == Bad(SC_ERROR_NOT_SUPPORTED)
      else r.Value? && r.k.Integer? && r.k.i == DerInteger.Signed(obj)
    case BitString(_) =>
      if obj == [] || (|obj| > 1 && DerBits.Unused(obj) > 0 && DerBits.WireBit(obj, DerBits.Used(obj)))
      then r == Bad(SC_ERROR_INVALID_ASN1_OBJECT)
      else if DerBits.Used(obj) < 0 then r == Bad(DerBits.Used(obj))
      else
        && r.Value? && r.k.BitString? && r.k.bits.n == DerBits.Used(obj) && |r.k.bits.data| == |obj| - 1
        && forall k :: 0 <= k < 8 * (|obj| - 1) ==>
             DerBits.MemBit(r.k.bits.data, k) == (k < DerBits.Used(obj) && DerBits.WireBit(obj, k))
    case BitField(_) =>
      if obj == [] || |obj| > 5 || (|obj| > 1 && DerBits.Unused(obj) > 0 && DerBits.WireBit(obj, DerBits.Used(obj))) || DerBits.Used(obj) < 0
      then r.Bad? && r.code < 0
      else
        && r.Value? && r.k.BitField?
        && forall k :: 0 <= k < 32 ==> (r.k.field / DerBits.Pow2(k) % 2 == 1) == (k < DerBits.Used(obj) && DerBits.WireBit(obj, k))
    case OctetString(unsigned, _) =>
      && r.Value? && r.k.OctetString? && r.k.unsigned == unsigned && Be(r.k.octets) == Be(obj)
      && if unsigned && |obj| > 1 && obj[0] == 0 then obj == [0] + r.k.octets else r.k.octets == obj
    case Text(unsigned, _) => r == Value(Text(unsigned, obj))
    case ObjectId(_) =>
      if r.Bad? then forall c :: DerOid.ValidOid(c) && |c| < DerOid.MAX_ARCS ==> DerOid.EncodeOid(c) != obj
      else r.k.ObjectId? && DerOid.ValidOid(r.k.arcs) && DerOid.EncodeOid(r.k.arcs) == obj
    case NoParm => r == Value(NoParm)
    case _ => true
  }

  lemma {:induction false} DecodedValue(k: Kind, obj: bytes)
    requires !k.Choice? && !k.Struct?
    ensures ReadAs(k, obj, DecodeKind(k, obj))
  {
    match k
    case Boolean(_) => if |obj| == 1 { NonZero(obj[0]); }
    case BitString(_) => BitsRead(obj);
    case BitField(_) => FieldRead(obj);
    case OctetString(_, _) =>
      if |obj| > 1 && obj[0] == 0 {
        assert obj == [0] + obj[1..];
        BePrepend(0, obj[1..]);
      }
    case ObjectId(_) =>
      DerOid.EncodeDecoded(obj);
      DerOid.AcceptedExactly(obj);
    case _ =>
  }

  lemma NonZero(b: u8)
    ensures b != 0 <==> exists q :: 0 <= q < 8 && DerBits.OctetBits(b)[q]
  {
    if forall q :: 0 <= q < 8 ==> !DerBits.OctetBits(b)[q] {
      BooleanOctet(false);
      DerBits.SameBits(b, 0);
    }
    if b == 0 { BooleanOctet(false); }
  }

  lemma BitsRead(obj: bytes)
    ensures ReadAs(BitString(RawBits([], 0)), obj, DecodeKind(BitString(RawBits([], 0)), obj))
  {
    hide DerBits.WireBit, DerBits.MemBit, DerBits.DecodeBits;
    DerBits.DecodeBitsMeans(obj, if obj == [] then 0 else |obj| - 1, true, false);
  }

  lemma FieldRead(obj: bytes)
    ensures ReadAs(BitField(0), obj, DecodeKind(BitField(0), obj))
  {
    hide DerBits.WireBit, DerBits.Pow2, DerBits.DecodeBits, DerBits.FromLe, DerBits.Filled, DerBits.MemBit;
    DerBits.DecodeBitsMeans(obj, 4, true, false);
    DerBits.DecodedField(obj, false);
  }

  // ----- what any octets do to a table -----

  predicate Suffix(rest: bytes, buf: bytes) {
    |rest| <= |buf| && rest == buf[|buf| - |rest|..]
  }

  /** Every mandatory entry that is not a choice has been found. */
  predicate Filled(es: Entries) {
    match es
    case End => true
    case Cons(e, rest) => (e.optional || e.kind.Choice? || e.present) && Filled(rest)
  }

  /** On any input: octets are used up from the front, the table keeps its shape and its tags, and a
      structure is accepted only with all its mandatory entries. */
  lemma {:induction false} DecodeSound(es: Entries, buf: bytes, choice: bool)
    ensures var d := Decode(es, buf, choice);
      d.Done? ==> Suffix(d.rest, buf) && Blank(d.es) == Blank(es) && (!choice && |buf| >= 2 ==> Filled(d.es))
    decreases es, 3
  {
    if |buf| >= 2 {
      if choice { AlternativesSound(es, buf, 0); } else { FieldsSound(es, buf); }
    }
  }

  lemma {:induction false} EntrySound(e: Entry, buf: bytes)
    ensures match DecodeEntry(e, buf)
      case Took(e', rest) =>
        Suffix(rest, buf) && BlankEntry(e') == BlankEntry(e) && e'.kind.Choice? == e.kind.Choice? && (e.kind.Choice? || e'.present)
      case _ => true
    decreases e, 1
  {
    hide ReadHeader;
    if e.kind.Choice? {
      DecodeSound(e.kind.alts, buf, true);
    } else {
      match SkipTag(buf, e.tag)
      case None =>
      case Some((obj, _)) =>
        SkippedSuffix(buf, e.tag);
        if e.kind.Struct? { DecodeSound(e.kind.fields, obj, false); }
    }
  }

  lemma SkippedSuffix(buf: bytes, tag: nat)
    ensures SkipTag(buf, tag).Some? ==> Suffix(SkipTag(buf, tag).value.1, buf)
  {
    hide ReadHeader;
  }

  lemma SuffixOf(a: bytes, b: bytes, c: bytes)
    requires Suffix(a, b) && Suffix(b, c)
    ensures Suffix(a, c)
  {
  }

  lemma {:induction false} FieldsSound(es: Entries, buf: bytes)
    ensures var d := DecodeFields(es, buf); d.Done? ==> Suffix(d.rest, buf) && Blank(d.es) == Blank(es) && Filled(d.es)
    decreases es, 2
  {
    hide DecodeEntry, BlankKind;
    match es
    case End =>
    case Cons(e, rest) =>
      EntrySound(e, buf);
      match DecodeEntry(e, buf)
      case Took(_, buf') =>
        FieldsSound(rest, buf');
        var d := DecodeFields(rest, buf');
        if d.Done? { SuffixOf(d.rest, buf', buf); }
      case Missing(_) => FieldsSound(rest, buf);
      case Broken(_) =>
  }

  lemma {:induction false} AlternativesSound(es: Entries, buf: bytes, i: nat)
    ensures var d := DecodeAlternatives(es, buf, i); d.Done? ==> Suffix(d.rest, buf) && Blank(d.es) == Blank(es)
    decreases es, 2
  {
    hide DecodeEntry, BlankKind;
    match es
    case End =>
    case Cons(e, rest) =>
      EntrySound(e, buf);
      AlternativesSound(rest, buf, i + 1);
  }

  /** An entry whose tag is there but whose contents are malformed stops the decoder, optional or not;
      one whose tag is not there stops it only when it is mandatory. */
  lemma MalformedStops(e: Entry, rest: Entries, buf: bytes)
    requires !e.kind.Choice? && |buf| >= 2 && buf[0] != 0 && buf[0] != 0xFF
    ensures match SkipTag(buf, e.tag)
      case Some((obj, _)) =>
        DecodeKind(e.kind, obj).Bad? ==> Decode(Cons(e, rest), buf, false) == Failed(DecodeKind(e.kind, obj).code)
      case None =>
        && (!e.optional ==> Decode(Cons(e, rest), buf, false) == Failed(SC_ERROR_ASN1_OBJECT_NOT_FOUND))
        && (e.optional ==> Decode(Cons(e, rest), buf, false) == Prepend(e, DecodeFields(rest, buf)))
  {
    hide DecodeKind, SkipTag, DecodeEntry;
    EntryIs(e, buf);
    assert Decode(Cons(e, rest), buf, false) == DecodeFields(Cons(e, rest), buf);
  }

  lemma EntryIs(e: Entry, buf: bytes)
    requires !e.kind.Choice?
    ensures DecodeEntry(e, buf)
      == match SkipTag(buf, e.tag)
         case None => Missing(SC_ERROR_ASN1_OBJECT_NOT_FOUND)
         case Some((obj, rest)) =>
           if DecodeKind(e.kind, obj).Bad? then Broken(DecodeKind(e.kind, obj).code)
           else Took(e.(kind := DecodeKind(e.kind, obj).k, present := true), rest)
  {
    hide DecodeKind, SkipTag;
  }
}
