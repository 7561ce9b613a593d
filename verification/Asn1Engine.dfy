/** The table-driven encoder and decoder of `OpenSC/src/libopensc/asn1.c`: asn1_encode,
    asn1_encode_entry, asn1_decode, asn1_decode_entry. An array of entries ended by a null name is
    a list; an entry carries the value its `parm` points to. */
module Asn1Engine {
  import opened Octets
  import opened DerWrite
  import opened DerSearch
  import DerInteger
  import DerOid
  import DerBits

  type Int32 = i: int | DerInteger.IsInt(i)
  type UInt32 = n: nat | n < TWO_32

  /** A bit string in memory: the octets hold at least n bits. */
  datatype RawBits = RawBits(data: bytes, n: nat)
  type Arcs = c: seq<nat> | |c| <= DerOid.MAX_ARCS && forall i :: 0 <= i < |c| ==> c[i] <= DerOid.INT_MAX
  type MemBits = b: RawBits | DerBits.OctetsFor(b.n) <= |b.data| witness RawBits([], 0)

  datatype Entries = End | Cons(first: Entry, rest: Entries)

  datatype Entry = Entry(kind: Kind, tag: UInt32, optional: bool, emptyAllowed: bool, present: bool)

  /** INTEGER stands for ENUMERATED too, Text for UTF8 and printable strings and, without UNSIGNED, for
      generalized time. NoParm is an entry of any type but NULL and CHOICE whose `parm` is null. */
  datatype Kind =
    | Struct(fields: Entries)
    | Choice(alts: Entries)
    | Null
    | Boolean(b: bool)
    | Integer(i: Int32)
    | BitString(bits: MemBits)
    | BitField(field: UInt32)
    | OctetString(unsigned: bool, octets: bytes)
    | Text(unsigned: bool, text: bytes)
    | ObjectId(arcs: Arcs)
    | NoParm

  // ----- encoding -----

  datatype Encoded = Bytes(b: bytes) | Refused(code: int)

  predicate Constructed(tag: nat) {
    tag / CLASS_CONS_UNIT % 2 == 1
  }

  function Written(tag: UInt32, buf: bytes): Encoded {
    match WriteElement(tag, buf)
    case Some(b) => Bytes(b)
    case None => Refused(SC_ERROR_INVALID_DATA)
  }

  /** The end of asn1_encode_entry: what becomes of the contents, empty ones in particular. */
  function Finish(e: Entry, buf: bytes): Encoded {
    if buf == [] && e.optional && !e.present then Bytes([])
    else if buf == [] && e.emptyAllowed then Written(e.tag, buf)
    else if buf != [] || e.kind.Null? || Constructed(e.tag) then Written(e.tag, buf)
    else Refused(SC_ERROR_INVALID_ASN1_OBJECT)
  }

  /** A zero octet in front of an unsigned number whose top bit is set. */
  function Padded(unsigned: bool, o: bytes): bytes {
    if unsigned && o != [] && o[0] >= 0x80 then [0] + o else o
  }

  function EncodeContents(k: Kind): Encoded
    requires !k.Choice?
    decreases k, 0
  {
    match k
    case Struct(fields) => EncodeList(fields)
    case Null => Bytes([])
    case Boolean(b) => var x: u8 := if b then 0xFF else 0; Bytes([x])
    case Integer(i) => Bytes(DerInteger.IntOctets(i))
    case BitString(bits) => Bytes(DerBits.EncodeBits(bits.data, bits.n))
    case BitField(field) => Bytes(DerBits.EncodeField(field))
    case OctetString(unsigned, o) => Bytes(Padded(unsigned, o))
    case Text(unsigned, o) => Bytes(Padded(unsigned, o))
    case ObjectId(arcs) =>
      if DerOid.Encodable(arcs) then Bytes(DerOid.EncodeOid(arcs)) else Refused(SC_ERROR_INVALID_ARGUMENTS)
    case NoParm => Refused(SC_ERROR_INVALID_ASN1_OBJECT)
  }

  function PresentCount(es: Entries): nat {
    match es
    case End => 0
    case Cons(e, rest) => (if e.present then 1 else 0) + PresentCount(rest)
  }

  /** The alternative to write; only one may be present. */
  function Chosen(es: Entries): (e: Entry)
    requires PresentCount(es) > 0
    ensures e < es && e.present
  {
    if es.first.present then es.first else Chosen(es.rest)
  }

  function EncodeEntry(e: Entry): Encoded
    decreases e, 1
  {
    if !e.present then Finish(e, [])
    else if e.kind.Choice? then
      var alts := e.kind.alts;
      if PresentCount(alts) > 1 then Refused(SC_ERROR_INVALID_ASN1_OBJECT)
      else if PresentCount(alts) == 0 then Finish(e, [])
      else EncodeEntry(Chosen(alts))
    else match EncodeContents(e.kind)
      case Refused(c) => Refused(c)
      case Bytes(buf) => Finish(e, buf)
  }

  function EncodeList(es: Entries): Encoded
    decreases es, 2
  {
    match es
    case End => Bytes([])
    case Cons(e, rest) =>
      match EncodeEntry(e)
      case Refused(c) => Refused(c)
      case Bytes(b) =>
        match EncodeList(rest)
        case Refused(c) => Refused(c)
        case Bytes(b') => Bytes(b + b')
  }

  // ----- decoding -----

  /** `rest` is the input not consumed, `index` the alternative taken. */
  datatype Decoded = Done(es: Entries, rest: bytes, index: nat) | Failed(code: int)
  datatype DecodedKind = Value(k: Kind) | Bad(code: int)

  predicate AllOptional(es: Entries) {
    es.End? || (es.first.optional && AllOptional(es.rest))
  }

  function DecodeKind(k: Kind, obj: bytes): DecodedKind
    requires !k.Choice?
    decreases k, 0
  {
    match k
    case Struct(fields) =>
      (match Decode(fields, obj, false)
       case Done(es, _, _) => Value(Struct(es))
       case Failed(c) => Bad(c))
    case Null => Value(Null)
    case Boolean(_) => if |obj| != 1 then Bad(SC_ERROR_INVALID_ASN1_OBJECT) else Value(Boolean(obj[0] != 0))
    case Integer(_) =>
      (match DerInteger.Decode(obj, false)
       case Int(v) => DerInteger.SignedIsInt(obj); Value(Integer(v))
       case Refused(c) => Bad(c))
    case BitString(_) =>
      (match DerBits.DecodeBits(obj, if obj == [] then 0 else |obj| - 1, true, false)
       case Bits(n, data) => if n < 0 then Bad(n) else Value(BitString(RawBits(data, n)))
       case Error(c) => Bad(c))
    case BitField(_) =>
      (match DerBits.DecodeField(obj, false)
       case Field(v) => Value(BitField(v))
       case FieldError(c) => Bad(c))
    case OctetString(unsigned, _) =>
      Value(OctetString(unsigned, if unsigned && |obj| > 1 && obj[0] == 0 then obj[1..] else obj))
    case Text(unsigned, _) => Value(Text(unsigned, obj))
    case ObjectId(_) =>
      (match DerOid.DecodeOid(obj)
       case Oid(arcs) => DerOid.EncodeDecoded(obj); Value(ObjectId(arcs))
       case Error(c) => Bad(c))
    case NoParm => Value(NoParm)
  }

  /** asn1_decode */
  function Decode(es: Entries, buf: bytes, choice: bool): Decoded
    decreases es, 3
  {
    if |buf| < 2 then if AllOptional(es) then Done(es, buf, 0) else Failed(SC_ERROR_ASN1_OBJECT_NOT_FOUND)
    else if buf[0] == 0 || buf[0] == 0xFF then Failed(SC_ERROR_ASN1_END_OF_CONTENTS)
    else if choice then DecodeAlternatives(es, buf, 0) else DecodeFields(es, buf)
  }

  /** One entry against the input: taken, not there (with the code to report), or malformed. */
  datatype Step = Took(e: Entry, rest: bytes) | Missing(code: int) | Broken(code: int)

  function DecodeEntry(e: Entry, buf: bytes): Step
    decreases e, 1
  {
    if e.kind.Choice? then
      match Decode(e.kind.alts, buf, true)
      case Done(alts, buf', _) => Took(e.(kind := Choice(alts)), buf')
      case Failed(c) => Missing(c)
    else
      match SkipTag(buf, e.tag)
      case None => Missing(SC_ERROR_ASN1_OBJECT_NOT_FOUND)
      case Some((obj, buf')) =>
        match DecodeKind(e.kind, obj)
        case Bad(c) => Broken(c)
        case Value(k) => Took(e.(kind := k, present := true), buf')
  }

  /** The loop of asn1_decode over the fields of a structure. */
  function DecodeFields(es: Entries, buf: bytes): Decoded
    decreases es, 2
  {
    match es
    case End => Done(End, buf, 0)
    case Cons(e, rest) =>
      match DecodeEntry(e, buf)
      case Took(e', buf') => Prepend(e', DecodeFields(rest, buf'))
      case Missing(c) => if e.optional then Prepend(e, DecodeFields(rest, buf)) else Failed(c)
      case Broken(c) => Failed(c)
  }

  function Prepend(e: Entry, d: Decoded): Decoded {
    match d
    case Done(es, buf, i) => Done(Cons(e, es), buf, i)
    case Failed(c) => Failed(c)
  }

  /** The loop of asn1_decode over the alternatives of a choice, from number i on. */
  function DecodeAlternatives(es: Entries, buf: bytes, i: nat): Decoded
    decreases es, 2
  {
    match es
    case End => Failed(SC_ERROR_ASN1_OBJECT_NOT_FOUND)
    case Cons(e, rest) =>
      match DecodeEntry(e, buf)
      case Took(e', buf') => Done(Cons(e', rest), buf', i)
      case Broken(c) => Failed(c)
      case Missing(c) =>
        if !e.kind.Choice? then Prepend(e, DecodeAlternatives(rest, buf, i + 1))
        else if e.optional then Done(es, buf, i)
        else Failed(c)
  }
}
