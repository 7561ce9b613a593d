/** asn1_encode and asn1_decode as the loops they are, down to the octets each codec writes and reads;
    every method computes the function of the same step. */
module Asn1Loops {
  import opened Octets
  import opened DerWrite
  import opened DerSearch
  import opened Asn1Engine
  import DerInteger
  import DerOid
  import DerBits

  // ----- encoding -----

  /** The search for the alternative to write: refused as soon as a second one is present. */
  method PickAlternative(alts: Entries) returns (ok: bool, choice: Option<Entry>)
    ensures ok <==> PresentCount(alts) <= 1
    ensures ok ==> choice == if PresentCount(alts) == 0 then None else Some(Chosen(alts))
  {
    var list := alts;
    choice := None;
    while list.Cons?
      invariant PresentCount(alts) == (if choice.Some? then 1 else 0) + PresentCount(list)
      invariant choice.Some? ==> choice.value == Chosen(alts)
      invariant choice.None? && PresentCount(list) > 0 ==> Chosen(alts) == Chosen(list)
      decreases list
    {
      if list.first.present {
        if choice.Some? { return false, choice; }
        choice := Some(list.first);
      }
      list := list.rest;
    }
    ok := true;
  }

  method EncodeValue(k: Kind) returns (d: Encoded)
    requires !k.Choice?
    ensures d == EncodeContents(k)
    decreases k, 0
  {
    match k
    case Struct(fields) => d := EncodeTable(fields);
    case Null => d := Bytes([]);
    case Boolean(b) =>
      var x: u8 := if b then 0xFF else 0;
      d := Bytes([x]);
    case Integer(i) =>
      var obj, n := DerInteger.EncodeInteger(i);
      d := Bytes(obj[..n]);
    case BitString(bits) =>
      var obj := DerBits.EncodeBitString(bits.data, bits.n);
      d := Bytes(obj[..]);
    case BitField(field) =>
      var obj := DerBits.EncodeBitField(field);
      d := Bytes(obj[..]);
    case OctetString(unsigned, octets) => d := Bytes(Padded(unsigned, octets));
    case Text(unsigned, text) => d := Bytes(Padded(unsigned, text));
    case ObjectId(arcs) => d := EncodeArcs(arcs);
    case NoParm => d := Refused(SC_ERROR_INVALID_ASN1_OBJECT);
  }

  method EncodeArcs(arcs: Arcs) returns (d: Encoded)
    ensures d == EncodeContents(ObjectId(arcs))
  {
    hide DerOid.EncodeOid, DerOid.Components;
    DerOid.PaddedComponents(arcs, 0);
    assert DerOid.Padded(arcs)[0..] == DerOid.Padded(arcs) && arcs[0..] == arcs;
    var r, obj := DerOid.EncodeObjectId(DerOid.Padded(arcs));
    d := if r == SC_SUCCESS then Bytes(obj[..]) else Refused(r);
  }

  method FinishElement(e: Entry, buf: bytes) returns (d: Encoded)
    ensures d == Finish(e, buf)
  {
    hide WriteElement;
    if |buf| == 0 && e.optional && !e.present { return Bytes([]); }
    if (|buf| == 0 && e.emptyAllowed) || |buf| > 0 || e.kind.Null? || Constructed(e.tag) {
      var r, out := WriteElementBytes(e.tag, buf);
      return if r == SC_SUCCESS then Bytes(out[..]) else Refused(r);
    }
    return Refused(SC_ERROR_INVALID_ASN1_OBJECT);
  }

  /** asn1_encode_entry */
  method EncodeOne(e: Entry) returns (d: Encoded)
    ensures d == EncodeEntry(e)
    decreases e, 1
  {
    var buf := [];
    if e.present {
      if e.kind.Choice? {
        var ok, choice := PickAlternative(e.kind.alts);
        if !ok { return Refused(SC_ERROR_INVALID_ASN1_OBJECT); }
        if choice.Some? {
          d := EncodeOne(choice.value);
          return;
        }
      } else {
        var c := EncodeValue(e.kind);
        if c.Refused? { return c; }
        buf := c.b;
      }
    }
    d := FinishElement(e, buf);
  }

  /** asn1_encode: one element after the other is added to the buffer. */
  method EncodeTable(es: Entries) returns (d: Encoded)
    ensures d == EncodeList(es)
    decreases es, 2
  {
    var list, buf := es, [];
    while list.Cons?
      invariant list == es || list < es
      invariant EncodeList(es) == After(buf, EncodeList(list))
      decreases list
    {
      var obj := EncodeOne(list.first);
      if obj.Refused? { return obj; }
      AfterMore(buf, obj.b, EncodeList(list.rest));
      buf := buf + obj.b;
      list := list.rest;
    }
    return Bytes(buf);
  }

  function After(buf: bytes, d: Encoded): Encoded {
    match d
    case Bytes(b) => Bytes(buf + b)
    case Refused(_) => d
  }

  lemma AfterMore(buf: bytes, b: bytes, d: Encoded)
    ensures After(buf + b, d) == After(buf, After(b, d))
  {
    if d.Bytes? { assert buf + b + d.b == buf + (b + d.b); }
  }

  // ----- decoding -----

  /** asn1_decode_entry for what is not a choice. */
  method DecodeValue(k: Kind, obj: bytes) returns (d: DecodedKind)
    requires !k.Choice?
    ensures d == DecodeKind(k, obj)
    decreases k, 0
  {
    match k
    case Struct(fields) =>
      var t := DecodeTable(fields, obj, false);
      d := if t.Done? then Value(Struct(t.es)) else Bad(t.code);
    case Null => d := Value(Null);
    case Boolean(_) => d := if |obj| != 1 then Bad(SC_ERROR_INVALID_ASN1_OBJECT) else Value(Boolean(obj[0] != 0));
    case Integer(_) =>
      var r, v := DerInteger.DecodeInteger(obj, false);
      if r == SC_SUCCESS { DerInteger.SignedIsInt(obj); }
      d := if r == SC_SUCCESS then Value(Integer(v)) else Bad(r);
    case BitString(_) => d := DecodeBitsValue(obj);
    case BitField(_) =>
      var r, v := DerBits.DecodeBitField(obj, false);
      d := if r == SC_SUCCESS then Value(BitField(v)) else Bad(r);
    case OctetString(unsigned, _) =>
      var o := obj;
      if unsigned && |o| > 1 && o[0] == 0 { o := o[1..]; }
      d := Value(OctetString(unsigned, o));
    case Text(unsigned, _) => d := Value(Text(unsigned, obj));
    case ObjectId(_) => d := DecodeArcs(obj);
    case NoParm => d := Value(NoParm);
  }

  method DecodeBitsValue(obj: bytes) returns (d: DecodedKind)
    ensures d == DecodeKind(BitString(RawBits([], 0)), obj)
  {
    hide DerBits.PaddingSet, DerBits.DecodedOctet;
    if |obj| < 1 { return Bad(SC_ERROR_INVALID_ASN1_OBJECT); }
    var buf := new u8[|obj| - 1](_ => 0);
    var r := DerBits.DecodeBitString(obj, buf, true, false);
    match DerBits.DecodeBits(obj, |obj| - 1, true, false) {
      case Bits(n, data) => assert buf[..] == data;
      case Error(_) =>
    }
    return if r < 0 then Bad(r) else Value(BitString(RawBits(buf[..], r)));
  }

  method DecodeArcs(obj: bytes) returns (d: DecodedKind)
    ensures d == DecodeKind(ObjectId([]), obj)
  {
    hide DerOid.DecodeOid;
    var id := new int[DerOid.MAX_ARCS](_ => -1);
    var r := DerOid.DecodeObjectId(obj, id);
    DerOid.EncodeDecoded(obj);
    if r != SC_SUCCESS { return Bad(r); }
    var n, arcs: seq<nat> := 0, [];
    while n < DerOid.MAX_ARCS && id[n] >= 0
      invariant n <= DerOid.MAX_ARCS && arcs == id[..n]
      invariant DerOid.DecodeOid(obj).Oid? ==> id[..] == DerOid.Padded(DerOid.DecodeOid(obj).arcs)
      invariant DerOid.DecodeOid(obj).Oid? ==> arcs <= DerOid.DecodeOid(obj).arcs
    {
      n, arcs := n + 1, arcs + [id[n]];
    }
    ghost var c := DerOid.DecodeOid(obj).arcs;
    assert id[..] == DerOid.Padded(c) && arcs == c[..n];
    assert forall i :: 0 <= i < |c| ==> id[..][i] == c[i];
    assert arcs == c && DerOid.DecodeOid(obj) == DerOid.Oid(arcs);
    return Value(ObjectId(arcs));
  }

  /** The entries already passed, in front of what the rest of the loop leaves. */
  function PrependAll(done: seq<Entry>, d: Decoded): Decoded {
    if done == [] then d else Prepend(done[0], PrependAll(done[1..], d))
  }

  lemma {:induction false} PrependLast(done: seq<Entry>, e: Entry, d: Decoded)
    ensures PrependAll(done + [e], d) == PrependAll(done, Prepend(e, d))
  {
    if done != [] {
      assert (done + [e])[1..] == done[1..] + [e];
      PrependLast(done[1..], e, d);
    } else {
      assert [e][1..] == [];
    }
  }

  lemma {:induction false} PrependFailed(done: seq<Entry>, c: int)
    ensures PrependAll(done, Failed(c)) == Failed(c)
  {
    if done != [] { PrependFailed(done[1..], c); }
  }

  method SkipOptional(es: Entries) returns (all: bool)
    ensures all == AllOptional(es)
  {
    var list := es;
    while list.Cons? && list.first.optional
      invariant AllOptional(es) == AllOptional(list)
      decreases list
    {
      list := list.rest;
    }
    return list.End?;
  }

  /** One round of the loop of asn1_decode. */
  method DecodeOne(e: Entry, buf: bytes) returns (s: Step)
    ensures s == DecodeEntry(e, buf)
    decreases e, 1
  {
    if e.kind.Choice? {
      var d := DecodeTable(e.kind.alts, buf, true);
      s := if d.Done? then Took(e.(kind := Choice(d.es)), d.rest) else Missing(d.code);
    } else {
      var p, len, next := SkipTagBytes(buf, e.tag);
      if p == -1 { return Missing(SC_ERROR_ASN1_OBJECT_NOT_FOUND); }
      var d := DecodeValue(e.kind, buf[p..next]);
      s := if d.Bad? then Broken(d.code) else Took(e.(kind := d.k, present := true), buf[next..]);
    }
  }

  /** asn1_decode */
  method DecodeTable(es: Entries, buf: bytes, choice: bool) returns (d: Decoded)
    ensures d == Decode(es, buf, choice)
    decreases es, 3
  {
    hide DecodeEntry;
    if |buf| < 2 {
      var all := SkipOptional(es);
      return if all then Done(es, buf, 0) else Failed(SC_ERROR_ASN1_OBJECT_NOT_FOUND);
    }
    if buf[0] == 0 || buf[0] == 0xFF { return Failed(SC_ERROR_ASN1_END_OF_CONTENTS); }
    var list, done, left := es, [], buf;
    while list.Cons?
      invariant list == es || list < es
      invariant choice ==> left == buf && Decode(es, buf, true) == PrependAll(done, DecodeAlternatives(list, buf, |done|))
      invariant !choice ==> Decode(es, buf, false) == PrependAll(done, DecodeFields(list, left))
      decreases list
    {
      var e := list.first;
      var s := DecodeOne(e, left);
      var passed := s.Missing? && (e.optional || (choice && !e.kind.Choice?));
      if !s.Took? && !passed {
        PrependFailed(done, s.code);
        return Failed(s.code);
      }
      if choice && !(passed && !e.kind.Choice?) {
        return PrependAll(done, if s.Took? then Done(Cons(s.e, list.rest), s.rest, |done|) else Done(list, left, |done|));
      }
      PrependLast(done, if s.Took? then s.e else e,
                  if choice then DecodeAlternatives(list.rest, buf, |done| + 1)
                  else DecodeFields(list.rest, if s.Took? then s.rest else left));
      if s.Took? { e, left := s.e, s.rest; }
      done := done + [e];
      list := list.rest;
    }
    if choice { PrependFailed(done, SC_ERROR_ASN1_OBJECT_NOT_FOUND); }
    return if choice then Failed(SC_ERROR_ASN1_OBJECT_NOT_FOUND) else PrependAll(done, Done(End, left, 0));
  }
}
