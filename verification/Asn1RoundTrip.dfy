/** Decoding undoes encoding for the table-driven engine. */
module Asn1RoundTrip {
  import opened Octets
  import opened DerTag
  import opened DerWrite
  import opened DerSearch
  import opened Asn1Engine
  import DerInteger
  import DerOid
  import DerBits

  // ----- the table handed to the decoder -----

  /** The table before decoding: no flag set, no value stored. */
  function Blank(es: Entries): Entries {
    match es
    case End => End
    case Cons(e, rest) => Cons(BlankEntry(e), Blank(rest))
  }

  function BlankEntry(e: Entry): Entry {
    e.(kind := BlankKind(e.kind), present := false)
  }

  function BlankKind(k: Kind): Kind {
    match k
    case Struct(fields) => Struct(Blank(fields))
    case Choice(alts) => Choice(Blank(alts))
    case Null => Null
    case Boolean(_) => Boolean(false)
    case Integer(_) => Integer(0)
    case BitString(_) => BitString(RawBits([], 0))
    case BitField(_) => BitField(0)
    case OctetString(unsigned, _) => OctetString(unsigned, [])
    case Text(unsigned, _) => Text(unsigned, [])
    case ObjectId(_) => ObjectId([])
    case NoParm => NoParm
  }

  // ----- the table the decoder leaves -----

  /** The first n bits, zeros after them. */
  function CleanBits(b: MemBits): MemBits {
    RawBits(seq(DerBits.OctetsFor(b.n), j requires 0 <= j < DerBits.OctetsFor(b.n) =>
              DerBits.BitsOctet(seq(8, q requires 0 <= q < 8 => 8 * j + q < b.n && DerBits.OctetBits(b.data[j])[q]))), b.n)
  }

  function WithoutPad(o: bytes): bytes {
    if |o| > 1 && o[0] == 0 then o[1..] else o
  }

  /** What is found again: present entries with their values, absent ones blank. A choice does not
      get its own flag back, only the alternative does. */
  function Image(es: Entries): Entries {
    match es
    case End => End
    case Cons(e, rest) => Cons(ImageEntry(e), Image(rest))
  }

  function ImageEntry(e: Entry): Entry {
    if !e.present then BlankEntry(e)
    else e.(kind := ImageKind(e.kind), present := !e.kind.Choice?)
  }

  function ImageKind(k: Kind): Kind {
    match k
    case Struct(fields) => Struct(Image(fields))
    case Choice(alts) => Choice(Image(alts))
    case BitString(bits) => BitString(CleanBits(bits))
    case OctetString(true, o) => OctetString(true, WithoutPad(o))
    case Text(true, o) => Text(true, Padded(true, o))
    case _ => k
  }

  // ----- legal tables -----

  /** The tags by which the alternatives of a choice are told apart. */
  function Tags(es: Entries): seq<UInt32> {
    match es
    case End => []
    case Cons(e, rest) => EntryTags(e) + Tags(rest)
  }

  function EntryTags(e: Entry): seq<UInt32> {
    if e.kind.Choice? then Tags(e.kind.alts) else [e.tag]
  }

  /** The entry that is written in the end for one that is present. */
  function Writer(e: Entry): Entry
    requires e.present
  {
    if e.kind.Choice? && PresentCount(e.kind.alts) > 0 then Writer(Chosen(e.kind.alts)) else e
  }

  /** A choice that is present without any of its alternatives. The encoder refuses it, or writes an
      empty element under the choice's own tag; the decoder never looks for that tag. */
  predicate Hollow(e: Entry) {
    e.present && Writer(e).kind.Choice?
  }

  /** The tags under which an entry is read, and the one under which a hollow choice is written. */
  function AllTags(e: Entry): seq<UInt32> {
    if Hollow(e) then EntryTags(e) + [Writer(e).tag] else EntryTags(e)
  }

  /** The tags that may come first: up to the first mandatory entry that can be read. */
  function FirstTags(es: Entries): seq<UInt32> {
    match es
    case End => []
    case Cons(e, rest) => AllTags(e) + if e.optional || Hollow(e) then FirstTags(rest) else []
  }

  ghost predicate Distinct(ts: seq<UInt32>) {
    forall i, j :: 0 <= i < j < |ts| ==> !SameTag(ts[i], ts[j])
  }

  predicate Apart(ts: seq<UInt32>, t: UInt32) {
    forall u :: u in ts ==> !SameTag(u, t)
  }

  /** Tags legal, an entry that may be passed over told apart from whatever may follow it, alternatives
      told apart, mandatory entries present, contents below 2^32 octets, object identifiers the
      decoder has room for. */
  ghost predicate Legal(es: Entries)
    decreases es, 0
  {
    match es
    case End => true
    case Cons(e, rest) =>
      && LegalEntry(e) && Legal(rest)
      && (e.optional || e.present)
      && (e.optional || Hollow(e) ==> forall t :: t in AllTags(e) ==> Apart(FirstTags(rest), t))
  }

  ghost predicate Alternatives(es: Entries)
    decreases es, 0
  {
    match es
    case End => true
    case Cons(e, rest) => LegalEntry(e) && Alternatives(rest)
  }

  ghost predicate LegalEntry(e: Entry)
    decreases e, 0
  {
    if e.kind.Choice? then
      && (Hollow(e) ==> LegalEngineTag(Writer(e).tag) && Apart(Tags(e.kind.alts), Writer(e).tag))
      && Distinct(Tags(e.kind.alts)) && Alternatives(e.kind.alts)
    else LegalEngineTag(e.tag) && (e.present ==> LegalKind(e.kind))
  }

  ghost predicate LegalKind(k: Kind)
    requires !k.Choice?
    decreases k, 0
  {
    && (k.Struct? ==> Legal(k.fields))
    && (k.ObjectId? ==> |k.arcs| < DerOid.MAX_ARCS)
    && (EncodeContents(k).Bytes? ==> |EncodeContents(k).b| < TWO_32)
  }

  /** Where all tags differ no two entries are confused. */
  lemma {:induction false} DistinctIsEnough(e: Entry, rest: Entries)
    requires Distinct(AllTags(e) + WrittenTags(rest))
    ensures forall t :: t in AllTags(e) ==> Apart(FirstTags(rest), t)
  {
    DistinctConcat(AllTags(e), WrittenTags(rest));
    FirstAmongTags(rest);
  }

  function WrittenTags(es: Entries): seq<UInt32> {
    match es
    case End => []
    case Cons(e, rest) => AllTags(e) + WrittenTags(rest)
  }

  lemma {:induction false} FirstAmongTags(es: Entries)
    ensures forall t :: t in FirstTags(es) ==> t in WrittenTags(es)
  {
    if es.Cons? { FirstAmongTags(es.rest); }
  }

  // ----- single values -----

  lemma BitsRoundTrip(b: MemBits)
    ensures var c := DerBits.EncodeBits(b.data, b.n);
      DerBits.DecodeBits(c, |c| - 1, true, false) == DerBits.Bits(b.n, CleanBits(b).data)
  {
    var c, m := DerBits.EncodeBits(b.data, b.n), DerBits.OctetsFor(b.n);
    DerBits.DecodeEncoded(b.data, b.n, m, false);
    var d, e := DerBits.DecodeBits(c, |c| - 1, true, false).data, CleanBits(b).data;
    forall j | 0 <= j < m ensures d[j] == e[j] {
      CleanOctet(b, d, j);
    }
  }

  lemma CleanOctet(b: MemBits, d: bytes, j: nat)
    requires |d| == DerBits.OctetsFor(b.n) && j < |d|
    requires forall k :: 0 <= k < 8 * |d| ==> DerBits.MemBit(d, k) == (k < b.n && DerBits.MemBit(b.data, k))
    ensures d[j] == CleanBits(b).data[j]
  {
    hide DerBits.OctetBits, DerBits.BitsOctet, DerBits.ToBits;
    var s := seq(8, q requires 0 <= q < 8 => 8 * j + q < b.n && DerBits.OctetBits(b.data[j])[q]);
    DerBits.OctetBitsOfOctet(s);
    forall q | 0 <= q < 8 ensures DerBits.OctetBits(d[j])[q] == s[q] {
      assert DerBits.MemBit(d, 8 * j + q) == (8 * j + q < b.n && DerBits.MemBit(b.data, 8 * j + q));
      DerBits.MemBitAt(d, j, q);
      DerBits.MemBitAt(b.data, j, q);
    }
    DerBits.SameOctet(d[j], DerBits.BitsOctet(s), 8);
  }

  /** The value of every primitive entry comes back. */
  lemma PrimitiveRoundTrip(k: Kind)
    requires !k.Choice? && !k.Struct? && LegalKind(k) && EncodeContents(k).Bytes?
    ensures DecodeKind(BlankKind(k), EncodeContents(k).b) == Value(ImageKind(k))
  {
    hide DerInteger.Decode, DerInteger.IntOctets, DerBits.DecodeBits, DerBits.EncodeField, DerBits.DecodeField;
    hide DerOid.DecodeOid, DerOid.EncodeOid;
    match k
    case Integer(i) => DerInteger.DecodeEncoded(i, false);
    case BitString(bits) => BitsRoundTrip(bits);
    case BitField(field) => DerBits.DecodeFieldEncoded(field, false);
    case ObjectId(arcs) => DerOid.DecodeEncoded(arcs);
    case _ =>
  }

  // ----- the alternatives the decoder reaches -----

  /** In a choice the decoder gives up at a choice that does not match, so no choice may stand
      directly in a choice before the alternative that is present. */
  predicate ReachesAlternative(alts: Entries)
    decreases alts, 0
  {
    match alts
    case End => true
    case Cons(e, rest) => if e.present then Reaches(e) else !e.kind.Choice? && ReachesAlternative(rest)
  }

  /** What a hollow choice has written is read by nobody. The entries from it on come back only if
      none of them has a value and none insists on being found; and as the input is not used up, only
      if that does not matter (`whole`), as inside a structure. */
  predicate ReachesFields(es: Entries, whole: bool)
    decreases es, 0
  {
    match es
    case End => true
    case Cons(e, rest) => if Hollow(e) then !whole && NothingMore(es) else Reaches(e) && ReachesFields(rest, whole)
  }

  predicate NothingMore(es: Entries) {
    match es
    case End => true
    case Cons(e, rest) => (e.present ==> Hollow(e)) && Passable(e) && NothingMore(rest)
  }

  /** The decoder goes on when the entry is not found. */
  predicate Passable(e: Entry) {
    e.optional || (e.kind.Choice? && Settles(e.kind.alts))
  }

  /** A choice takes part even when nothing matches if the first choice among its alternatives may
      be passed over. */
  predicate Settles(alts: Entries) {
    match alts
    case End => false
    case Cons(e, rest) => if e.kind.Choice? then Passable(e) else Settles(rest)
  }

  predicate Reaches(e: Entry)
    decreases e, 0
  {
    e.present ==>
      && (e.kind.Choice? ==> ReachesAlternative(e.kind.alts))
      && (e.kind.Struct? ==> ReachesFields(e.kind.fields, false))
  }

  // ----- what an encoding starts with -----

  /** A present entry other than a choice is one element under its tag. */
  lemma PresentIsElement(e: Entry)
    requires LegalEntry(e) && e.present && !e.kind.Choice? && EncodeEntry(e).Bytes?
    ensures EncodeContents(e.kind).Bytes? && |EncodeContents(e.kind).b| < TWO_32
    ensures EncodeEntry(e).b == Element(WireTag(e.tag), EncodeContents(e.kind).b)
  {
    SkipWritten(e.tag, EncodeContents(e.kind).b, [], e.tag);
  }

  lemma {:induction false} ChosenIsLegal(alts: Entries)
    requires Alternatives(alts) && PresentCount(alts) > 0
    ensures LegalEntry(Chosen(alts)) && forall t :: t in EntryTags(Chosen(alts)) ==> t in Tags(alts)
  {
    if !alts.first.present { ChosenIsLegal(alts.rest); }
  }

  lemma {:induction false} WriterOf(e: Entry)
    requires LegalEntry(e) && e.present && EncodeEntry(e).Bytes?
    ensures var w := Writer(e);
      && LegalEntry(w) && w.present && w.tag in AllTags(e) && EncodeEntry(w) == EncodeEntry(e)
      && Hollow(w) == Hollow(e) && (w.kind.Choice? ==> PresentCount(w.kind.alts) == 0)
    ensures e.kind.Choice? && PresentCount(e.kind.alts) > 0 ==>
      && PresentCount(e.kind.alts) == 1 && EncodeEntry(Chosen(e.kind.alts)) == EncodeEntry(e)
      && Hollow(Chosen(e.kind.alts)) == Hollow(e)
  {
    if e.kind.Choice? && PresentCount(e.kind.alts) > 0 {
      ChosenIsLegal(e.kind.alts);
      WriterOf(Chosen(e.kind.alts));
    }
  }

  /** An entry that is present is written as one element under the tag of its writer. */
  lemma WrittenElement(e: Entry) returns (c: bytes)
    requires LegalEntry(e) && e.present && EncodeEntry(e).Bytes?
    ensures LegalEngineTag(Writer(e).tag) && |c| < TWO_32 && EncodeEntry(e).b == Element(WireTag(Writer(e).tag), c)
  {
    WriterOf(e);
    var w := Writer(e);
    if w.kind.Choice? {
      c := [];
      SkipWritten(w.tag, c, [], w.tag);
    } else {
      c := EncodeContents(w.kind).b;
      PresentIsElement(w);
    }
  }

  lemma ApartConcat(ts: seq<UInt32>, us: seq<UInt32>, t: UInt32)
    ensures Apart(ts + us, t) <==> Apart(ts, t) && Apart(us, t)
  {
    assert forall u :: u in ts || u in us <==> u in ts + us;
  }

  /** Input that may be decoded: not at its end, not padding. */
  predicate Begun(buf: bytes) {
    |buf| >= 2 && buf[0] != 0 && buf[0] != 0xFF
  }

  lemma ElementBegun(tag: UInt32, c: bytes, rest: bytes)
    requires LegalEngineTag(tag)
    ensures Begun(Element(WireTag(tag), c) + rest)
  {
    hide ToBe, Width;
    assert |LenOctets(|c|)| >= 1;
    assert (Element(WireTag(tag), c) + rest)[0] == WireTag(tag)[0];
  }

  /** What an entry that is present writes is skipped under no tag but its own. */
  lemma WrittenEntry(e: Entry, rest: bytes)
    requires LegalEntry(e) && e.present && EncodeEntry(e).Bytes?
    ensures Begun(EncodeEntry(e).b + rest)
    ensures forall t: UInt32 :: Apart(AllTags(e), t) ==> SkipTag(EncodeEntry(e).b + rest, t) == None
    ensures forall t: UInt32 :: !SameTag(Writer(e).tag, t) ==> SkipTag(EncodeEntry(e).b + rest, t) == None
  {
    WriterOf(e);
    var c := WrittenElement(e);
    ElementBegun(Writer(e).tag, c, rest);
    forall t: UInt32 | !SameTag(Writer(e).tag, t) ensures SkipTag(EncodeEntry(e).b + rest, t) == None {
      SkipWritten(Writer(e).tag, c, rest, t);
    }
  }

  /** The encoding of a table is empty, with nothing present, or begins with an element under one of its tags. */
  lemma {:induction false} EncodedStarts(es: Entries)
    requires Legal(es) && EncodeList(es).Bytes?
    ensures var b := EncodeList(es).b;
      && (b == [] ==> AllOptional(Blank(es)) && Image(es) == Blank(es) && ReachesFields(es, true) && ReachesFields(es, false))
      && (b != [] ==> Begun(b))
      && forall t: UInt32 :: Apart(FirstTags(es), t) ==> SkipTag(b, t) == None
  {
    match es
    case End =>
    case Cons(e, r) =>
      var more := if e.optional || Hollow(e) then FirstTags(r) else [];
      forall t: UInt32 ensures Apart(FirstTags(es), t) <==> Apart(AllTags(e), t) && Apart(more, t) {
        ApartConcat(AllTags(e), more, t);
      }
      if e.present {
        WrittenEntry(e, EncodeList(r).b);
      } else {
        EncodedStarts(r);
        assert EncodeList(es).b == EncodeList(r).b;
      }
  }

  lemma AlternativesFirst(e: Entry, rest: Entries)
    ensures Blank(Cons(e, rest)) == Cons(BlankEntry(e), Blank(rest)) && BlankEntry(e).kind.Choice? == e.kind.Choice?
    ensures Settles(Cons(e, rest)) == if e.kind.Choice? then Passable(e) else Settles(rest)
  {
  }

  lemma NotThere(e: Entry, buf: bytes)
    requires !e.kind.Choice? && SkipTag(buf, e.tag) == None
    ensures DecodeEntry(BlankEntry(e), buf) == Missing(SC_ERROR_ASN1_OBJECT_NOT_FOUND)
  {
  }

  /** Input under other tags leaves a choice as it was, or is not what a mandatory choice wants. */
  lemma {:induction false} AlternativesMiss(alts: Entries, buf: bytes, i: nat)
    requires Alternatives(alts) && Begun(buf) && forall t :: t in Tags(alts) ==> SkipTag(buf, t) == None
    ensures var d := DecodeAlternatives(Blank(alts), buf, i);
      if Settles(alts) then d.Done? && d.es == Blank(alts) && d.rest == buf else d.Failed?
    decreases alts, 0
  {
    hide SkipTag, DecodeKind, BlankKind, DecodeEntry;
    match alts
    case End =>
    case Cons(e, rest) =>
      assert Tags(alts) == EntryTags(e) + Tags(rest);
      assert forall t :: t in EntryTags(e) || t in Tags(rest) ==> t in Tags(alts);
      AlternativesFirst(e, rest);
      if e.kind.Choice? {
        ChoiceMisses(e, buf);
      } else {
        assert e.tag in EntryTags(e);
        NotThere(e, buf);
        AlternativesMiss(rest, buf, i + 1);
      }
  }

  lemma {:induction false} ChoiceMisses(e: Entry, buf: bytes)
    requires LegalEntry(e) && e.kind.Choice? && Begun(buf) && forall t :: t in EntryTags(e) ==> SkipTag(buf, t) == None
    ensures var s := DecodeEntry(BlankEntry(e), buf);
      if Settles(e.kind.alts) then s == Took(BlankEntry(e), buf) else s.Missing?
    decreases e, 0
  {
    AlternativesMiss(e.kind.alts, buf, 0);
    assert Decode(Blank(e.kind.alts), buf, true) == DecodeAlternatives(Blank(e.kind.alts), buf, 0);
    assert BlankEntry(e).(kind := Choice(Blank(e.kind.alts))) == BlankEntry(e);
  }

  // ----- the round trip -----

  lemma {:induction false} NonePresent(es: Entries)
    requires PresentCount(es) == 0
    ensures Image(es) == Blank(es)
  {
    match es
    case End =>
    case Cons(e, rest) => NonePresent(rest);
  }

  lemma DistinctParts(e: Entry, rest: Entries)
    requires Distinct(Tags(Cons(e, rest)))
    ensures Distinct(EntryTags(e)) && Distinct(Tags(rest))
    ensures forall t, u :: t in EntryTags(e) && u in Tags(rest) ==> !SameTag(t, u) && !SameTag(u, t)
  {
    assert Tags(Cons(e, rest)) == EntryTags(e) + Tags(rest);
    DistinctConcat(EntryTags(e), Tags(rest));
  }

  lemma DistinctConcat(ts: seq<UInt32>, us: seq<UInt32>)
    requires Distinct(ts + us)
    ensures Distinct(ts) && Distinct(us)
    ensures forall t, u :: t in ts && u in us ==> !SameTag(t, u) && !SameTag(u, t)
  {
    var s := ts + us;
    forall i, j | 0 <= i < j < |ts| ensures !SameTag(ts[i], ts[j]) { assert s[i] == ts[i] && s[j] == ts[j]; }
    forall i, j | 0 <= i < j < |us| ensures !SameTag(us[i], us[j]) {
      assert s[|ts| + i] == us[i] && s[|ts| + j] == us[j];
    }
    forall t, u | t in ts && u in us ensures !SameTag(t, u) && !SameTag(u, t) {
      var i :| 0 <= i < |ts| && ts[i] == t;
      var j :| 0 <= j < |us| && us[j] == u;
      assert s[i] == t && s[|ts| + j] == u;
    }
  }

  lemma {:induction false} KindRoundTrip(k: Kind)
    requires !k.Choice? && LegalKind(k) && EncodeContents(k).Bytes? && (k.Struct? ==> ReachesFields(k.fields, false))
    ensures DecodeKind(BlankKind(k), EncodeContents(k).b) == Value(ImageKind(k))
    decreases k, 0
  {
    if k.Struct? {
      RoundTrip(k.fields, false);
    } else {
      PrimitiveRoundTrip(k);
    }
  }

  /** A present entry takes exactly what it has written. */
  lemma {:induction false} EntryTaken(e: Entry, rest: bytes)
    requires LegalEntry(e) && e.present && EncodeEntry(e).Bytes? && !Hollow(e) && Reaches(e)
    ensures DecodeEntry(BlankEntry(e), EncodeEntry(e).b + rest) == Took(ImageEntry(e), rest)
    decreases e, 1
  {
    hide SkipTag, DecodeKind, EncodeContents, Finish, Written;
    if e.kind.Choice? {
      WriterOf(e);
      WrittenEntry(e, rest);
      ChoiceTaken(e.kind.alts, rest, 0);
    } else {
      PresentIsElement(e);
      SkipWritten(e.tag, EncodeContents(e.kind).b, rest, e.tag);
      KindRoundTrip(e.kind);
    }
  }

  lemma {:induction false} ChoiceTaken(alts: Entries, rest: bytes, i: nat)
    requires Alternatives(alts) && Distinct(Tags(alts)) && PresentCount(alts) == 1 && EncodeEntry(Chosen(alts)).Bytes?
    requires !Hollow(Chosen(alts)) && ReachesAlternative(alts)
    ensures var d := DecodeAlternatives(Blank(alts), EncodeEntry(Chosen(alts)).b + rest, i);
      d.Done? && d.es == Image(alts) && d.rest == rest
    decreases alts, 0
  {
    var e := alts.first;
    DistinctParts(e, alts.rest);
    if e.present {
      EntryTaken(e, rest);
      NonePresent(alts.rest);
    } else {
      AlternativePassed(e, alts.rest, rest);
      ChoiceTaken(alts.rest, rest, i + 1);
    }
  }

  /** An absent alternative other than a choice is passed over. */
  lemma AlternativePassed(e: Entry, alts: Entries, rest: bytes)
    requires Alternatives(Cons(e, alts)) && Distinct(Tags(Cons(e, alts))) && !e.present && !e.kind.Choice?
    requires PresentCount(alts) == 1 && EncodeEntry(Chosen(alts)).Bytes? && !Hollow(Chosen(alts))
    ensures DecodeEntry(BlankEntry(e), EncodeEntry(Chosen(alts)).b + rest) == Missing(SC_ERROR_ASN1_OBJECT_NOT_FOUND)
  {
    DistinctParts(e, alts);
    ChosenIsLegal(alts);
    WrittenEntry(Chosen(alts), rest);
    WriterOf(Chosen(alts));
    assert e.tag in EntryTags(e);
    assert Apart(EntryTags(Chosen(alts)), e.tag);
  }

  lemma NothingLeft(e: Entry)
    requires e.kind.Choice?
    ensures var s := DecodeEntry(BlankEntry(e), []); s.Missing? || s == Took(BlankEntry(e), [])
  {
  }

  /** An absent entry takes nothing from what the entries behind it have written. */
  lemma AbsentSkipped(e: Entry, rest: Entries)
    requires LegalEntry(e) && !e.present && e.optional && Legal(rest) && EncodeList(rest).Bytes?
    requires forall t :: t in EntryTags(e) ==> Apart(FirstTags(rest), t)
    ensures var s := DecodeEntry(BlankEntry(e), EncodeList(rest).b);
      s.Missing? || s == Took(BlankEntry(e), EncodeList(rest).b)
  {
    hide SkipTag, DecodeEntry, EncodeList, Blank, BlankEntry, Image;
    var b := EncodeList(rest).b;
    EncodedStarts(rest);
    if e.kind.Choice? {
      if b != [] { ChoiceMisses(e, b); } else { NothingLeft(e); }
    } else {
      assert e.tag in EntryTags(e);
      NotThere(e, b);
    }
  }

  /** Nothing of a hollow choice is left in the image. */
  lemma {:induction false} HollowImage(e: Entry)
    requires LegalEntry(e) && Hollow(e) && EncodeEntry(e).Bytes?
    ensures ImageEntry(e) == BlankEntry(e)
    decreases e, 1
  {
    WriterOf(e);
    if PresentCount(e.kind.alts) > 0 { HollowImages(e.kind.alts); } else { NonePresent(e.kind.alts); }
  }

  lemma {:induction false} HollowImages(alts: Entries)
    requires Alternatives(alts) && PresentCount(alts) == 1 && Hollow(Chosen(alts)) && EncodeEntry(Chosen(alts)).Bytes?
    ensures Image(alts) == Blank(alts)
    decreases alts, 0
  {
    if alts.first.present {
      HollowImage(alts.first);
      NonePresent(alts.rest);
    } else {
      HollowImages(alts.rest);
    }
  }

  /** No entry up to the first mandatory one finds anything in front of the input. */
  lemma {:induction false} PassedOver(es: Entries, buf: bytes)
    requires Legal(es) && EncodeList(es).Bytes? && Begun(buf) && forall t :: t in FirstTags(es) ==> SkipTag(buf, t) == None
    ensures var d := DecodeFields(Blank(es), buf);
      if NothingMore(es) then d == Done(Image(es), buf, 0) else d.Done? ==> d.es != Image(es)
  {
    match es
    case End =>
    case Cons(e, rest) =>
      assert forall t :: t in EntryTags(e) ==> t in AllTags(e) && t in FirstTags(es);
      assert e.optional || Hollow(e) ==> forall t :: t in FirstTags(rest) ==> t in FirstTags(es);
      EntryPassed(e, buf);
      if e.present && !Hollow(e) { ImageShows(e); }
      if e.optional || Hollow(e) { PassedOver(rest, buf); }
  }

  lemma EntryPassed(e: Entry, buf: bytes)
    requires LegalEntry(e) && EncodeEntry(e).Bytes? && Begun(buf) && forall t :: t in EntryTags(e) ==> SkipTag(buf, t) == None
    ensures var s := DecodeEntry(BlankEntry(e), buf);
      s == Took(BlankEntry(e), buf) || (s.Missing? && (Passable(e) ==> e.optional))
    ensures Passable(e) || DecodeEntry(BlankEntry(e), buf).Missing?
    ensures !e.present || Hollow(e) ==> ImageEntry(e) == BlankEntry(e)
  {
    if e.kind.Choice? { ChoiceMisses(e, buf); } else { assert e.tag in EntryTags(e); }
    if Hollow(e) { HollowImage(e); }
  }

  /** From a hollow choice on everything is passed over. */
  lemma HollowStops(es: Entries)
    requires Legal(es) && EncodeList(es).Bytes? && es.Cons? && Hollow(es.first)
    ensures var d := DecodeFields(Blank(es), EncodeList(es).b);
      && EncodeList(es).b != []
      && if NothingMore(es) then d == Done(Image(es), EncodeList(es).b, 0) else d.Done? ==> d.es != Image(es)
  {
    var e, rest := es.first, es.rest;
    var buf := EncodeEntry(e).b + EncodeList(rest).b;
    WrittenEntry(e, EncodeList(rest).b);
    WriterOf(e);
    EntryPassed(e, buf);
    PassedOver(rest, buf);
  }

  lemma {:induction false} FieldsRoundTrip(es: Entries, whole: bool)
    requires Legal(es) && EncodeList(es).Bytes? && ReachesFields(es, whole)
    ensures var d := DecodeFields(Blank(es), EncodeList(es).b);
      d.Done? && d.es == Image(es) && d.index == 0 && (whole ==> d.rest == [])
    decreases es, 2
  {
    match es
    case End =>
    case Cons(e, rest) =>
      if Hollow(e) {
        HollowStops(es);
      } else {
        FieldsRoundTrip(rest, whole);
        if e.present {
          EntryTaken(e, EncodeList(rest).b);
        } else {
          assert EncodeList(es).b == EncodeList(rest).b;
          AbsentSkipped(e, rest);
        }
      }
  }

  /** asn1_decode on the bytes of asn1_encode gives the values back, and consumes every byte unless
      that is not asked for. */
  lemma {:induction false} RoundTrip(es: Entries, whole: bool)
    requires Legal(es) && EncodeList(es).Bytes? && ReachesFields(es, whole)
    ensures var d := Decode(Blank(es), EncodeList(es).b, false);
      d.Done? && d.es == Image(es) && d.index == 0 && (whole ==> d.rest == [])
    decreases es, 3
  {
    EncodedStarts(es);
    if EncodeList(es).b != [] {
      FieldsRoundTrip(es, whole);
    }
  }

  // ----- when an alternative is out of reach, the value is lost -----

  /** A choice that is written has a flag set somewhere below it. */
  lemma {:induction false} ImageShows(e: Entry)
    requires LegalEntry(e) && e.present && EncodeEntry(e).Bytes? && !Hollow(e)
    ensures ImageEntry(e) != BlankEntry(e)
    decreases e, 1
  {
    if e.kind.Choice? {
      WriterOf(e);
      ChosenIsLegal(e.kind.alts);
      ImageShowsChosen(e.kind.alts);
    }
  }

  lemma {:induction false} ImageShowsChosen(alts: Entries)
    requires Alternatives(alts) && PresentCount(alts) > 0 && EncodeEntry(Chosen(alts)).Bytes? && !Hollow(Chosen(alts))
    ensures Image(alts) != Blank(alts)
    decreases alts, 0
  {
    if alts.first.present { ImageShows(alts.first); } else { ImageShowsChosen(alts.rest); }
  }

  lemma {:induction false} EntryLost(e: Entry, rest: bytes)
    requires LegalEntry(e) && e.present && EncodeEntry(e).Bytes? && !Hollow(e) && !Reaches(e)
    ensures var s := DecodeEntry(BlankEntry(e), EncodeEntry(e).b + rest); s.Took? ==> s.e != ImageEntry(e)
    decreases e, 1
  {
    if e.kind.Choice? {
      WriterOf(e);
      WrittenEntry(e, rest);
      ChoiceLost(e.kind.alts, rest, 0);
    } else {
      PresentIsElement(e);
      SkipWritten(e.tag, EncodeContents(e.kind).b, rest, e.tag);
      ValueLost(e.kind.fields, false);
    }
  }

  lemma {:induction false} ChoiceLost(alts: Entries, rest: bytes, i: nat)
    requires Alternatives(alts) && Distinct(Tags(alts)) && PresentCount(alts) == 1 && EncodeEntry(Chosen(alts)).Bytes?
    requires !Hollow(Chosen(alts)) && !ReachesAlternative(alts)
    ensures var d := DecodeAlternatives(Blank(alts), EncodeEntry(Chosen(alts)).b + rest, i); d.Done? ==> d.es != Image(alts)
    decreases alts, 0
  {
    var e := alts.first;
    DistinctParts(e, alts.rest);
    ImageShowsChosen(alts);
    if e.present {
      EntryLost(e, rest);
    } else if e.kind.Choice? {
      ChosenIsLegal(alts.rest);
      WrittenEntry(Chosen(alts.rest), rest);
      WriterOf(Chosen(alts.rest));
      var buf := EncodeEntry(Chosen(alts)).b + rest;
      ChoiceMisses(e, buf);
      assert BlankEntry(e).kind.Choice?;
    } else {
      AlternativePassed(e, alts.rest, rest);
      ChoiceLost(alts.rest, rest, i + 1);
    }
  }

  lemma {:induction false} FieldsLost(es: Entries, whole: bool)
    requires Legal(es) && EncodeList(es).Bytes? && !ReachesFields(es, whole)
    ensures var d := DecodeFields(Blank(es), EncodeList(es).b); d.Done? && d.es == Image(es) ==> whole && d.rest != []
    decreases es, 2
  {
    var e, rest := es.first, es.rest;
    var b := EncodeList(rest).b;
    if Hollow(e) {
      HollowStops(es);
    } else if !e.present {
      assert EncodeList(es).b == b;
      AbsentSkipped(e, rest);
      FieldsLost(rest, whole);
    } else if Reaches(e) {
      EntryTaken(e, b);
      FieldsLost(rest, whole);
    } else {
      EntryLost(e, b);
      ImageShows(e);
    }
  }

  lemma {:induction false} ValueLost(es: Entries, whole: bool)
    requires Legal(es) && EncodeList(es).Bytes? && !ReachesFields(es, whole)
    ensures var d := Decode(Blank(es), EncodeList(es).b, false); d.Done? && d.es == Image(es) ==> whole && d.rest != []
    decreases es, 3
  {
    EncodedStarts(es);
    FieldsLost(es, whole);
  }

  /** The exact condition: a legal table that can be encoded comes back, and every byte is used, if
      and only if the decoder reaches every alternative that is present and no choice is hollow,
      except where a structure ends with one. */
  lemma {:induction false} RoundTripExactly(es: Entries)
    requires Legal(es) && EncodeList(es).Bytes?
    ensures Decode(Blank(es), EncodeList(es).b, false) == Done(Image(es), [], 0) <==> ReachesFields(es, true)
  {
    if ReachesFields(es, true) { RoundTrip(es, true); } else { ValueLost(es, true); }
  }

  // ----- the whole call: an encoding of no octets is the null pointer -----

  /** sc_asn1_encode hands out no buffer when nothing is written. */
  function Handed(b: bytes): Option<bytes> {
    if b == [] then None else Some(b)
  }

  /** sc_asn1_decode */
  function DecodeHanded(es: Entries, p: Option<bytes>): Decoded {
    if p.None? then Failed(SC_ERROR_ASN1_OBJECT_NOT_FOUND) else Decode(es, p.value, false)
  }

  lemma {:induction false} EmptyWhenNonePresent(es: Entries)
    requires Legal(es) && EncodeList(es).Bytes?
    ensures EncodeList(es).b == [] <==> PresentCount(es) == 0
  {
    if es.Cons? {
      if es.first.present { WrittenEntry(es.first, EncodeList(es.rest).b); } else { EmptyWhenNonePresent(es.rest); }
    }
  }

  /** sc_asn1_decode gives back what sc_asn1_encode was given if and only if at least one entry is
      present and every alternative that is present can be reached. */
  lemma {:induction false} WholeCall(es: Entries)
    requires Legal(es) && EncodeList(es).Bytes?
    ensures DecodeHanded(Blank(es), Handed(EncodeList(es).b)) == Done(Image(es), [], 0)
      <==> PresentCount(es) > 0 && ReachesFields(es, true)
  {
    EmptyWhenNonePresent(es);
    RoundTripExactly(es);
  }

  // ----- when the image is the table itself -----

  /** The table without the choices' own flags. */
  function Unflagged(es: Entries): Entries {
    match es
    case End => End
    case Cons(e, rest) => Cons(UnflaggedEntry(e), Unflagged(rest))
  }

  function UnflaggedEntry(e: Entry): Entry {
    match e.kind
    case Struct(fields) => e.(kind := Struct(Unflagged(fields)))
    case Choice(alts) => e.(kind := Choice(Unflagged(alts)), present := false)
    case _ => e
  }

  /** Absent entries hold no value, bit strings no bits past their length, unsigned numbers no leading
      zero, and unsigned text, which is padded but not stripped, does not begin with a high octet. */
  predicate Plain(es: Entries) {
    match es
    case End => true
    case Cons(e, rest) => PlainEntry(e) && Plain(rest)
  }

  predicate PlainEntry(e: Entry) {
    if !e.present then Untouched(e.kind)
    else match e.kind
      case Struct(fields) => Plain(fields)
      case Choice(alts) => Plain(alts)
      case BitString(bits) =>
        |bits.data| == DerBits.OctetsFor(bits.n) && forall k :: bits.n <= k < 8 * |bits.data| ==> !DerBits.MemBit(bits.data, k)
      case OctetString(unsigned, o) => !(unsigned && |o| > 1 && o[0] == 0)
      case Text(unsigned, o) => !(unsigned && o != [] && o[0] >= 0x80)
      case _ => true
  }

  predicate Untouched(k: Kind) {
    match k
    case Struct(fields) => UntouchedList(fields)
    case Choice(alts) => UntouchedList(alts)
    case Null => true
    case Boolean(b) => !b
    case Integer(i) => i == 0
    case BitString(bits) => bits == RawBits([], 0)
    case BitField(v) => v == 0
    case OctetString(_, o) => o == []
    case Text(_, o) => o == []
    case ObjectId(arcs) => arcs == []
    case NoParm => true
  }

  /** Nothing set below; the flag of a choice does not count. */
  predicate UntouchedList(es: Entries) {
    match es
    case End => true
    case Cons(e, rest) => Untouched(e.kind) && (e.present ==> e.kind.Choice?) && UntouchedList(rest)
  }

  /** The caller's values and flags come back, save the flags of choices, if and only if the table
      is plain. */
  lemma {:induction false} ImageIsSame(es: Entries)
    ensures Image(es) == Unflagged(es) <==> Plain(es)
  {
    if es.Cons? {
      ImageEntryIsSame(es.first);
      ImageIsSame(es.rest);
    }
  }

  lemma {:induction false} ImageEntryIsSame(e: Entry)
    ensures ImageEntry(e) == UnflaggedEntry(e) <==> PlainEntry(e)
  {
    if !e.present {
      BlankIsSame(e.kind);
    } else {
      match e.kind
      case Struct(fields) => ImageIsSame(fields);
      case Choice(alts) => ImageIsSame(alts);
      case BitString(bits) => CleanIsSame(bits);
      case _ =>
    }
  }

  function UnflaggedKind(k: Kind): Kind {
    match k
    case Struct(fields) => Struct(Unflagged(fields))
    case Choice(alts) => Choice(Unflagged(alts))
    case _ => k
  }

  lemma {:induction false} BlankIsSame(k: Kind)
    ensures BlankKind(k) == UnflaggedKind(k) <==> Untouched(k)
  {
    match k
    case Struct(fields) => BlankListIsSame(fields);
    case Choice(alts) => BlankListIsSame(alts);
    case _ =>
  }

  lemma {:induction false} BlankListIsSame(es: Entries)
    ensures Blank(es) == Unflagged(es) <==> UntouchedList(es)
  {
    if es.Cons? {
      BlankIsSame(es.first.kind);
      BlankListIsSame(es.rest);
      assert UnflaggedEntry(es.first).kind == UnflaggedKind(es.first.kind);
    }
  }

  lemma CleanIsSame(b: MemBits)
    ensures CleanBits(b) == b
      <==> |b.data| == DerBits.OctetsFor(b.n) && forall k :: b.n <= k < 8 * |b.data| ==> !DerBits.MemBit(b.data, k)
  {
    var c := CleanBits(b).data;
    forall k | 0 <= k < 8 * |c| ensures DerBits.MemBit(c, k) == (k < b.n && DerBits.MemBit(b.data, k)) {
      CleanBit(b, k);
    }
    if |b.data| == |c| && forall k :: b.n <= k < 8 * |b.data| ==> !DerBits.MemBit(b.data, k) {
      forall j | 0 <= j < |c| ensures c[j] == b.data[j] { CleanOctet(b, b.data, j); }
      assert c == b.data;
    }
  }

  lemma CleanBit(b: MemBits, k: nat)
    requires k < 8 * |CleanBits(b).data|
    ensures DerBits.MemBit(CleanBits(b).data, k) == (k < b.n && DerBits.MemBit(b.data, k))
  {
    hide DerBits.OctetBits, DerBits.BitsOctet;
    var j, q := k / 8, k % 8;
    var s := seq(8, q requires 0 <= q < 8 => 8 * j + q < b.n && DerBits.OctetBits(b.data[j])[q]);
    DerBits.OctetBitsOfOctet(s);
    DerBits.MemBitAt(CleanBits(b).data, j, q);
    DerBits.MemBitAt(b.data, j, q);
    assert CleanBits(b).data[j] == DerBits.BitsOctet(s);
  }

  // ----- two tables that do not come back -----

  /** CHOICE { CHOICE { NULL }, BOOLEAN } with the BOOLEAN present. */
  function Hiding(): Entries {
    var inner := Cons(Entry(Null, 5, false, false, false), End);
    var alts := Cons(Entry(Choice(inner), 0, false, false, false), Cons(Entry(Boolean(true), 1, false, false, true), End));
    Cons(Entry(Choice(alts), 0, false, false, true), End)
  }

  /** A choice as first alternative hides the alternative behind it, in a legal table. */
  lemma NestedChoiceHides()
    ensures var es := Hiding();
      && Legal(es) && EncodeList(es).Bytes?
      && DecodeHanded(Blank(es), Handed(EncodeList(es).b)) != Done(Image(es), [], 0)
  {
    hide SkipTag, Decode, DecodeFields;
    var es := Hiding();
    var value := es.first.kind.alts.rest.first;
    assert ShortTag(1) == [1] by { assert TagOctets(1) == [1]; }
    assert EncodeEntry(value) == Written(1, [0xFF]);
    assert EncodeEntry(es.first) == EncodeEntry(value);
    assert Tags(es) == [5, 1] by {
      assert Tags(es.first.kind.alts) == [5, 1];
    }
    assert !ReachesFields(es, true);
    WholeCall(es);
  }

  /** CHOICE { BOOLEAN } without the BOOLEAN, but with leave to be empty. */
  function Empty(): Entries {
    var alts := Cons(Entry(Boolean(false), 1, false, false, false), End);
    Cons(Entry(Choice(alts), 4, true, true, true), End)
  }

  lemma ShortTags()
    ensures LegalEngineTag(1) && LegalEngineTag(4) && Written(4, []) == Bytes([4, 0])
  {
    SmallTag(1);
    SmallTag(4);
  }

  lemma SmallTag(tag: UInt32)
    requires 0 < tag < 31
    ensures LegalEngineTag(tag) && ShortTag(tag) == [tag] && WireTag(tag) == [tag] && Written(tag, []) == Bytes([tag, 0])
  {
    assert tag % TAG_MASK_UNIT == tag && tag / CLASS_CONS_UNIT == 0 && tag / 256 == 0;
    assert TagOctets(tag) == [tag] by { assert ToBe(0, 0) == [] && Width(0) == 0 && Width(tag) == 1; }
  }

  lemma EmptyIsLegal()
    ensures Legal(Empty()) && EncodeList(Empty()) == Bytes([4, 0])
    ensures ReachesFields(Empty(), false) && !ReachesFields(Empty(), true)
  {
    hide LegalEngineTag, Written;
    var e := Empty().first;
    ShortTags();
    assert Tags(e.kind.alts) == [1] by { assert Tags(End) == []; }
    assert EncodeEntry(e) == Written(4, []);
  }

  /** A hollow choice does not come back, in a legal table. */
  lemma HollowChoiceLost()
    ensures var es := Empty();
      && Legal(es) && EncodeList(es).Bytes?
      && DecodeHanded(Blank(es), Handed(EncodeList(es).b)) != Done(Image(es), [], 0)
  {
    hide *;
    EmptyIsLegal();
    WholeCall(Empty());
  }

  /** SEQUENCE { CHOICE { BOOLEAN } } without the BOOLEAN. */
  function Nested(): Entries {
    Cons(Entry(Struct(Empty()), CLASS_CONS_UNIT + 16, false, false, true), End)
  }

  lemma SequenceTag()
    ensures LegalEngineTag(CLASS_CONS_UNIT + 16)
  {
    assert TagOctets(16) == [16];
  }

  lemma NestedIsLegal()
    ensures Legal(Nested()) && EncodeList(Nested()).Bytes? && PresentCount(Nested()) > 0 && ReachesFields(Nested(), true)
  {
    hide Empty, SkipTag, LegalEngineTag, WriteElement;
    EmptyIsLegal();
    SequenceTag();
    var e := Nested().first;
    SkipWritten(e.tag, [4, 0], [], e.tag);
    assert EncodeEntry(e) == Written(e.tag, [4, 0]);
  }

  /** At the end of a structure nobody misses it. */
  lemma HollowChoiceAtEnd()
    ensures var es := Nested();
      && Legal(es) && EncodeList(es).Bytes?
      && DecodeHanded(Blank(es), Handed(EncodeList(es).b)) == Done(Image(es), [], 0)
  {
    hide *;
    NestedIsLegal();
    WholeCall(Nested());
  }
}
