/** Writing again what was read: when the table-driven encoder of `OpenSC/src/libopensc/asn1.c` makes
    the same octets of the table its decoder has left. */
module Asn1Rewrite {
  import opened Octets
  import opened DerTag
  import opened DerWrite
  import opened DerSearch
  import opened Asn1Engine
  import opened Asn1RoundTrip
  import DerBits

  // ----- choices -----

  /** The encoder has an empty element to write for the entry: bit 6 of the first identifier octet says
      that it is constructed (section 8.1.2.5 of ITU-T X.690). */
  predicate MayBeEmpty(e: Entry) {
    e.emptyAllowed || e.kind.Null? || WireTag(e.tag)[0] / 32 % 2 == 1
  }

  lemma ConstructedBit(tag: UInt32)
    ensures Constructed(tag) <==> WireTag(tag)[0] / 32 % 2 == 1
  {
    hide ShortTag;
    var q, s := tag / CLASS_CONS_UNIT, ShortTag(tag)[0] % 32;
    DivUnique(q * 32 + s, 32, q, s);
  }

  /** What the encoder does with empty contents of an entry that is present: OPTIONAL makes no
      difference. */
  lemma EmptyElement(e: Entry)
    requires e.present && if e.kind.Choice? then PresentCount(e.kind.alts) == 0 else EncodeContents(e.kind) == Bytes([])
    ensures EncodeEntry(e) == if MayBeEmpty(e) then Written(e.tag, []) else Refused(SC_ERROR_INVALID_ASN1_OBJECT)
  {
    hide WireTag;
    ConstructedBit(e.tag);
  }

  /** An absent entry is left out when it is optional; a mandatory one is refused, or an empty element
      is written in its place. */
  lemma AbsentElement(e: Entry)
    requires !e.present
    ensures EncodeEntry(e)
      == if e.optional then Bytes([]) else if MayBeEmpty(e) then Written(e.tag, []) else Refused(SC_ERROR_INVALID_ASN1_OBJECT)
  {
    hide WireTag;
    ConstructedBit(e.tag);
  }

  predicate WritesNothing(e: Entry) {
    e.kind.Choice? || EncodeContents(e.kind) == Bytes([])
  }

  /** A choice that is present is written again unchanged. */
  predicate ChoiceStable(e: Entry)
    requires e.present
  {
    !e.optional && MayBeEmpty(e) && WireTag(Writer(e).tag) == WireTag(e.tag) && WritesNothing(Writer(e))
  }

  /** A choice that was read has lost its own flag, and with it whatever its alternative was: written
      again it vanishes, or becomes an empty element under its own tag, or is refused. These are the
      octets it was read from if and only if that empty element is what had been written. */
  lemma {:induction false} ChoiceFlagLost(e: Entry)
    requires LegalEntry(e) && e.kind.Choice? && e.present && EncodeEntry(e).Bytes?
    ensures EncodeEntry(e).b != []
    ensures EncodeEntry(ImageEntry(e))
      == if e.optional then Bytes([]) else if MayBeEmpty(e) then Written(e.tag, []) else Refused(SC_ERROR_INVALID_ASN1_OBJECT)
    ensures EncodeEntry(ImageEntry(e)) == EncodeEntry(e) <==> ChoiceStable(e)
  {
    WrittenEntry(e, []);
    WriterOf(e);
    var c := WrittenElement(e);
    AbsentElement(ImageEntry(e));
    if !e.optional && MayBeEmpty(e) { EmptyInstead(Writer(e).tag, c, e.tag); }
  }

  lemma WireTagShape(tag: UInt32)
    ensures WellFormedLong(ShortTag(tag)) <==> WellFormedLong(WireTag(tag))
  {
    hide TagOctets, ShortTag;
    var t, u := ShortTag(tag), WireTag(tag);
    assert u[0] % 32 == t[0] % 32;
    assert forall i :: 0 < i < |t| ==> u[i] == t[i];
  }

  lemma NoLonger(t: bytes, u: bytes, rest: bytes)
    requires LegalTag(t) && WellFormedLong(u) && u <= t + rest
    ensures |u| <= |t|
  {
    assert forall i :: 0 <= i < |t| && i < |u| ==> u[i] == (t + rest)[i] == t[i];
  }

  lemma EmptyIs(u: bytes)
    ensures Element(u, []) == u + [0]
  {
  }

  lemma ElementIs(t: bytes, c: bytes)
    ensures Element(t, c) == t + (LenOctets(|c|) + c) && |LenOctets(|c|)| >= 1
  {
    hide ToBe, Width;
  }

  lemma SameEmpty(t: bytes, c: bytes, u: bytes)
    requires LegalTag(t) && WellFormedLong(u) && Element(u, []) == Element(t, c)
    ensures t == u && c == []
  {
    hide ToBe, Width, Element, LenOctets;
    EmptyIs(u);
    ElementIs(t, c);
    var rest := LenOctets(|c|) + c;
    assert u + [0] == t + rest && u <= u + [0];
    NoLonger(t, u, rest);
    assert |rest| >= 1;
    assert (u + [0])[..|u|] == (t + rest)[..|t|];
  }

  /** Only the empty element under the same identifier octets is equal to one under another tag. */
  lemma EmptyInstead(tag: UInt32, c: bytes, tag': UInt32)
    requires LegalEngineTag(tag) && |c| < TWO_32
    ensures Written(tag', []) == Bytes(Element(WireTag(tag), c)) <==> WireTag(tag) == WireTag(tag') && c == []
  {
    hide Element, WireTag, WellFormedLong, ShortTag;
    WireTagShape(tag');
    WireTagShape(tag);
    WrittenIdParts(tag);
    if WellFormedLong(WireTag(tag')) && Element(WireTag(tag'), []) == Element(WireTag(tag), c) {
      SameEmpty(WireTag(tag), c, WireTag(tag'));
    }
  }

  // ----- tables -----

  /** What is written again unchanged: no optional choice, no choice with contents; an UNSIGNED octet
      string does not lose a zero that the encoder would not have put there. */
  predicate Stable(es: Entries) {
    match es
    case End => true
    case Cons(e, rest) => StableEntry(e) && Stable(rest)
  }

  predicate StableEntry(e: Entry) {
    e.present ==>
      match e.kind
      case Choice(_) => ChoiceStable(e)
      case Struct(fields) => Stable(fields)
      case OctetString(unsigned, o) => !(unsigned && |o| > 1 && o[0] == 0 && o[1] < 0x80)
      case _ => true
  }

  /** The tags of choices under which an empty element would be written. */
  predicate OwnTagsLegal(es: Entries) {
    match es
    case End => true
    case Cons(e, rest) => OwnTagLegal(e) && OwnTagsLegal(rest)
  }

  predicate OwnTagLegal(e: Entry) {
    e.present ==>
      && (e.kind.Choice? && !e.optional && MayBeEmpty(e) ==> LegalEngineTag(e.tag))
      && (e.kind.Struct? ==> OwnTagsLegal(e.kind.fields))
  }

  // ----- single values -----

  lemma BitsAgain(b: MemBits)
    ensures EncodeContents(BitString(CleanBits(b))) == EncodeContents(BitString(b))
  {
    forall j | 0 <= j < DerBits.OctetsFor(b.n)
      ensures DerBits.Flipped(DerBits.OctetBits(CleanBits(b).data[j]), DerBits.BitsIn(b.n, j))
        == DerBits.Flipped(DerBits.OctetBits(b.data[j]), DerBits.BitsIn(b.n, j))
    {
      FlippedAgain(b, j);
    }
  }

  lemma FlippedAgain(b: MemBits, j: nat)
    requires j < DerBits.OctetsFor(b.n)
    ensures DerBits.Flipped(DerBits.OctetBits(CleanBits(b).data[j]), DerBits.BitsIn(b.n, j))
      == DerBits.Flipped(DerBits.OctetBits(b.data[j]), DerBits.BitsIn(b.n, j))
  {
    hide DerBits.OctetBits, DerBits.BitsOctet;
    var s := seq(8, q requires 0 <= q < 8 => 8 * j + q < b.n && DerBits.OctetBits(b.data[j])[q]);
    DerBits.OctetBitsOfOctet(s);
    assert CleanBits(b).data[j] == DerBits.BitsOctet(s);
  }

  lemma UnsignedAgain(o: bytes)
    ensures Padded(true, WithoutPad(o)) == Padded(true, o) <==> !(|o| > 1 && o[0] == 0 && o[1] < 0x80)
  {
    if |o| > 1 && o[0] == 0 { assert [0] + o[1..] == o; }
  }

  lemma ValueAgain(e: Entry)
    requires e.present && !e.kind.Choice? && !e.kind.Struct?
    ensures EncodeContents(ImageKind(e.kind)) == EncodeContents(e.kind) <==> StableEntry(e)
  {
    hide DerBits.EncodeBits, CleanBits, WithoutPad, Padded;
    match e.kind
    case BitString(bits) => BitsAgain(bits);
    case OctetString(unsigned, o) => if unsigned { UnsignedAgain(o); }
    case Text(unsigned, o) => if unsigned { PaddedTwice(o); }
    case _ =>
  }

  lemma PaddedTwice(o: bytes)
    ensures Padded(true, Padded(true, o)) == Padded(true, o)
  {
  }

  // ----- elements one after the other -----

  /** How many elements the octets are. */
  function Elements(b: bytes): nat {
    match ReadHeader(b)
    case Tag(_, _, size, len) => if 0 < size <= size + len <= |b| then 1 + Elements(b[size + len..]) else 0
    case _ => 0
  }

  lemma OneElement(t: bytes, c: bytes, rest: bytes)
    requires LegalTag(t) && |c| < TWO_32
    ensures Elements(Element(t, c) + rest) == 1 + Elements(rest)
  {
    hide ReadHeader, LenOctets;
    HeaderReadBack(t, c, rest);
    var b, n := Element(t, c) + rest, |t| + |LenOctets(|c|)|;
    assert b[n + |c|..] == rest;
  }

  lemma SameFront(t: bytes, c: bytes, rest: bytes, t': bytes, c': bytes, rest': bytes)
    requires LegalTag(t) && LegalTag(t') && |c| < TWO_32 && |c'| < TWO_32
    requires Element(t, c) + rest == Element(t', c') + rest'
    ensures t == t' && c == c' && rest == rest'
  {
    hide ReadHeader, LegalTag, LenOctets;
    HeaderReadBack(t, c, rest);
    HeaderReadBack(t', c', rest');
    var l := LenOctets(|c|);
    assert |t| == |t'|;
    Cut(t, l, c, rest);
    Cut(t', l, c', rest');
  }

  lemma Cut(t: bytes, l: bytes, c: bytes, rest: bytes)
    ensures var b, n := t + l + c + rest, |t| + |l|;
      b[..|t|] == t && b[n..n + |c|] == c && b[n + |c|..] == rest
  {
  }

  // ----- what is written again -----

  /** An entry that was present becomes one element again, or an optional choice vanishes. */
  lemma ImageElement(e: Entry) returns (c: bytes)
    requires LegalEntry(e) && e.present && OwnTagLegal(e) && EncodeEntry(ImageEntry(e)).Bytes?
    ensures EncodeEntry(ImageEntry(e)).b == []
      || (LegalTag(WireTag(e.tag)) && EncodeEntry(ImageEntry(e)).b == Element(WireTag(e.tag), c))
    ensures EncodeEntry(ImageEntry(e)).b == [] ==> e.kind.Choice? && e.optional
    ensures !e.kind.Choice? ==> EncodeContents(ImageKind(e.kind)) == Bytes(c)
  {
    hide Element, WireTag, ShortTag, LegalTag, WellFormedLong;
    if e.kind.Choice? {
      c := [];
      AbsentElement(ImageEntry(e));
    } else {
      c := EncodeContents(ImageKind(e.kind)).b;
    }
    if !e.kind.Choice? || !e.optional { LegalIsWritten(e.tag, c); }
  }

  lemma LegalIsWritten(tag: UInt32, c: bytes)
    requires LegalEngineTag(tag)
    ensures WellFormedLong(ShortTag(tag)) && LegalTag(WireTag(tag)) && Element(WireTag(tag), c) != []
  {
    WrittenIdParts(tag);
  }

  lemma {:induction false} WrittenElements(es: Entries)
    requires Legal(es) && EncodeList(es).Bytes?
    ensures Elements(EncodeList(es).b) == PresentCount(es)
  {
    if es.Cons? {
      WrittenElements(es.rest);
      if es.first.present {
        var c := WrittenElement(es.first);
        OneElement(WireTag(Writer(es.first).tag), c, EncodeList(es.rest).b);
      } else {
        assert EncodeList(es).b == EncodeList(es.rest).b;
      }
    }
  }

  lemma {:induction false} ElementsAgain(es: Entries)
    requires Legal(es) && OwnTagsLegal(es) && EncodeList(Image(es)).Bytes? && |EncodeList(Image(es)).b| < TWO_32
    ensures Elements(EncodeList(Image(es)).b) <= PresentCount(es)
  {
    if es.Cons? {
      var e, b, rest := es.first, EncodeEntry(ImageEntry(es.first)).b, EncodeList(Image(es.rest)).b;
      assert EncodeList(Image(es)).b == b + rest;
      ElementsAgain(es.rest);
      if e.present {
        var c := ImageElement(e);
        if b != [] { OneElement(WireTag(e.tag), c, rest); } else { assert b + rest == rest; }
      } else {
        AbsentElement(e);
        AbsentElement(ImageEntry(e));
        assert b + rest == rest;
      }
    }
  }

  lemma {:induction false} EntryAgain(e: Entry)
    requires LegalEntry(e) && e.present && OwnTagLegal(e) && EncodeEntry(e).Bytes? && |EncodeEntry(e).b| < TWO_32
    ensures EncodeEntry(ImageEntry(e)) == EncodeEntry(e) <==> StableEntry(e)
    decreases e, 1
  {
    if e.kind.Choice? {
      ChoiceFlagLost(e);
    } else {
      if e.kind.Struct? { TableAgain(e.kind.fields); } else { ValueAgain(e); }
      ContentsAgain(e);
    }
  }

  /** Elements under the same tag differ when their contents do. */
  lemma ContentsAgain(e: Entry)
    requires LegalEntry(e) && e.present && OwnTagLegal(e) && EncodeEntry(e).Bytes? && |EncodeEntry(e).b| < TWO_32
    requires !e.kind.Choice?
    ensures EncodeEntry(ImageEntry(e)) == EncodeEntry(e) <==> EncodeContents(ImageKind(e.kind)) == EncodeContents(e.kind)
  {
    PresentIsElement(e);
    if EncodeEntry(ImageEntry(e)) == EncodeEntry(e) {
      var c := ImageElement(e);
      LegalIsWritten(e.tag, c);
      SameFront(WireTag(e.tag), EncodeContents(e.kind).b, [], WireTag(e.tag), c, []);
    }
  }

  /** When the first element is not written as it was, nothing behind it makes up for that. */
  lemma FirstDiffers(e: Entry, rest: Entries)
    requires LegalEntry(e) && e.present && OwnTagLegal(e) && Legal(rest) && OwnTagsLegal(rest)
    requires EncodeList(Cons(e, rest)).Bytes? && |EncodeList(Cons(e, rest)).b| < TWO_32
    requires EncodeEntry(ImageEntry(e)) != EncodeEntry(e) && EncodeList(Image(rest)).Bytes? && EncodeEntry(ImageEntry(e)).Bytes?
    ensures EncodeEntry(ImageEntry(e)).b + EncodeList(Image(rest)).b != EncodeList(Cons(e, rest)).b
  {
    var b, more, all := EncodeEntry(ImageEntry(e)).b, EncodeList(Image(rest)).b, EncodeList(Cons(e, rest)).b;
    if b + more == all {
      var c := WrittenElement(e);
      var c' := ImageElement(e);
      LegalIsWritten(Writer(e).tag, c);
      if b == [] {
        assert b + more == more;
        WrittenElements(rest);
        OneElement(WireTag(Writer(e).tag), c, EncodeList(rest).b);
        ElementsAgain(rest);
      } else {
        SameFront(WireTag(Writer(e).tag), c, EncodeList(rest).b, WireTag(e.tag), c', more);
      }
    }
  }

  lemma SameRest(a: bytes, x: bytes, y: bytes)
    requires a + x == a + y
    ensures x == y
  {
    assert (a + x)[|a|..] == x && (a + y)[|a|..] == y;
  }

  lemma {:induction false} TableAgain(es: Entries)
    requires Legal(es) && OwnTagsLegal(es) && EncodeList(es).Bytes? && |EncodeList(es).b| < TWO_32
    ensures EncodeList(Image(es)) == EncodeList(es) <==> Stable(es)
    decreases es, 2
  {
    if es.Cons? {
      var e, rest := es.first, es.rest;
      TableAgain(rest);
      if !e.present {
        AbsentElement(e);
        AbsentElement(ImageEntry(e));
        assert EncodeList(es) == EncodeList(rest) && EncodeList(Image(es)) == EncodeList(Image(rest));
      } else {
        EntryAgain(e);
        if !StableEntry(e) {
          if EncodeList(Image(rest)).Bytes? && EncodeEntry(ImageEntry(e)).Bytes? { FirstDiffers(e, rest); }
        } else if EncodeList(Image(es)) == EncodeList(es) {
          SameRest(EncodeEntry(e).b, EncodeList(Image(rest)).b, EncodeList(rest).b);
        }
      }
    }
  }

  /** Reading and writing again gives the same octets, for a legal table that is read back, if and
      only if the table is stable. */
  lemma {:induction false} WrittenAgain(es: Entries)
    requires Legal(es) && OwnTagsLegal(es) && EncodeList(es).Bytes? && |EncodeList(es).b| < TWO_32
    requires ReachesFields(es, true)
    ensures var d := Decode(Blank(es), EncodeList(es).b, false);
      d.Done? && (EncodeList(d.es) == EncodeList(es) <==> Stable(es))
  {
    RoundTripExactly(es);
    TableAgain(es);
  }

  /** SEQUENCE {} */
  function Sequence0(): Entry {
    Entry(Struct(End), CLASS_CONS_UNIT + 16, false, false, true)
  }

  /** CHOICE { SEQUENCE {} }, mandatory, with the tag of a SEQUENCE of its own. */
  function EmptySequence(): Entries {
    Cons(Entry(Choice(Cons(Sequence0(), End)), CLASS_CONS_UNIT + 16, false, false, true), End)
  }

  lemma Sequence0IsLegal()
    ensures LegalEntry(Sequence0()) && Reaches(Sequence0())
    ensures EncodeEntry(Sequence0()) == Bytes(Element(WireTag(CLASS_CONS_UNIT + 16), []))
  {
    SequenceTag();
    SkipWritten(CLASS_CONS_UNIT + 16, [], [], CLASS_CONS_UNIT + 16);
    hide LegalEngineTag, WriteElement, WireTag, Element, SkipTag;
    assert EncodeList(End) == Bytes([]) && Legal(End) && ReachesFields(End, false);
    assert EncodeContents(Struct(End)) == Bytes([]);
  }

  lemma OnlyAlternative(s: Entry, e: Entry)
    requires s.present && !s.kind.Choice? && LegalEntry(s) && EncodeEntry(s).Bytes?
    requires e.present && !e.optional && e.kind == Choice(Cons(s, End))
    ensures LegalEntry(e) && EncodeEntry(e) == EncodeEntry(s) && Writer(e) == s
    ensures Reaches(s) ==> Reaches(e)
  {
    hide LegalEngineTag, LegalKind, EncodeContents, Finish;
    var alts := Cons(s, End);
    assert Tags(alts) == [s.tag] by { assert Tags(End) == []; }
    assert Alternatives(End) && Alternatives(alts) && PresentCount(alts) == 1 && Chosen(alts) == s;
    assert Writer(s) == s && Writer(e) == s && !Hollow(e);
    assert Distinct(Tags(alts));
  }

  lemma OnlyEntry(e: Entry)
    requires e.present && !e.optional && LegalEntry(e) && EncodeEntry(e).Bytes? && !Hollow(e)
    ensures var es := Cons(e, End);
      && Legal(es) && EncodeList(es) == EncodeEntry(e)
      && (EncodeEntry(ImageEntry(e)).Bytes? ==> EncodeList(Image(es)) == EncodeEntry(ImageEntry(e)))
      && (Reaches(e) ==> ReachesFields(es, true)) && (OwnTagLegal(e) ==> OwnTagsLegal(es))
  {
    hide LegalEntry, EncodeEntry, ImageEntry, Reaches, Hollow, OwnTagLegal, EntryTags;
    assert EncodeList(End) == Bytes([]) && Image(End) == End && Legal(End);
    assert forall b: bytes :: b + [] == b;
  }

  /** A choice that is written again unchanged, in a legal table that is read back. */
  lemma EmptySequenceKept()
    ensures var es := EmptySequence();
      && Legal(es) && OwnTagsLegal(es) && EncodeList(es).Bytes? && ReachesFields(es, true)
      && EncodeList(Image(es)) == EncodeList(es)
  {
    hide SkipTag, LegalEngineTag, WriteElement, WireTag, Element, LegalEntry, EncodeEntry, ImageEntry, Reaches, Legal, EncodeList,
      ReachesFields, Tags;
    SequenceTag();
    Sequence0IsLegal();
    ConstructedBit(CLASS_CONS_UNIT + 16);
    var e := EmptySequence().first;
    OnlyAlternative(Sequence0(), e);
    assert EncodeContents(Struct(End)) == Bytes([]) by { NothingEncoded(); }
    ChoiceFlagLost(e);
    OnlyEntry(e);
  }

  lemma NothingEncoded()
    ensures EncodeContents(Struct(End)) == Bytes([])
  {
  }
}
