/** sc_asn1_find_tag and sc_asn1_skip_tag of `OpenSC/src/libopensc/asn1.c`. */
module DerSearch {
  import opened Octets
  import opened DerTag
  import opened DerWrite

  /** By how many octets the class bits must be shifted to meet the first octet of the tag. */
  function ClassShift(tag: nat, k: nat): nat
    decreases 3 - k
  {
    if k < 3 && tag / Pow256(k + 1) % 256 != 0 then ClassShift(tag, k + 1) else k
  }

  /** The whole identifier as one number; the two parts have no bits in common. */
  function JoinTag(cla: nat, tag: nat): nat {
    cla * Pow256(ClassShift(tag, 0)) + tag
  }

  /** Where the contents of the first element with tag `tag` are, searching from p. */
  function FindAt(buf: bytes, p: nat, tag: nat): Option<(nat, nat)>
    requires p <= |buf|
    decreases |buf| - p
  {
    if |buf| - p < 2 then None
    else match ReadHeader(buf[p..])
      case Tag(cla, t, size, len) =>
        if p + size + len > |buf| then None
        else if JoinTag(cla, t) == tag then Some((p + size, len))
        else HeaderSize(buf[p..]); FindAt(buf, p + size + len, tag)
      case _ => None
  }

  lemma HeaderSize(buf: bytes)
    ensures ReadHeader(buf).Tag? ==> 2 <= ReadHeader(buf).size <= |buf|
    ensures ReadHeader(buf).Tag? ==> ReadHeader(buf).cla % 32 == 0 && ReadHeader(buf).cla < 256
  {
  }

  /** Shift the class octet left until it meets the leftmost octet of the tag. */
  method AlignClass(cla: nat, tag: nat) returns (c: nat)
    ensures c == cla * Pow256(ClassShift(tag, 0))
  {
    var k := 0;
    c := cla;
    while k < 3 && tag / Pow256(k + 1) % 256 != 0
      invariant 0 <= k <= 3 && c == cla * Pow256(k) && ClassShift(tag, 0) == ClassShift(tag, k)
    {
      c, k := c * 256, k + 1;
    }
  }

  /** sc_asn1_find_tag: place and length of the contents, or place -1. */
  method FindTag(buf: bytes, tagIn: nat) returns (p: int, taglenIn: nat)
    ensures match FindAt(buf, 0, tagIn)
      case None => p == -1 && taglenIn == 0
      case Some((pos, len)) => p == pos && taglenIn == len
  {
    hide ReadHeader, ClassShift, Pow256;
    p, taglenIn := 0, 0;
    var left := |buf|;
    while left >= 2
      invariant 0 <= p <= |buf| && left == |buf| - p && taglenIn == 0
      invariant FindAt(buf, 0, tagIn) == FindAt(buf, p, tagIn)
      decreases left
    {
      HeaderSize(buf[p..]);
      var rv, q, cla, tag, taglen := ReadTag(buf[p..]);
      if rv != SC_SUCCESS || q == -1 { return -1, 0; }
      left := left - q;
      var c := AlignClass(cla, tag);
      if c + tag == tagIn {
        return p + q, taglen;
      }
      left := left - taglen;
      p := p + q + taglen;
    }
    p := -1;
  }

  /** On any octets: what is found lies inside them, behind a header with the wanted tag. */
  lemma {:induction false} FoundInside(buf: bytes, p: nat, tag: nat)
    requires p <= |buf|
    ensures match FindAt(buf, p, tag)
      case None => true
      case Some((pos, len)) => p < pos && pos + len <= |buf| && exists q: nat :: p <= q < pos && HasTag(buf[q..], tag, pos - q, len)
    decreases |buf| - p
  {
    hide JoinTag, ReadHeader;
    if |buf| - p >= 2 && ReadHeader(buf[p..]).Tag? {
      HeaderSize(buf[p..]);
      var h := ReadHeader(buf[p..]);
      if p + h.size + h.len <= |buf| {
        if JoinTag(h.cla, h.tag) == tag {
          assert HasTag(buf[p..], tag, h.size, h.len);
        } else {
          FoundInside(buf, p + h.size + h.len, tag);
        }
      }
    }
  }

  predicate HasTag(buf: bytes, tag: nat, size: nat, len: nat) {
    var h := ReadHeader(buf);
    h.Tag? && JoinTag(h.cla, h.tag) == tag && h.size == size && h.len == len
  }

  // ----- elements written one after the other -----

  datatype Tlv = Tlv(id: bytes, contents: bytes)

  predicate Writable(e: Tlv) {
    LegalTag(e.id) && |e.contents| < TWO_32
  }

  function Concat(es: seq<Tlv>): bytes {
    if es == [] then [] else Element(es[0].id, es[0].contents) + Concat(es[1..])
  }

  /** The index of the first element with the wanted tag, |es| if there is none. */
  function FirstWith(es: seq<Tlv>, tag: nat): (i: nat)
    ensures i <= |es|
    ensures i < |es| ==> Be(es[i].id) == tag
    ensures forall j :: 0 <= j < i ==> Be(es[j].id) != tag
  {
    if es == [] then 0 else if Be(es[0].id) == tag then 0 else 1 + FirstWith(es[1..], tag)
  }

  /** The shift stops at the octet that holds the escape marker 0x1F. */
  lemma ShiftOfLegal(t: bytes)
    requires LegalTag(t)
    ensures ClassShift(TagNumber(t), 0) == |t| - 1
  {
    NumberOf(t);
    var n := TagNumber(t);
    assert Pow256(1) == 256 && Pow256(2) == 65536 && Pow256(3) == 16777216;
    if |t| == 1 {
      DivUnique(n, 256, 0, n);
    } else if |t| == 2 {
      DivUnique(n, 256, 31, t[1]);
      DivUnique(n, 65536, 0, n);
      assert ClassShift(n, 1) == 1;
    } else {
      DivUnique(n, 256, 31 * 256 + t[1] as int, t[2]);
      DivUnique(31 * 256 + t[1] as int, 256, 31, t[1]);
      DivUnique(n, 65536, 31, t[1] as int * 256 + t[2]);
      DivUnique(n, 16777216, 0, n);
      assert ClassShift(n, 2) == 2;
      assert ClassShift(n, 1) == 2;
    }
  }

  lemma Powers()
    ensures Pow256(0) == 1 && Pow256(1) == 256 && Pow256(2) == 65536
  {
  }

  lemma JoinedTagIsWhole(t: bytes)
    requires LegalTag(t)
    ensures JoinTag(TagClass(t), TagNumber(t)) == Be(t)
  {
    hide Be, TagNumber, ClassShift, Pow256;
    ShiftOfLegal(t);
    NumberOf(t);
    WholeTag(t);
    Powers();
  }

  lemma WholeTag(t: bytes)
    requires LegalTag(t)
    ensures |t| == 1 ==> Be(t) == t[0]
    ensures |t| == 2 ==> Be(t) == t[0] as int * 256 + t[1]
    ensures |t| == 3 ==> Be(t) == (t[0] as int * 256 + t[1]) * 256 + t[2]
  {
    BeAppend([], t[0]);
    assert [] + [t[0]] == [t[0]];
    if |t| == 1 {
      assert t == [t[0]];
    } else {
      BeAppend([t[0]], t[1]);
      assert t == if |t| == 2 then [t[0]] + [t[1]] else [t[0]] + [t[1]] + [t[2]];
      if |t| == 3 { BeAppend([t[0]] + [t[1]], t[2]); }
    }
  }

  /** The search finds exactly the first element with the wanted tag, whatever precedes the elements. */
  lemma {:induction false} FindsFirst(pre: bytes, es: seq<Tlv>, tag: nat)
    requires forall i :: 0 <= i < |es| ==> Writable(es[i])
    ensures var buf, i := pre + Concat(es), FirstWith(es, tag);
      FindAt(buf, |pre|, tag) ==
        if i == |es| then None
        else Some((|pre| + |Concat(es[..i])| + |es[i].id| + |LenOctets(|es[i].contents|)|, |es[i].contents|))
    decreases |es|
  {
    hide ReadHeader, LenOctets, JoinTag, LegalTag, Be;
    var buf := pre + Concat(es);
    if es != [] {
      var e, rest := es[0], Concat(es[1..]);
      var el := Element(e.id, e.contents);
      assert buf[|pre|..] == el + rest;
      HeaderReadBack(e.id, e.contents, rest);
      HeaderSize(buf[|pre|..]);
      JoinedTagIsWhole(e.id);
      if Be(e.id) == tag {
        assert es[..0] == [];
      } else {
        assert pre + (el + rest) == (pre + el) + rest;
        FindsFirst(pre + el, es[1..], tag);
        var i := FirstWith(es[1..], tag);
        assert es[..i + 1][1..] == es[1..][..i];
      }
    }
  }

  /** sc_asn1_find_tag over any elements written one after the other. */
  lemma {:induction false} FindTagInConcat(es: seq<Tlv>, tag: nat)
    requires forall i :: 0 <= i < |es| ==> Writable(es[i])
    ensures FirstWith(es, tag) == |es| ==> FindAt(Concat(es), 0, tag) == None
    ensures var buf, i := Concat(es), FirstWith(es, tag);
      i < |es| ==>
        && FindAt(buf, 0, tag).Some?
        && var (pos, len) := FindAt(buf, 0, tag).value;
          && pos + len == |Concat(es[..i + 1])| <= |buf|
          && buf[pos..pos + len] == es[i].contents
  {
    hide Concat, LenOctets, FindAt;
    FindsFirst([], es, tag);
    assert [] + Concat(es) == Concat(es);
    var i := FirstWith(es, tag);
    if i < |es| {
      ConcatSplit(es, i);
      ConcatLast(es[..i + 1]);
      assert es[..i + 1][..i] == es[..i];
      Slice(Concat(es[..i]), es[i].id + LenOctets(|es[i].contents|), es[i].contents, Concat(es[i + 1..]));
    }
  }

  lemma Slice(a: bytes, h: bytes, c: bytes, rest: bytes)
    ensures (a + (h + c) + rest)[|a| + |h|..|a| + |h| + |c|] == c
  {
  }

  lemma ConcatLast(es: seq<Tlv>)
    requires es != []
    ensures var i := |es| - 1; Concat(es) == Concat(es[..i]) + Element(es[i].id, es[i].contents)
  {
    ConcatSplit(es, |es| - 1);
  }

  lemma {:induction false} ConcatSplit(es: seq<Tlv>, i: nat)
    requires i < |es|
    ensures Concat(es) == Concat(es[..i]) + Element(es[i].id, es[i].contents) + Concat(es[i + 1..])
  {
    hide Element;
    if i > 0 {
      ConcatSplit(es[1..], i - 1);
      assert es[1..][..i - 1] == es[..i][1..] && es[1..][i..] == es[i + 1..];
    } else {
      assert es[..0] == [];
    }
  }

  /** What sc_asn1_put_tag writes for a legal tag given as a number. */
  lemma {:induction false} PutTagWritesElement(t: bytes)
    requires LegalTag(t)
    ensures TagOctets(Be(t)) == t && 0 < Be(t) < TWO_32 && WellFormedLong(t)
  {
    WholeTag(t);
    ToBeBe(t);
    WidthOf(Be(t), |t|);
  }

  lemma WidthOf(n: nat, k: nat)
    requires 1 <= k <= 3 && (if k == 1 then 0 < n < 256 else if k == 2 then 256 <= n < 65536 else 65536 <= n < 16777216)
    ensures Width(n) == k
  {
    assert Width(n / 256) == if k == 1 then 0 else 1 + Width(n / 256 / 256);
    assert n / 256 / 256 == 0 <==> k <= 2;
    assert Width(n / 256 / 256) == if k <= 2 then 0 else 1 + Width(n / 256 / 256 / 256);
  }

  // ----- skipping one element -----

  predicate SameTag(tag: nat, tag': nat) {
    tag / CLASS_CONS_UNIT == tag' / CLASS_CONS_UNIT && tag % TAG_MASK_UNIT == tag' % TAG_MASK_UNIT
  }

  /** Contents and rest when the element in front has the engine tag `tag`. */
  function SkipTag(buf: bytes, tag: nat): Option<(bytes, bytes)> {
    match ReadHeader(buf)
    case Tag(cla, t, size, len) =>
      if size + len <= |buf| && cla == tag / CLASS_CONS_UNIT * 32 && t == tag % TAG_MASK_UNIT
      then Some((buf[size..size + len], buf[size + len..])) else None
    case _ => None
  }

  /** Class and constructed bit are compared one after the other. */
  lemma ClassBits(cla: nat, tag: nat)
    requires cla % 32 == 0 && cla < 256
    ensures cla == tag / CLASS_CONS_UNIT * 32
      <==> cla / 64 == tag / 0x4000_0000 && cla / 32 % 2 == tag / CLASS_CONS_UNIT % 2
  {
    var c, t := cla / 32, tag / CLASS_CONS_UNIT;
    assert cla / 64 == c / 2 && tag / 0x4000_0000 == t / 2;
  }

  /** sc_asn1_skip_tag: contents and rest as cursors, -1 for the null pointer. */
  method SkipTagBytes(buf: bytes, tagIn: nat) returns (p: int, taglen: nat, next: nat)
    requires tagIn < TWO_32
    ensures p == -1 <==> SkipTag(buf, tagIn) == None
    ensures p != -1 ==> 0 <= p && p + taglen == next <= |buf| && SkipTag(buf, tagIn) == Some((buf[p..next], buf[next..]))
  {
    hide ReadHeader;
    HeaderSize(buf);
    var rv, q, cla, tag, len := ReadTag(buf);
    if rv != SC_SUCCESS || q == -1 { return -1, 0, 0; }
    ClassBits(cla, tagIn);
    if cla / 64 != tagIn / 0x4000_0000 { return -1, 0, 0; }
    if cla / 32 % 2 == 1 {
      if tagIn / CLASS_CONS_UNIT % 2 == 0 { return -1, 0, 0; }
    } else {
      if tagIn / CLASS_CONS_UNIT % 2 == 1 { return -1, 0, 0; }
    }
    if tagIn % TAG_MASK_UNIT != tag { return -1, 0, 0; }
    return q, len, q + len;
  }

  /** An engine tag whose identifier octets are read back as they are written. */
  predicate LegalEngineTag(tag: nat) {
    && tag < TWO_32
    && LegalTag(WireTag(tag)) && ShortTag(tag)[0] < 32
  }

  lemma WrittenIdParts(tag: nat)
    requires LegalEngineTag(tag)
    ensures TagClass(WireTag(tag)) == tag / CLASS_CONS_UNIT * 32 && TagNumber(WireTag(tag)) == tag % TAG_MASK_UNIT
    ensures WellFormedLong(ShortTag(tag))
  {
    hide Be, ShortTag;
    ShortTagNumber(tag);
    FirstOctet(tag / CLASS_CONS_UNIT, ShortTag(tag)[0]);
    var t, w := ShortTag(tag), WireTag(tag);
    assert [w[0] % 32] + w[1..] == t;
    assert forall i :: 0 < i < |t| ==> w[i] == t[i];
  }

  lemma ShortTagNumber(tag: nat)
    ensures Be(ShortTag(tag)) == tag % TAG_MASK_UNIT
  {
    hide Width, Pow256;
    var n := tag % TAG_MASK_UNIT;
    WidthFits(n);
    BeToBe(n, Width(n));
    BeAppend([], 0);
    assert [] + [0] == [0];
  }

  lemma FirstOctet(c: nat, x: nat)
    requires x < 32
    ensures (c * 32 + x % 32) % 32 == x && x % 32 == x
  {
  }

  /** An element written under a legal tag is skipped under the same tag and under no other. */
  lemma SkipWritten(tag: nat, c: bytes, rest: bytes, tag': nat)
    requires LegalEngineTag(tag) && tag' < TWO_32 && |c| < TWO_32
    ensures WriteElement(tag, c) == Some(Element(WireTag(tag), c))
    ensures SkipTag(Element(WireTag(tag), c) + rest, tag') == if SameTag(tag, tag') then Some((c, rest)) else None
  {
    WrittenIdParts(tag);
    HeaderReadBack(WireTag(tag), c, rest);
    var buf := Element(WireTag(tag), c) + rest;
    var n := |WireTag(tag)| + |LenOctets(|c|)|;
    assert buf[n..n + |c|] == c && buf[n + |c|..] == rest;
  }

  /** Engine tags are the same to the decoder exactly when they are written as the same octets. */
  lemma {:induction false} SameTagIs(tag: nat, tag': nat)
    requires LegalEngineTag(tag) && LegalEngineTag(tag')
    ensures SameTag(tag, tag') <==> WireTag(tag) == WireTag(tag')
  {
    WrittenIdParts(tag);
    WrittenIdParts(tag');
    hide TagNumber, TagOctets;
  }
}
