/** OBJECT IDENTIFIER contents (section 8.19 of ITU-T X.690): sc_asn1_encode_object_id and
    sc_asn1_decode_object_id of `OpenSC/src/libopensc/asn1.c`. */
module DerOid {
  import opened Octets

  const INT_MAX := 0x7FFF_FFFF
  const UINT_MAX := 0xFFFF_FFFF
  const MAX_ARCS := 16

  // ----- one arc in base 128 -----

  /** Groups of seven bits, each with the continuation bit set. */
  function Continued(n: nat): bytes {
    if n == 0 then [] else Continued(n / 128) + [0x80 + n % 128]
  }

  /** An arc: the last group has no continuation bit. */
  function ArcOctets(n: nat): bytes {
    Continued(n / 128) + [n % 128]
  }

  /** The number the groups stand for. */
  function Groups(s: bytes): nat {
    if s == [] then 0 else 128 * Groups(s[..|s| - 1]) + s[|s| - 1] % 128
  }

  /** One arc as the decoder delimits it. */
  predicate IsArc(s: bytes) {
    && s != [] && s[0] != 0x80 && s[|s| - 1] < 0x80
    && forall i :: 0 <= i < |s| - 1 ==> s[i] >= 0x80
  }

  datatype ArcResult = Arc(n: nat, used: nat) | Bad(error: int)

  /** Octet i has been read and a is the number so far. */
  function ArcFrom(s: bytes, i: nat, a: nat): (r: ArcResult)
    requires i < |s|
    ensures r.Bad? ==> r.error < 0
    decreases |s| - i
  {
    if s[i] < 0x80 then Arc(a, i + 1)
    else if i + 1 == |s| then Bad(SC_ERROR_INVALID_ASN1_OBJECT)
    else if a > UINT_MAX / 128 then Bad(SC_ERROR_NOT_SUPPORTED)
    else ArcFrom(s, i + 1, a * 128 + s[i + 1] % 128)
  }

  function ReadArc(s: bytes): (r: ArcResult)
    requires s != []
    ensures r.Bad? ==> r.error < 0
  {
    if s[0] == 0x80 then Bad(SC_ERROR_INVALID_ASN1_OBJECT) else ArcFrom(s, 0, s[0] % 128)
  }

  lemma GroupsAppend(s: bytes, b: u8)
    ensures Groups(s + [b]) == 128 * Groups(s) + b % 128
  {
    assert (s + [b])[..|s|] == s;
  }

  lemma {:induction false} ContinuedIs(n: nat)
    ensures forall i :: 0 <= i < |Continued(n)| ==> Continued(n)[i] >= 0x80
    ensures n > 0 ==> Continued(n) != [] && Continued(n)[0] != 0x80
    ensures Groups(Continued(n)) == n
  {
    hide Continued, Groups;
    LastContinued(n);
    if n > 0 {
      var q, b: u8 := n / 128, 0x80 + n % 128;
      ContinuedIs(q);
      GroupsAppend(Continued(q), b);
      DivUnique(b, 128, 1, n % 128);
    }
  }

  lemma LastContinued(n: nat)
    ensures Continued(0) == [] && Groups([]) == 0
    ensures n > 0 ==> Continued(n) == Continued(n / 128) + [0x80 + n % 128]
  {
  }

  lemma ArcOctetsIs(n: nat)
    ensures IsArc(ArcOctets(n)) && Groups(ArcOctets(n)) == n
  {
    var q, b: u8 := n / 128, n % 128;
    ContinuedIs(q);
    DivUnique(b, 128, 0, b);
    GroupsAppend(Continued(q), b);
    hide Groups, Continued;
    assert ArcOctets(n) == Continued(q) + [b];
  }

  lemma {:induction false} ContinuedUnique(s: bytes)
    requires s != [] ==> s[0] != 0x80
    requires forall i :: 0 <= i < |s| ==> s[i] >= 0x80
    ensures Continued(Groups(s)) == s
    ensures s != [] ==> Groups(s) > 0
  {
    if |s| > 0 {
      var r, b := s[..|s| - 1], s[|s| - 1];
      assert Groups([]) == 0;
      hide Groups, Continued;
      assert s == r + [b] && (r == [] ==> s[0] == b);
      GroupsAppend(r, b);
      ContinuedUnique(r);
      LastGroup(Groups(s), Groups(r), b);
    }
  }

  lemma LastGroup(n: nat, q: nat, b: u8)
    requires n == 128 * q + (b - 0x80) && b >= 0x80 && n > 0
    ensures Continued(n) == Continued(q) + [b]
  {
    assert n / 128 == q && n % 128 == b - 0x80;
  }

  lemma ArcUnique(s: bytes)
    requires IsArc(s)
    ensures ArcOctets(Groups(s)) == s && (|s| > 1 ==> Groups(s) >= 128)
  {
    hide Groups, Continued, ArcOctets;
    var r, b := s[..|s| - 1], s[|s| - 1];
    assert s == r + [b];
    GroupsAppend(r, b);
    ContinuedUnique(r);
    LastOctet(Groups(s), Groups(r), b);
  }

  lemma LastOctet(n: nat, q: nat, b: u8)
    requires n == 128 * q + b && b < 0x80
    ensures ArcOctets(n) == Continued(q) + [b]
  {
    hide Continued;
    assert n / 128 == q && n % 128 == b;
  }

  /** The decoder reads up to the first octet without continuation bit, unless the number is too large. */
  lemma {:induction false} ArcFromReads(s: bytes, i: nat, j: nat)
    requires i <= j < |s| && s[j] < 0x80 && forall k :: 0 <= k < j ==> s[k] >= 0x80
    requires Groups(s[..j + 1]) <= UINT_MAX
    ensures ArcFrom(s, i, Groups(s[..i + 1])) == Arc(Groups(s[..j + 1]), j + 1)
    decreases j - i
  {
    if i < j {
      assert s[..i + 2] == s[..i + 1] + [s[i + 1]];
      GroupsAppend(s[..i + 1], s[i + 1]);
      GroupsGrow(s, i + 2, j + 1);
      ArcFromReads(s, i + 1, j);
    }
  }

  lemma {:induction false} GroupsGrow(s: bytes, i: nat, j: nat)
    requires i <= j <= |s|
    ensures Groups(s[..i]) <= Groups(s[..j])
    decreases j
  {
    if i < j {
      GroupsGrow(s, i, j - 1);
      assert s[..j] == s[..j - 1] + [s[j - 1]];
      GroupsAppend(s[..j - 1], s[j - 1]);
    }
  }

  lemma ReadArcOfOctets(n: nat, rest: bytes)
    requires n <= UINT_MAX
    ensures ReadArc(ArcOctets(n) + rest) == Arc(n, |ArcOctets(n)|)
  {
    ArcOctetsIs(n);
    var t, s := ArcOctets(n), ArcOctets(n) + rest;
    assert s[..|t|] == t;
    GroupsAppend([], s[0]);
    assert s[..1] == [] + [s[0]];
    ArcFromReads(s, 0, |t| - 1);
  }

  lemma {:induction false} ArcFromDelimits(s: bytes, i: nat)
    requires i < |s| && s[0] != 0x80 && forall k :: 0 <= k < i ==> s[k] >= 0x80
    ensures match ArcFrom(s, i, Groups(s[..i + 1]))
      case Arc(n, used) => i < used <= |s| && IsArc(s[..used]) && n == Groups(s[..used])
      case Bad(_) => true
    decreases |s| - i
  {
    if s[i] >= 0x80 && i + 1 < |s| {
      assert s[..i + 2] == s[..i + 1] + [s[i + 1]];
      GroupsAppend(s[..i + 1], s[i + 1]);
      ArcFromDelimits(s, i + 1);
    }
  }

  lemma ReadArcDelimits(s: bytes)
    requires s != []
    ensures match ReadArc(s)
      case Arc(n, used) => 0 < used <= |s| && s[..used] == ArcOctets(n) && (used > 1 ==> n >= 128) && (s[0] >= 0x80 ==> used > 1)
      case Bad(_) => true
  {
    hide ArcFrom, ArcOctets, Groups;
    if s[0] != 0x80 {
      FirstGroup(s);
      ArcFromDelimits(s, 0);
      match ReadArc(s)
      case Arc(n, used) => ArcUnique(s[..used]);
      case Bad(_) =>
    }
  }

  lemma FirstGroup(s: bytes)
    requires s != []
    ensures Groups(s[..1]) == s[0] % 128
  {
    GroupsAppend([], s[0]);
    assert s[..1] == [] + [s[0]] && Groups([]) == 0;
  }

  // ----- writing one arc -----

  function Pow128(k: nat): (r: nat)
    ensures r > 0
  {
    if k == 0 then 1 else 128 * Pow128(k - 1)
  }

  lemma {:induction false} ContinuedDigit(n: nat, i: nat)
    requires i < |Continued(n)|
    ensures Continued(n)[i] == 0x80 + n / Pow128(|Continued(n)| - 1 - i) % 128
  {
    var k := |Continued(n)|;
    assert Continued(n) == Continued(n / 128) + [0x80 + n % 128];
    if i < k - 1 {
      ContinuedDigit(n / 128, i);
      DivDiv(n, 128, Pow128(k - 2 - i));
      hide Continued;
      assert Pow128(k - 1 - i) == 128 * Pow128(k - 2 - i);
    }
  }

  lemma {:induction false} ContinuedLength(n: nat, c: nat)
    ensures n / Pow128(c) == 0 <==> |Continued(n)| <= c
  {
    if c > 0 && n > 0 {
      ContinuedLength(n / 128, c - 1);
      DivDiv(n, 128, Pow128(c - 1));
    }
  }

  /** One round of the encoder's loop: `shift` counts groups of seven bits. */
  method PutArc(temp: array<u8>, p0: nat, k: nat) returns (p: nat)
    requires k <= UINT_MAX && p0 + 5 <= temp.Length
    modifies temp
    ensures p == p0 + |ArcOctets(k)| <= p0 + 5
    ensures temp[..p0] == old(temp[..p0]) && temp[p0..p] == ArcOctets(k)
  {
    var shift := CountGroups(k);
    ghost var t := ArcOctets(k);
    ghost var n := shift;
    p := p0;
    while shift != 0
      invariant 0 <= shift <= n == |t| - 1 && p == p0 + (n - shift)
      invariant temp[..p0] == old(temp[..p0]) && temp[p0..p] == t[..p - p0]
    {
      ContinuedDigit(k / 128, n - shift);
      DivDiv(k, 128, Pow128(shift - 1));
      temp[p] := 0x80 + k / Pow128(shift) % 128;
      p := p + 1;
      shift := shift - 1;
    }
    temp[p] := k % 128;
    p := p + 1;
  }

  method CountGroups(k: nat) returns (shift: nat)
    requires k <= UINT_MAX
    ensures shift == |Continued(k / 128)| <= 4
  {
    shift := 4;
    assert Pow128(1) == 128 && Pow128(2) == 16384 && Pow128(3) == 2097152 && Pow128(4) == 268435456;
    ContinuedLength(k / 128, 4);
    while shift != 0 && k / Pow128(shift) == 0
      invariant |Continued(k / 128)| <= shift <= 4
    {
      DivDiv(k, 128, Pow128(shift - 1));
      ContinuedLength(k / 128, shift - 1);
      shift := shift - 1;
    }
    if shift > 0 {
      DivDiv(k, 128, Pow128(shift - 1));
      ContinuedLength(k / 128, shift - 1);
    }
  }

  /** The inner loop of the decoder; `used` octets make the arc. */
  method ReadGroups(s: bytes) returns (r: int, a: nat, used: nat)
    requires s != []
    ensures match ReadArc(s)
      case Arc(n, u) => r == SC_SUCCESS && a == n && used == u
      case Bad(e) => r == e && e != SC_SUCCESS
  {
    if s[0] == 0x80 { return SC_ERROR_INVALID_ASN1_OBJECT, 0, 0; }
    a := s[0] % 128;
    var p := 0;
    while p + 1 < |s| && s[p] >= 0x80
      invariant 0 <= p < |s| && ReadArc(s) == ArcFrom(s, p, a)
    {
      if a > UINT_MAX / 128 { return SC_ERROR_NOT_SUPPORTED, a, 0; }
      p := p + 1;
      a := a * 128 + s[p] % 128;
    }
    if s[p] >= 0x80 { return SC_ERROR_INVALID_ASN1_OBJECT, a, 0; }
    return SC_SUCCESS, a, p + 1;
  }

  // ----- the whole identifier -----

  datatype OidResult = Oid(arcs: seq<nat>) | Error(code: int)

  /** The arcs still to be read; `acc` are those already read. A large second arc is read together
      with the first, which then is 2 and takes 80 of the number. */
  function ArcsFrom(s: bytes, acc: seq<nat>, large: bool): (r: OidResult)
    requires large ==> s != [] && s[0] >= 0x80
    ensures r.Error? ==> r.code < 0
    decreases |s|
  {
    if s == [] then Oid(acc)
    else match ReadArc(s)
      case Bad(e) => Error(e)
      case Arc(n, used) =>
        ReadArcDelimits(s);
        var m := if large then n - 80 else n;
        if m > INT_MAX then Error(SC_ERROR_NOT_SUPPORTED)
        else if |acc| + 1 >= MAX_ARCS then Error(SC_ERROR_INVALID_ASN1_OBJECT)
        else ArcsFrom(s[used..], acc + [m], false)
  }

  function DecodeOid(s: bytes): (r: OidResult)
    ensures r.Error? ==> r.code < 0
  {
    if s == [] then Error(SC_ERROR_INVALID_ARGUMENTS)
    else
      var a := if s[0] / 40 < 2 then s[0] / 40 else 2;
      if s[0] < 0x80 then ArcsFrom(s[1..], [a, s[0] - a * 40], false) else ArcsFrom(s, [a], true)
  }

  /** Identifiers of 2 to 16 arcs that the encoder accepts. */
  predicate ValidOid(c: seq<nat>) {
    && 2 <= |c| <= MAX_ARCS
    && (forall i :: 0 <= i < |c| ==> c[i] <= INT_MAX)
    && c[0] <= 2 && (c[0] < 2 ==> c[1] <= 39)
  }

  function EncodeArcs(c: seq<nat>): bytes {
    if c == [] then [] else ArcOctets(c[0]) + EncodeArcs(c[1..])
  }

  /** The first two arcs share one number, added up in 32-bit unsigned arithmetic. */
  function EncodeOid(c: seq<nat>): bytes
    requires |c| >= 2
  {
    ArcOctets((c[0] * 40 + c[1]) % TWO_32) + EncodeArcs(c[2..])
  }

  lemma {:induction false} ArcsReadBack(c: seq<nat>, acc: seq<nat>)
    requires forall i :: 0 <= i < |c| ==> c[i] <= INT_MAX
    requires 2 <= |acc| < MAX_ARCS
    ensures ArcsFrom(EncodeArcs(c), acc, false) ==
      if |acc| + |c| < MAX_ARCS then Oid(acc + c) else Error(SC_ERROR_INVALID_ASN1_OBJECT)
    decreases |c|
  {
    if c == [] {
      assert acc + c == acc;
    } else {
      var rest := EncodeArcs(c[1..]);
      ReadArcOfOctets(c[0], rest);
      var s := ArcOctets(c[0]) + rest;
      assert s == EncodeArcs(c) && s[|ArcOctets(c[0])|..] == rest;
      if |acc| + 1 < MAX_ARCS {
        ArcsReadBack(c[1..], acc + [c[0]]);
        assert acc + [c[0]] + c[1..] == acc + c;
      }
    }
  }

  /** Decoding undoes encoding, except that the decoder has no room for a sixteenth arc. */
  lemma DecodeEncoded(c: seq<nat>)
    requires ValidOid(c)
    ensures DecodeOid(EncodeOid(c)) == if |c| < MAX_ARCS then Oid(c) else Error(SC_ERROR_INVALID_ASN1_OBJECT)
  {
    hide ReadArc, EncodeArcs, ArcOctets;
    var n, rest := c[0] * 40 + c[1], EncodeArcs(c[2..]);
    ReadArcOfOctets(n, rest);
    ArcShape(n);
    ArcsReadBack(c[2..], c[..2]);
    assert [c[0]] + [c[1]] == c[..2];
    var s := EncodeOid(c);
    assert c[..2] == [c[0], c[1]] && c[..2] + c[2..] == c;
    assert s[|ArcOctets(n)|..] == rest && s[0] == ArcOctets(n)[0];
  }

  lemma ArcShape(n: nat)
    ensures ArcOctets(n) != []
    ensures if n < 128 then ArcOctets(n) == [n] else ArcOctets(n)[0] > 0x80
  {
    ContinuedIs(n / 128);
  }

  lemma OneMore(c: seq<nat>, acc: seq<nat>, n: nat)
    requires |acc| < |c| && c[..|acc| + 1] == acc + [n]
    ensures c[..|acc|] == acc && c[|acc|..] == [n] + c[|acc| + 1..]
  {
    assert c[..|acc|] == (acc + [n])[..|acc|];
    assert c[|acc|] == c[..|acc| + 1][|acc|] == n;
  }

  lemma EncodeFirst(n: nat, c: seq<nat>)
    ensures EncodeArcs([]) == [] && EncodeArcs([n] + c) == ArcOctets(n) + EncodeArcs(c)
  {
    assert ([n] + c)[1..] == c;
  }

  lemma {:induction false} ArcsReencode(s: bytes, acc: seq<nat>)
    requires |acc| >= 2 && (forall i :: 0 <= i < |acc| ==> acc[i] <= INT_MAX) && |acc| < MAX_ARCS
    ensures match ArcsFrom(s, acc, false)
      case Oid(c) => |acc| <= |c| < MAX_ARCS && c[..|acc|] == acc && EncodeArcs(c[|acc|..]) == s
        && forall i :: 0 <= i < |c| ==> c[i] <= INT_MAX
      case Error(_) => true
    decreases |s|
  {
    hide ReadArc, ArcOctets, EncodeArcs;
    EncodeFirst(0, []);
    if s == [] {
      assert acc[|acc|..] == [];
    } else {
      ReadArcDelimits(s);
      match ReadArc(s)
      case Bad(_) =>
      case Arc(n, used) =>
        if n <= INT_MAX && |acc| + 1 < MAX_ARCS {
          ArcsReencode(s[used..], acc + [n]);
          match ArcsFrom(s[used..], acc + [n], false)
          case Oid(c) =>
            OneMore(c, acc, n);
            EncodeFirst(n, c[|acc| + 1..]);
            assert s == s[..used] + s[used..];
          case Error(_) =>
        }
    }
  }

  /** What the decoder accepts is the one encoding of its result. */
  lemma EncodeDecoded(s: bytes)
    ensures match DecodeOid(s)
      case Oid(c) => ValidOid(c) && |c| < MAX_ARCS && EncodeOid(c) == s
      case Error(_) => true
  {
    if s != [] {
      var a := if s[0] / 40 < 2 then s[0] / 40 else 2;
      if s[0] < 0x80 {
        ArcsReencode(s[1..], [a, s[0] - a * 40]);
        FirstArcs(s, [a, s[0] - a * 40], 1, s[0]);
      } else {
        ReadArcDelimits(s);
        match ReadArc(s)
        case Bad(_) =>
        case Arc(n, used) =>
          if n - 80 <= INT_MAX {
            assert [a] + [n - 80] == [a, n - 80];
            ArcsReencode(s[used..], [a, n - 80]);
            FirstArcs(s, [a, n - 80], used, n);
          }
      }
    }
  }

  lemma FirstArcs(s: bytes, acc: seq<nat>, used: nat, n: nat)
    requires |acc| == 2 && used <= |s| && s[..used] == ArcOctets(n) && n == acc[0] * 40 + acc[1] < TWO_32
    ensures match ArcsFrom(s[used..], acc, false)
      case Oid(c) => 2 <= |c| && c[..2] == acc && EncodeArcs(c[2..]) == s[used..] ==> EncodeOid(c) == s
      case Error(_) => true
  {
    hide ArcOctets, ArcsFrom, EncodeArcs, EncodeOid;
    assert s == s[..used] + s[used..];
    match ArcsFrom(s[used..], acc, false)
    case Oid(c) => if 2 <= |c| && c[..2] == acc { SharedNumber(c, acc, n); }
    case Error(_) =>
  }

  lemma SharedNumber(c: seq<nat>, acc: seq<nat>, n: nat)
    requires 2 <= |c| && c[..2] == acc && n == acc[0] * 40 + acc[1] < TWO_32
    ensures EncodeOid(c) == ArcOctets(n) + EncodeArcs(c[2..])
  {
    hide ArcOctets, EncodeArcs;
    assert c[0] == c[..2][0] && c[1] == c[..2][1];
  }

  // ----- the two functions of the library -----

  /** The array of 16 components, unused ones being -1. */
  function Padded(c: seq<nat>): (v: seq<int>)
    requires |c| <= MAX_ARCS
    ensures |v| == MAX_ARCS
  {
    seq(MAX_ARCS, i => if 0 <= i < |c| then c[i] as int else -1)
  }

  /** sc_asn1_decode_object_id into the 16 components of `id`. */
  method DecodeObjectId(inbuf: bytes, id: array<int>) returns (r: int)
    requires id.Length == MAX_ARCS
    modifies id
    ensures match DecodeOid(inbuf)
      case Oid(c) => r == SC_SUCCESS && |c| <= MAX_ARCS && id[..] == Padded(c)
      case Error(e) => r == e && (inbuf != [] ==> id[..] == Padded([]))
  {
    hide ReadArc;
    if |inbuf| == 0 { return SC_ERROR_INVALID_ARGUMENTS; }
    InitOid(id);
    var a := if inbuf[0] / 40 < 2 then inbuf[0] / 40 else 2;
    id[0] := a;
    var n, q := 1, 0;
    var largeSecondOctet := inbuf[0] >= 0x80;
    ghost var acc: seq<nat> := [a];
    assert inbuf[0..] == inbuf;
    if !largeSecondOctet {
      id[1] := inbuf[0] - a * 40;
      n, q := 2, 1;
      acc := [a, inbuf[0] - a * 40];
    }
    while q < |inbuf|
      invariant 0 <= q <= |inbuf| && n == |acc| < MAX_ARCS && id[..] == Padded(acc)
      invariant largeSecondOctet ==> q < |inbuf| && inbuf[q] >= 0x80
      invariant DecodeOid(inbuf) == ArcsFrom(inbuf[q..], acc, largeSecondOctet)
      decreases |inbuf| - q
    {
      ReadArcDelimits(inbuf[q..]);
      var e, m, used := ReadGroups(inbuf[q..]);
      if e != SC_SUCCESS {
        InitOid(id);
        return e;
      }
      if largeSecondOctet { m := m - 80; }
      if m > INT_MAX {
        InitOid(id);
        return SC_ERROR_NOT_SUPPORTED;
      }
      id[n] := m;
      n := n + 1;
      if n >= MAX_ARCS {
        InitOid(id);
        return SC_ERROR_INVALID_ASN1_OBJECT;
      }
      acc := acc + [m];
      assert inbuf[q..][used..] == inbuf[q + used..];
      q := q + used;
      largeSecondOctet := false;
    }
    return SC_SUCCESS;
  }

  /** The components before the first -1, as unsigned numbers. */
  function Components(value: seq<int>): seq<nat> {
    if value == [] || value[0] == -1 then [] else [value[0] % TWO_32] + Components(value[1..])
  }

  lemma ComponentsStep(value: seq<int>)
    requires value != []
    ensures Components(value) == if value[0] == -1 then [] else [value[0] % TWO_32] + Components(value[1..])
  {
  }

  lemma FirstTwo(value: seq<int>)
    requires |value| >= 2
    ensures var c := Components(value);
      if value[0] == -1 || value[1] == -1 then |c| < 2
      else |c| >= 2 && c[0] == value[0] % TWO_32 && c[1] == value[1] % TWO_32 && c[2..] == Components(value[2..])
  {
    hide Components;
    ComponentsStep(value);
    ComponentsStep(value[1..]);
    assert value[1..][1..] == value[2..];
  }

  predicate Encodable(c: seq<nat>) {
    |c| >= 2 && c[0] <= 2 && (c[0] < 2 ==> c[1] <= 39)
  }

  /** The octet strings that are accepted are exactly the encodings of identifiers of 2 to 15 arcs. */
  lemma {:induction false} AcceptedExactly(s: bytes)
    ensures DecodeOid(s).Oid? <==> exists c :: ValidOid(c) && |c| < MAX_ARCS && EncodeOid(c) == s
  {
    EncodeDecoded(s);
    if c :| ValidOid(c) && |c| < MAX_ARCS && EncodeOid(c) == s { DecodeEncoded(c); }
  }

  /** The encoder accepts exactly the identifiers that some octet string stands for; of 16 arcs, those
      whose first 15 are such an identifier. */
  lemma {:induction false} EncodableExactly(c: seq<nat>)
    requires |c| <= MAX_ARCS && forall i :: 0 <= i < |c| ==> c[i] <= INT_MAX
    ensures Encodable(c) <==> exists s: bytes :: DecodeOid(s) == Oid(if |c| < MAX_ARCS then c else c[..MAX_ARCS - 1])
  {
    var d := if |c| < MAX_ARCS then c else c[..MAX_ARCS - 1];
    if Encodable(c) {
      assert ValidOid(d);
      DecodeEncoded(d);
    } else if s: bytes :| DecodeOid(s) == Oid(d) {
      EncodeDecoded(s);
    }
  }

  /** On the wire: groups of seven bits, most significant first, the last one of an arc marked by a
      clear top bit; the first two arcs share the number 40*x + y. */
  lemma {:induction false} OidMeans(c: seq<nat>)
    requires |c| >= 2 && c[0] * 40 + c[1] < TWO_32
    ensures EncodeOid(c) == ArcOctets(c[0] * 40 + c[1]) + EncodeArcs(c[2..])
    ensures |c| > 2 ==> EncodeArcs(c[2..]) == ArcOctets(c[2]) + EncodeArcs(c[3..])
    ensures forall n :: IsArc(ArcOctets(n)) && Groups(ArcOctets(n)) == n
    ensures EncodeOid([2, 5, 4, 3]) == [0x55, 4, 3]
  {
    hide Continued, Groups, IsArc;
    forall n ensures IsArc(ArcOctets(n)) && Groups(ArcOctets(n)) == n { ArcOctetsIs(n); }
    if |c| > 2 { assert c[2..][1..] == c[3..]; }
    CommonName();
  }

  lemma CommonName()
    ensures EncodeOid([2, 5, 4, 3]) == [0x55, 4, 3]
  {
    assert Continued(0) == [];
    assert [2, 5, 4, 3][2..] == [4] + [3];
    EncodeFirst(4, [3]);
    EncodeFirst(3, []);
    assert [3] + [] == [3];
  }

  /** sc_asn1_encode_object_id */
  method EncodeObjectId(value: seq<int>) returns (r: int, buf: array?<u8>)
    requires |value| == MAX_ARCS && forall i :: 0 <= i < MAX_ARCS ==> -INT_MAX - 1 <= value[i] <= INT_MAX
    ensures r == if Encodable(Components(value)) then SC_SUCCESS else SC_ERROR_INVALID_ARGUMENTS
    ensures r == SC_SUCCESS <==> value[0] in {0, 1, 2} && value[1] != -1 && (value[0] < 2 ==> 0 <= value[1] <= 39)
    ensures r == SC_SUCCESS ==> buf != null && fresh(buf) && buf[..] == EncodeOid(Components(value))
  {
    hide Components, ArcOctets, EncodeArcs;
    ghost var c := Components(value);
    FirstTwo(value);
    if value[0] == -1 || value[1] == -1 { return SC_ERROR_INVALID_ARGUMENTS, null; }
    var temp := new u8[MAX_ARCS * 5](_ => 0);
    var k := value[0] % TWO_32;
    if k > 2 { return SC_ERROR_INVALID_ARGUMENTS, null; }
    var first := k * 40;
    k := value[1] % TWO_32;
    if k > 39 && value[0] < 2 { return SC_ERROR_INVALID_ARGUMENTS, null; }
    k := (k + first) % TWO_32;
    var p := PutArc(temp, 0, k);
    p := PutArcs(temp, p, value);
    buf := new u8[p](j requires 0 <= j < p <= temp.Length reads temp => temp[j]);
    assert buf[..] == temp[..p];
    r := SC_SUCCESS;
  }

  method PutArcs(temp: array<u8>, p0: nat, value: seq<int>) returns (p: nat)
    requires |value| == MAX_ARCS && temp.Length == MAX_ARCS * 5 && p0 <= 5
    modifies temp
    ensures p <= temp.Length && temp[..p] == old(temp[..p0]) + EncodeArcs(Components(value[2..]))
  {
    hide ArcOctets;
    p := p0;
    var i := 2;
    ghost var whole := temp[..p0] + EncodeArcs(Components(value[2..]));
    while i < MAX_ARCS && value[i] != -1
      invariant 2 <= i <= MAX_ARCS && p <= 5 * (i - 1)
      invariant temp[..p] + EncodeArcs(Components(value[i..])) == whole
    {
      assert value[i..][1..] == value[i + 1..];
      var q := PutArc(temp, p, value[i] % TWO_32);
      assert temp[..q] == temp[..p] + temp[p..q];
      p, i := q, i + 1;
    }
    assert Components(value[i..]) == [] && EncodeArcs([]) == [];
  }

  lemma {:induction false} PaddedComponents(c: seq<nat>, i: nat)
    requires i <= |c| <= MAX_ARCS && forall j :: 0 <= j < |c| ==> c[j] <= INT_MAX
    ensures Components(Padded(c)[i..]) == c[i..]
    decreases |c| - i
  {
    var v := Padded(c);
    if i < |c| {
      PaddedComponents(c, i + 1);
      assert v[i..][1..] == v[i + 1..] && c[i..] == [c[i]] + c[i + 1..];
    } else {
      assert v[i..] == [] || v[i..][0] == -1;
    }
  }

  method InitOid(id: array<int>)
    requires id.Length == MAX_ARCS
    modifies id
    ensures id[..] == Padded([])
  {
    for i := 0 to MAX_ARCS
      invariant forall j :: 0 <= j < i ==> id[j] == -1
    {
      id[i] := -1;
    }
  }
}
