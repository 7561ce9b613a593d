/** sc_asn1_put_tag and asn1_write_element of `OpenSC/src/libopensc/asn1.c`. */
module DerWrite {
  import opened Octets
  import opened DerTag

  /** The octets of a tag given as one number, without leading zeros. */
  function TagOctets(tag: nat): bytes {
    ToBe(tag, Width(tag))
  }

  /** The length octets beyond the first: smallest c > 0 with datalen >> 8c == 0, or 0. */
  method CountLenOctets(datalen: nat) returns (c: nat)
    ensures c == if datalen > 127 then Width(datalen) else 0
    ensures |LenOctets(datalen)| == 1 + c && (c > 0 <==> datalen > 127)
  {
    c := 0;
    if datalen > 127 {
      c := 1;
      WidthFits(datalen);
      ShiftedOut(datalen, c);
      while datalen / Pow256(c) != 0
        invariant 1 <= c <= Width(datalen)
        decreases Width(datalen) - c
      {
        ShiftedOut(datalen, c);
        c := c + 1;
      }
      ShiftedOut(datalen, c);
    }
  }

  lemma {:induction false} ShiftedOut(n: nat, c: nat)
    ensures n / Pow256(c) == 0 <==> Width(n) <= c
  {
    if c > 0 && n > 0 {
      ShiftedOut(n / 256, c - 1);
      DivDiv(n, 256, Pow256(c - 1));
    }
  }

  /** memcpy */
  method Copy(out: array<u8>, p: nat, data: bytes)
    requires p + |data| <= out.Length
    modifies out
    ensures out[..p] == old(out[..p]) && out[p..p + |data|] == data
    ensures out[p + |data|..] == old(out[p + |data|..])
  {
    var i := 0;
    while i < |data|
      invariant 0 <= i <= |data|
      invariant forall k :: 0 <= k < i ==> out[p + k] == data[k]
      invariant forall k :: 0 <= k < out.Length && !(p <= k < p + i) ==> out[k] == old(out[k])
    {
      out[p + i] := data[i];
      i := i + 1;
    }
  }

  /** Write the identifier octets and the length octets at the start of `out`. */
  method StoreHeader(out: array<u8>, id: bytes, datalen: nat) returns (p: nat)
    requires |id| + |LenOctets(datalen)| <= out.Length
    modifies out
    ensures p == |id| + |LenOctets(datalen)|
    ensures out[..p] == id + LenOctets(datalen) && out[p..] == old(out[p..])
  {
    hide LenOctets, ToBe, Width;
    Copy(out, 0, id);
    assert out[..|id|] == out[0..|id|] == id;
    ghost var rest := out[|id|..];
    p := StoreLengthField(out, |id|, datalen);
    assert out[..p] == out[..|id|] + out[|id|..p];
    assert rest[p - |id|..] == old(out[|id|..])[p - |id|..] == old(out[p..]);
    assert out[p..] == rest[p - |id|..];
  }

  method StoreLengthField(out: array<u8>, p0: nat, datalen: nat) returns (p: nat)
    requires p0 + |LenOctets(datalen)| <= out.Length
    modifies out
    ensures p == p0 + |LenOctets(datalen)|
    ensures out[..p0] == old(out[..p0]) && out[p0..p] == LenOctets(datalen) && out[p..] == old(out[p..])
  {
    hide Width, ToBe;
    var c := CountLenOctets(datalen);
    if c > 0 {
      p := StoreLongForm(out, p0, datalen, c);
    } else {
      out[p0] := datalen;
      p := p0 + 1;
    }
  }

  method StoreLongForm(out: array<u8>, p0: nat, datalen: nat, c0: nat) returns (p: nat)
    requires p0 + 1 + c0 <= out.Length
    modifies out
    ensures p == p0 + 1 + c0
    ensures out[..p0] == old(out[..p0]) && out[p0..p] == [(0x80 + c0) % 256] + ToBe(datalen, c0)
    ensures out[p..] == old(out[p..])
  {
    ghost var field := [(0x80 + c0) % 256] + ToBe(datalen, c0);
    out[p0] := (0x80 + c0) % 256;
    p := p0 + 1;
    var c := c0;
    while c != 0
      invariant 0 <= c <= c0 && p == p0 + 1 + (c0 - c)
      invariant out[..p0] == old(out[..p0]) && out[p0..p] == field[..p - p0]
      invariant out[p..] == old(out[p..])
    {
      c := c - 1;
      ToBeDigit(datalen, c0, c0 - 1 - c);
      out[p] := datalen / Pow256(c) % 256;
      p := p + 1;
    }
  }

  function Reversed<T>(s: seq<T>): (r: seq<T>)
    ensures |r| == |s|
  {
    seq(|s|, i requires 0 <= i < |s| => s[|s| - 1 - i])
  }

  /** The octets of a tag, least significant first, as both writers take it apart. */
  method TagChars(tag: nat) returns (chars: bytes)
    ensures chars == Reversed(TagOctets(tag)) && (chars == [] <==> tag == 0)
  {
    chars := [];
    var rest := tag;
    while rest != 0
      invariant Reversed(TagOctets(tag)) == chars + Reversed(TagOctets(rest))
    {
      assert TagOctets(rest) == TagOctets(rest / 256) + [rest % 256];
      chars := chars + [rest % 256];
      rest := rest / 256;
    }
  }

  /** What both writers ask of a tag of several octets: an escape octet in front, continuation
      bits in the middle, none at the end. */
  predicate WellFormedLong(t: bytes) {
    |t| > 1 ==>
      && t[0] % 32 == 31
      && (forall i :: 0 < i < |t| - 1 ==> t[i] >= 0x80)
      && t[|t| - 1] < 0x80
  }

  /** Up to three octets the writers accept what can be read back; a further octet in between has to
      have the continuation bit. */
  lemma WellFormedIs(t: bytes)
    ensures 2 <= |t| <= 3 && t[0] != 0xFF ==> (WellFormedLong(t) <==> LegalTag(t))
    ensures |t| >= 3 ==> (WellFormedLong(t) <==> t[1] >= 0x80 && WellFormedLong(t[..1] + t[2..]))
    ensures |t| <= 1 ==> WellFormedLong(t)
  {
    if |t| >= 3 {
      var u := t[..1] + t[2..];
      assert u[0] == t[0] && forall i :: 0 < i < |u| ==> u[i] == t[i + 1];
      if t[1] >= 0x80 && WellFormedLong(u) {
        forall i | 0 < i < |t| - 1 ensures t[i] >= 0x80 {
          if i > 1 { assert u[i - 1] == t[i]; }
        }
      }
    }
  }

  method CheckLong(chars: bytes, ghost t: bytes) returns (ok: bool)
    requires chars == Reversed(t)
    ensures ok == WellFormedLong(t)
  {
    var n := |chars|;
    if n > 1 {
      if chars[n - 1] % 32 != 31 { return false; }
      var ii := 1;
      while ii < n - 1
        invariant 1 <= ii <= n - 1
        invariant forall j :: n - 1 - ii < j < n - 1 ==> t[j] >= 0x80
      {
        if chars[ii] < 0x80 {
          assert t[n - 1 - ii] < 0x80;
          return false;
        }
        ii := ii + 1;
      }
      if chars[0] >= 0x80 { return false; }
    }
    return true;
  }

  /** sc_asn1_put_tag. Without data only the header is written; with no room at all the size is
      returned. `ptr` is the place of the next element. */
  method PutTag(tag: nat, data: Option<bytes>, datalen: nat, out: array?<u8>) returns (r: int, ptr: nat)
    requires data.Some? ==> |data.value| == datalen
    modifies out
    ensures var size := |TagOctets(tag)| + |LenOctets(datalen)| + datalen;
      if tag == 0 || tag >= TWO_32 || !WellFormedLong(TagOctets(tag)) then r == SC_ERROR_INVALID_DATA
      else if out == null || out.Length == 0 then r == size
      else if out.Length < size then r == SC_ERROR_BUFFER_TOO_SMALL
      else r == SC_SUCCESS
    ensures out != null && r != SC_SUCCESS ==> out[..] == old(out[..])
    ensures r == SC_SUCCESS ==>
      var written := TagOctets(tag) + LenOctets(datalen) + (if data.Some? then data.value else []);
      && out != null && ptr == |written| <= out.Length
      && out[..ptr] == written && out[ptr..] == old(out[ptr..])
  {
    hide Width, ToBe, LenOctets, WellFormedLong, TagOctets;
    ptr := 0;
    if tag == 0 || tag >= TWO_32 { return SC_ERROR_INVALID_DATA, ptr; }
    var chars := TagChars(tag);
    var ok := CheckLong(chars, TagOctets(tag));
    if !ok { return SC_ERROR_INVALID_DATA, ptr; }
    var c := CountLenOctets(datalen);
    if out == null || out.Length == 0 { return |chars| + (c + 1) + datalen, ptr; }
    if out.Length < |chars| + (c + 1) + datalen { return SC_ERROR_BUFFER_TOO_SMALL, ptr; }
    assert Reversed(chars) == TagOctets(tag);
    ptr := StoreHeader(out, Reversed(chars), datalen);
    if data.Some? && datalen > 0 {
      assert old(out[ptr..])[datalen..] == old(out[ptr + datalen..]) && out[ptr..][datalen..] == out[ptr + datalen..];
      Copy(out, ptr, data.value);
      assert out[..ptr + datalen] == out[..ptr] + out[ptr..ptr + datalen];
      ptr := ptr + datalen;
    }
    r := SC_SUCCESS;
  }

  // ----- asn1_write_element -----

  const CLASS_CONS_UNIT := 0x2000_0000
  const TAG_MASK_UNIT := 0x100_0000

  /** The 24-bit tag number of an engine tag, as octets; a zero number still takes one. */
  function ShortTag(tag: nat): (t: bytes)
    ensures t != []
  {
    var short := tag % TAG_MASK_UNIT;
    if short == 0 then [0] else TagOctets(short)
  }

  /** The identifier octets for an engine tag: class and constructed bits (the top three of 32) go
      into the first octet. */
  function WireTag(tag: nat): (t: bytes)
    requires tag < TWO_32
    ensures |t| == |ShortTag(tag)|
  {
    [tag / CLASS_CONS_UNIT * 32 + ShortTag(tag)[0] % 32] + ShortTag(tag)[1..]
  }

  /** None stands for SC_ERROR_INVALID_DATA. */
  function WriteElement(tag: nat, data: bytes): Option<bytes>
    requires tag < TWO_32
  {
    if WellFormedLong(ShortTag(tag)) then Some(Element(WireTag(tag), data)) else None
  }

  method WriteElementBytes(tag: nat, data: bytes) returns (r: int, out: array?<u8>)
    requires tag < TWO_32
    ensures r == if WriteElement(tag, data).Some? then SC_SUCCESS else SC_ERROR_INVALID_DATA
    ensures r == SC_SUCCESS ==> out != null && fresh(out) && Some(out[..]) == WriteElement(tag, data)
  {
    hide LenOctets, ToBe, Width, WellFormedLong;
    var chars := TagChars(tag % TAG_MASK_UNIT);
    if |chars| == 0 { chars := [0]; }
    assert chars == Reversed(ShortTag(tag));
    var ok := CheckLong(chars, ShortTag(tag));
    if !ok { return SC_ERROR_INVALID_DATA, null; }
    var id := Reversed(chars);
    assert id == ShortTag(tag);
    id := [tag / CLASS_CONS_UNIT * 32 + id[0] % 32] + id[1..];
    var c := CountLenOctets(|data|);
    var buf := new u8[|id| + 1 + c + |data|];
    var p := StoreHeader(buf, id, |data|);
    if |data| > 0 { Copy(buf, p, data); }
    assert buf[..] == buf[..p] + buf[p..p + |data|];
    return SC_SUCCESS, buf;
  }
}
