/** Base64 (section 4 of RFC 4648) as `OpenSC/src/libopensc/base64.c` writes and reads it. */
module Base64 {
  import opened Octets

  const PAD: u8 := 61
  const LF: u8 := 10
  const CR: u8 := 13

  // ----- the alphabet -----

  /** base64_table */
  function Char(v: nat): u8
    requires v < 64
  {
    if v < 26 then 65 + v else if v < 52 then 71 + v else if v < 62 then v - 4 else if v == 62 then 43 else 47
  }

  const IS_PAD := 0xC0
  const IS_BREAK := 0xD0

  /** bin_table: values up to 0x3F are digits. */
  function Bin(k: u8): nat
    requires k < 128
  {
    if 65 <= k <= 90 then k - 65
    else if 97 <= k <= 122 then k - 71
    else if 48 <= k <= 57 then k + 4
    else if k == 43 then 0x3E
    else if k == 47 then 0x3F
    else if k == PAD then IS_PAD
    else if k == LF || k == CR then IS_BREAK
    else if k == 9 || k == 32 then 0xE0
    else if k == 45 then 0xF2
    else 0xFF
  }

  lemma CharIsDigit(v: nat)
    requires v < 64
    ensures Char(v) < 128 && Bin(Char(v)) == v && Char(v) != PAD && !IsBreak(Char(v)) && Char(v) != 0
  {
  }

  predicate IsBreak(k: u8) {
    k == LF || k == CR
  }

  // ----- what is written -----

  /** The 24-bit number of three octets. */
  function Number(a: u8, b: u8, c: u8): nat {
    (a as nat) * 65536 + (b as nat) * 256 + c
  }

  /** Digit number c of four, the last `fillers` of them replaced. */
  function DigitAt(i: nat, c: nat, fillers: nat): u8
    requires c < 4
  {
    if fillers >= 4 - c then PAD
    else Char((if c == 0 then i / 262144 else if c == 1 then i / 4096 else if c == 2 then i / 64 else i) % 64)
  }

  function Quad(i: nat, fillers: nat): (q: bytes)
    ensures |q| == 4
  {
    [DigitAt(i, 0, fillers), DigitAt(i, 1, fillers), DigitAt(i, 2, fillers), DigitAt(i, 3, fillers)]
  }

  /** The digits of x with their padding. */
  function Digits(x: bytes): bytes {
    if |x| >= 3 then Quad(Number(x[0], x[1], x[2]), 0) + Digits(x[3..])
    else if |x| == 2 then Quad(Number(x[0], x[1], 0), 1)
    else if |x| == 1 then Quad(Number(x[0], 0, 0), 2)
    else []
  }

  /** Text in lines of n characters, each line ended; no lines at all when n is 0. */
  function Lines(t: bytes, n: nat): bytes {
    if n == 0 || t == [] then t
    else if |t| <= n then t + [LF]
    else t[..n] + [LF] + Lines(t[n..], n)
  }

  /** The line length is rounded down to whole groups. */
  function Whole(linelength: nat): (n: nat)
    ensures n % 4 == 0 && n <= linelength < n + 4
  {
    linelength - linelength % 4
  }

  function Text(x: bytes, linelength: nat): bytes {
    Lines(Digits(x), Whole(linelength))
  }

  lemma {:induction false} DigitsLength(x: bytes)
    ensures |Digits(x)| == (|x| + 2) / 3 * 4
  {
    hide DigitAt, Number;
    if |x| >= 3 {
      DigitsLength(x[3..]);
      assert |x| + 2 == (|x[3..]| + 2) + 3;
    }
  }

  function StartedLines(d: nat, n: nat): int {
    if n == 0 then 0 else (d + n - 1) / n
  }

  lemma {:induction false} LinesLength(t: bytes, n: nat)
    ensures |Lines(t, n)| == |t| + StartedLines(|t|, n)
  {
    if n > 0 {
      if |t| > n {
        LinesLength(t[n..], n);
        OneLineMore(|t|, n);
      } else if t != [] {
        DivUnique(|t| + n - 1, n, 1, |t| - 1);
      } else {
        DivUnique(n - 1, n, 0, n - 1);
      }
    }
  }

  lemma OneLineMore(d: nat, n: nat)
    requires 0 < n < d
    ensures StartedLines(d, n) == 1 + StartedLines(d - n, n)
  {
    var q, r := (d - 1) / n, (d - 1) % n;
    assert d - 1 == n * q + r;
    assert n * (q + 1) == n * q + n;
    DivUnique(d + n - 1, n, q + 1, r);
  }

  /** Four characters for every started group of three octets, one for every started line. */
  lemma {:induction false} TextLength(x: bytes, linelength: nat)
    ensures var d := (|x| + 2) / 3 * 4;
      |Text(x, linelength)| == d + StartedLines(d, Whole(linelength))
  {
    hide Whole, StartedLines;
    DigitsLength(x);
    LinesLength(Digits(x), Whole(linelength));
  }

  // ----- what is read -----

  /** One group: the number of octets in it, the 24-bit number, and the text left. */
  datatype Group = EndOfText | BadChar | Group(r: nat, i: nat, rest: bytes)

  predicate Terminated(t: bytes) {
    t != [] && t[|t| - 1] == 0
  }

  /** c digits have been read and make up the upper part of res. */
  function ReadGroup(t: bytes, c: nat, res: nat): (g: Group)
    requires Terminated(t) && c <= 4
    ensures g.Group? ==> g.r <= 3 && Terminated(g.rest) && |g.rest| <= |t| && (g.r > 0 && c == 0 ==> |g.rest| < |t|)
    decreases |t|
  {
    if c == 4 then Group(3, res, t)
    else
      var k := t[0];
      if k >= 128 then BadChar
      else if k == 0 && c == 0 then EndOfText
      else if Bin(k) == IS_PAD then Group(c * 6 / 8, res, t)
      else if Bin(k) == IS_BREAK then ReadGroup(t[1..], c, res)
      else if Bin(k) > 0x3F then BadChar
      else ReadGroup(t[1..], c + 1, res + Shifted(Bin(k), c))
  }

  function Shifted(b: nat, c: nat): nat
    requires c < 4
  {
    if c == 0 then b * 262144 else if c == 1 then b * 4096 else if c == 2 then b * 64 else b
  }

  datatype Result = Ok(b: bytes) | TooSmall | Invalid

  /** The first r of the three octets of i. */
  function OctetsOf(i: nat, r: nat): (b: bytes)
    requires r <= 3
    ensures |b| == r
  {
    [i / 65536 % 256, i / 256 % 256, i % 256][..r]
  }

  /** The text up to its end or to the first padding, into `room` octets. */
  function Decode(t: bytes, room: nat): Result
    requires Terminated(t)
    decreases |t|
  {
    match ReadGroup(t, 0, 0)
    case EndOfText => Ok([])
    case BadChar => Invalid
    case Group(r, i, rest) =>
      if r == 0 then Ok([])
      else if r > room then TooSmall
      else if r < 3 || rest[0] == 0 then Ok(OctetsOf(i, r))
      else Prepend(OctetsOf(i, r), Decode(rest, room - r))
  }

  function Prepend(b: bytes, d: Result): Result {
    if d.Ok? then Ok(b + d.b) else d
  }

  // ----- line breaks do not matter -----

  function Unbroken(t: bytes): bytes {
    if t == [] then [] else if IsBreak(t[0]) then Unbroken(t[1..]) else [t[0]] + Unbroken(t[1..])
  }

  lemma {:induction false} UnbrokenTerminated(t: bytes)
    requires Terminated(t)
    ensures Terminated(Unbroken(t)) && |Unbroken(t)| <= |t|
  {
    if |t| > 1 {
      UnbrokenTerminated(t[1..]);
    } else {
      assert t[1..] == [];
    }
  }

  lemma {:induction false} GroupUnbroken(t: bytes, c: nat, res: nat)
    requires Terminated(t) && c <= 4 && Terminated(Unbroken(t))
    ensures ReadGroup(Unbroken(t), c, res)
      == match ReadGroup(t, c, res)
         case Group(r, i, rest) => Group(r, i, Unbroken(rest))
         case g => g
    decreases |t|
  {
    hide Shifted, Bin, ReadGroup, Unbroken;
    ZeroIsNoDigit();
    Breaks(t);
    if c == 4 || !Goes(t[0]) {
      LastStep(t, c, res);
      LastStep(Unbroken(t), c, res);
    } else {
      UnbrokenTerminated(t[1..]);
      if Bin(t[0]) == IS_BREAK {
        BreakStep(t, c, res);
        GroupUnbroken(t[1..], c, res);
      } else {
        DigitStep(t, c, res);
        DigitStep(Unbroken(t), c, res);
        GroupUnbroken(t[1..], c + 1, res + Shifted(Bin(t[0]), c));
      }
    }
  }

  /** A character with which reading a group goes on. */
  predicate Goes(k: u8) {
    0 < k < 128 && (Bin(k) == IS_BREAK || Bin(k) <= 0x3F)
  }

  lemma LastStep(t: bytes, c: nat, res: nat)
    requires Terminated(t) && c <= 4 && (c == 4 || !Goes(t[0]))
    ensures c == 4 ==> ReadGroup(t, c, res) == Group(3, res, t)
    ensures c < 4 && !Goes(t[0]) ==>
      ReadGroup(t, c, res) == if t[0] == PAD then Group(c * 6 / 8, res, t) else if t[0] == 0 && c == 0 then EndOfText else BadChar
  {
  }

  lemma BreakStep(t: bytes, c: nat, res: nat)
    requires Terminated(t) && c < 4 && t[0] < 128 && Bin(t[0]) == IS_BREAK
    ensures Terminated(t[1..]) && ReadGroup(t, c, res) == ReadGroup(t[1..], c, res)
  {
  }

  lemma DigitStep(t: bytes, c: nat, res: nat)
    requires Terminated(t) && c < 4 && 0 < t[0] < 128 && Bin(t[0]) <= 0x3F
    ensures Terminated(t[1..]) && ReadGroup(t, c, res) == ReadGroup(t[1..], c + 1, res + Shifted(Bin(t[0]), c))
  {
  }

  /** Unbroken, one character at a time. */
  lemma Breaks(t: bytes)
    requires Terminated(t)
    ensures t[0] < 128 && Bin(t[0]) == IS_BREAK ==> |t| > 1 && Unbroken(t) == Unbroken(t[1..])
    ensures t[0] >= 128 || Bin(t[0]) != IS_BREAK ==>
      Unbroken(t) != [] && Unbroken(t)[0] == t[0] && Unbroken(t)[1..] == Unbroken(t[1..])
  {
    assert t[0] < 128 ==> (Bin(t[0]) == IS_BREAK <==> IsBreak(t[0]));
    var u := Unbroken(t[1..]);
    assert ([t[0]] + u)[1..] == u;
    hide Bin;
  }

  /** Carriage returns and newlines, wherever they stand, make no difference to the decoder. */
  lemma {:induction false} BreaksIgnored(t: bytes, room: nat)
    requires Terminated(t)
    ensures Terminated(Unbroken(t)) && Decode(t, room) == Decode(Unbroken(t), room)
    decreases |t|
  {
    hide ReadGroup, OctetsOf, Bin;
    UnbrokenTerminated(t);
    GroupUnbroken(t, 0, 0);
    match ReadGroup(t, 0, 0)
    case Group(r, i, rest) =>
      UnbrokenTerminated(rest);
      Breaks(rest);
      if r == 3 <= room && rest[0] != 0 {
        BreaksIgnored(rest, room - r);
        AtEnd(Unbroken(rest), room - r);
      }
    case _ =>
  }

  lemma AtEnd(t: bytes, room: nat)
    requires Terminated(t)
    ensures t[0] == 0 ==> Decode(t, room) == Ok([])
  {
  }

  // ----- the round trip -----

  /** The digits of a 24-bit number and the number in them. */
  lemma DigitSum(i: nat)
    requires i < 0x100_0000
    ensures i / 262144 < 64
    ensures i == Shifted(i / 262144 % 64, 0) + Shifted(i / 4096 % 64, 1) + Shifted(i / 64 % 64, 2) + Shifted(i % 64, 3)
  {
    var a, b := i / 64, i / 4096;
    assert b == a / 64 && i / 262144 == b / 64;
    assert a == 64 * b + a % 64 && b == 64 * (b / 64) + b % 64;
  }

  lemma NextDigit(v: nat, t: bytes, c: nat, res: nat)
    requires v < 64 && Terminated(t) && c < 4
    ensures Terminated([Char(v)] + t) && ReadGroup([Char(v)] + t, c, res) == ReadGroup(t, c + 1, res + Shifted(v, c))
  {
    CharIsDigit(v);
    assert ([Char(v)] + t)[1..] == t;
    hide Char, Bin;
    DigitStep([Char(v)] + t, c, res);
  }

  lemma TwoDigits(d0: nat, d1: nat, t: bytes)
    requires d0 < 64 && d1 < 64 && Terminated(t)
    ensures Terminated([Char(d0), Char(d1)] + t)
    ensures ReadGroup([Char(d0), Char(d1)] + t, 0, 0) == ReadGroup(t, 2, Shifted(d0, 0) + Shifted(d1, 1))
  {
    hide Shifted, ReadGroup, Char;
    NextDigit(d1, t, 1, Shifted(d0, 0));
    NextDigit(d0, [Char(d1)] + t, 0, 0);
    assert [Char(d0), Char(d1)] + t == [Char(d0)] + ([Char(d1)] + t);
  }

  lemma FullGroup(d2: nat, d3: nat, rest: bytes, res: nat)
    requires d2 < 64 && d3 < 64 && Terminated(rest)
    ensures Terminated([Char(d2), Char(d3)] + rest)
    ensures ReadGroup([Char(d2), Char(d3)] + rest, 2, res) == Group(3, res + Shifted(d2, 2) + Shifted(d3, 3), rest)
  {
    hide Shifted, Char;
    NextDigit(d3, rest, 3, res + Shifted(d2, 2));
    NextDigit(d2, [Char(d3)] + rest, 2, res);
    assert [Char(d2), Char(d3)] + rest == [Char(d2)] + ([Char(d3)] + rest);
  }

  lemma OnePad(d2: nat, res: nat)
    requires d2 < 64
    ensures ReadGroup([Char(d2), PAD, 0], 2, res) == Group(2, res + Shifted(d2, 2), [PAD, 0])
  {
    hide Shifted, Char;
    NextDigit(d2, [PAD, 0], 2, res);
    assert [Char(d2), PAD, 0] == [Char(d2)] + [PAD, 0];
  }

  lemma QuadIs(i: nat)
    requires i < 0x100_0000
    ensures Quad(i, 0) == [Char(i / 262144 % 64), Char(i / 4096 % 64), Char(i / 64 % 64), Char(i % 64)]
  {
    hide Char;
  }

  /** A full group is read back whatever follows it. */
  lemma QuadRead(i: nat, rest: bytes)
    requires i < 0x100_0000 && Terminated(rest)
    ensures Terminated(Quad(i, 0) + rest) && ReadGroup(Quad(i, 0) + rest, 0, 0) == Group(3, i, rest)
  {
    hide Shifted, Char, Quad, ReadGroup, Terminated;
    DigitSum(i);
    var d0, d1, d2, d3 := i / 262144 % 64, i / 4096 % 64, i / 64 % 64, i % 64;
    QuadIs(i);
    assert [Char(d0), Char(d1), Char(d2), Char(d3)] + rest == [Char(d0), Char(d1)] + ([Char(d2), Char(d3)] + rest);
    FullGroup(d2, d3, rest, Shifted(d0, 0) + Shifted(d1, 1));
    TwoDigits(d0, d1, [Char(d2), Char(d3)] + rest);
  }

  /** A number of two or of one octets has no more digits than are written. */
  lemma ShortSum(i: nat, fillers: nat)
    requires i < 0x100_0000 && ((fillers == 1 && i % 256 == 0) || (fillers == 2 && i % 65536 == 0))
    ensures i == Shifted(i / 262144 % 64, 0) + Shifted(i / 4096 % 64, 1) + (if fillers == 1 then Shifted(i / 64 % 64, 2) else 0)
  {
    DigitSum(i);
    var m := i / 64;
    if fillers == 1 {
      DivUnique(i, 64, 4 * (i / 256), 0);
    } else {
      var k := i / 65536;
      DivUnique(i, 64, 1024 * k, 0);
      DivUnique(m, 64, 16 * k, 0);
    }
    ZeroDigits();
    hide Shifted;
  }

  lemma ZeroDigits()
    ensures Shifted(0, 2) == 0 && Shifted(0, 3) == 0
  {
  }

  /** Groups with padding, at the end of the text. */
  lemma PaddedRead(i: nat, fillers: nat)
    requires i < 0x100_0000 && ((fillers == 1 && i % 256 == 0) || (fillers == 2 && i % 65536 == 0))
    ensures Terminated(Quad(i, fillers) + [0])
    ensures var g := ReadGroup(Quad(i, fillers) + [0], 0, 0); g.Group? && g.r == 3 - fillers && g.i == i
  {
    ShortSum(i, fillers);
    var d0, d1, d2 := i / 262144 % 64, i / 4096 % 64, i / 64 % 64;
    hide Shifted, Char;
    if fillers == 1 {
      assert Quad(i, fillers) == [Char(d0), Char(d1), Char(d2), PAD];
      assert [Char(d0), Char(d1), Char(d2), PAD] + [0] == [Char(d0), Char(d1)] + [Char(d2), PAD, 0];
      hide Quad, ReadGroup;
      OnePad(d2, Shifted(d0, 0) + Shifted(d1, 1));
      TwoDigits(d0, d1, [Char(d2), PAD, 0]);
    } else {
      assert Quad(i, fillers) == [Char(d0), Char(d1), PAD, PAD];
      assert [Char(d0), Char(d1), PAD, PAD] + [0] == [Char(d0), Char(d1)] + [PAD, PAD, 0];
      hide Quad, ReadGroup;
      TwoPads(Shifted(d0, 0) + Shifted(d1, 1));
      TwoDigits(d0, d1, [PAD, PAD, 0]);
    }
  }

  lemma TwoPads(res: nat)
    ensures ReadGroup([PAD, PAD, 0], 2, res) == Group(1, res, [PAD, PAD, 0])
  {
  }

  lemma OctetsOfNumber(n: nat, a: u8, b: u8, c: u8)
    requires n == Number(a, b, c)
    ensures n < 0x100_0000 && OctetsOf(n, 3) == [a, b, c]
    ensures c == 0 ==> n % 256 == 0 && OctetsOf(n, 2) == [a, b]
    ensures b == 0 && c == 0 ==> n % 65536 == 0 && OctetsOf(n, 1) == [a]
  {
    assert n / 65536 == a && n % 256 == c;
    assert n / 256 == (a as nat) * 256 + b;
    var m := n / 256;
    assert m % 256 == b;
  }

  /** The decoder undoes the encoder on text without line breaks. */
  lemma {:induction false} DigitsRead(x: bytes, room: nat)
    ensures Terminated(Digits(x) + [0])
    ensures Decode(Digits(x) + [0], room) == if |x| <= room then Ok(x) else TooSmall
  {
    hide Quad, ReadGroup, OctetsOf, Number;
    if |x| >= 3 {
      DigitsRead(x[3..], if room >= 3 then room - 3 else 0);
      GroupFirst(x, room);
    } else if |x| == 2 {
      OctetsOfNumber(Number(x[0], x[1], 0), x[0], x[1], 0);
      PaddedRead(Number(x[0], x[1], 0), 1);
      assert x == [x[0], x[1]];
    } else if |x| == 1 {
      OctetsOfNumber(Number(x[0], 0, 0), x[0], 0, 0);
      PaddedRead(Number(x[0], 0, 0), 2);
      assert x == [x[0]];
    } else {
      assert Digits(x) + [0] == [0];
      AtEnd([0], room);
    }
  }

  lemma GroupFirst(x: bytes, room: nat)
    requires |x| >= 3 && Terminated(Digits(x[3..]) + [0])
    ensures Terminated(Digits(x) + [0])
    ensures Decode(Digits(x) + [0], room)
      == if room < 3 then TooSmall
         else if |x| == 3 then Ok(x)
         else Prepend(x[..3], Decode(Digits(x[3..]) + [0], room - 3))
  {
    hide Quad, ReadGroup, OctetsOf, Number, Char;
    var rest, i := Digits(x[3..]) + [0], Number(x[0], x[1], x[2]);
    RestStarts(x[3..]);
    OctetsOfNumber(i, x[0], x[1], x[2]);
    QuadRead(i, rest);
    assert Digits(x) + [0] == Quad(i, 0) + rest;
    assert x[..3] == [x[0], x[1], x[2]];
  }

  lemma RestStarts(x: bytes)
    ensures (Digits(x) + [0])[0] == 0 <==> x == []
  {
    hide Char;
    if x != [] {
      var i := if |x| >= 3 then Number(x[0], x[1], x[2]) else if |x| == 2 then Number(x[0], x[1], 0) else Number(x[0], 0, 0);
      CharIsDigit(i / 262144 % 64);
      assert (Digits(x) + [0])[0] == Char(i / 262144 % 64);
    }
  }

  predicate Clean(t: bytes) {
    forall k :: 0 <= k < |t| ==> t[k] != 0 && !IsBreak(t[k])
  }

  lemma QuadClean(i: nat, fillers: nat)
    ensures Clean(Quad(i, fillers))
  {
    CharIsDigit(i / 262144 % 64);
    CharIsDigit(i / 4096 % 64);
    CharIsDigit(i / 64 % 64);
    CharIsDigit(i % 64);
    hide Char, Bin;
  }

  lemma {:induction false} DigitsClean(x: bytes)
    ensures Clean(Digits(x))
  {
    hide Quad, Number;
    if |x| >= 3 {
      DigitsClean(x[3..]);
      QuadClean(Number(x[0], x[1], x[2]), 0);
    } else if |x| == 2 {
      QuadClean(Number(x[0], x[1], 0), 1);
    } else if |x| == 1 {
      QuadClean(Number(x[0], 0, 0), 2);
    }
  }

  lemma {:induction false} UnbrokenClean(t: bytes, u: bytes)
    requires Clean(t)
    ensures Unbroken(t + u) == t + Unbroken(u)
  {
    if t == [] {
      assert t + u == u;
    } else {
      UnbrokenClean(t[1..], u);
      assert (t + u)[1..] == t[1..] + u && !IsBreak((t + u)[0]);
    }
  }

  /** Without its line breaks the text is what it was before. */
  lemma {:induction false} UnbrokenLines(t: bytes, n: nat, u: bytes)
    requires Clean(t)
    ensures Unbroken(Lines(t, n) + u) == t + Unbroken(u)
  {
    if n == 0 || t == [] {
      UnbrokenClean(t, u);
    } else if |t| <= n {
      UnbrokenLine(t, u);
    } else {
      var rest := Lines(t[n..], n);
      assert Lines(t, n) + u == t[..n] + [LF] + (rest + u);
      hide Unbroken, Lines;
      UnbrokenLines(t[n..], n, u);
      UnbrokenLine(t[..n], rest + u);
      assert t[..n] + (t[n..] + Unbroken(u)) == t[..n] + t[n..] + Unbroken(u);
      assert t == t[..n] + t[n..];
    }
  }

  lemma UnbrokenLine(t: bytes, u: bytes)
    requires Clean(t)
    ensures Unbroken(t + [LF] + u) == t + Unbroken(u)
  {
    UnbrokenClean(t, [LF] + u);
    assert t + [LF] + u == t + ([LF] + u);
    assert ([LF] + u)[1..] == u;
  }

  /** sc_base64_decode gives back what sc_base64_encode was given, for every line length, if and only
      if there is room for it. */
  lemma {:induction false} RoundTrip(x: bytes, linelength: nat, room: nat)
    ensures Terminated(Text(x, linelength) + [0])
    ensures Decode(Text(x, linelength) + [0], room) == if |x| <= room then Ok(x) else TooSmall
  {
    hide Decode, Lines, Digits, Unbroken;
    DigitsClean(x);
    UnbrokenLines(Digits(x), Whole(linelength), [0]);
    assert Unbroken([0]) == [0] by { LoneZero(); }
    BreaksIgnored(Text(x, linelength) + [0], room);
    DigitsRead(x, room);
  }

  lemma LoneZero()
    ensures Unbroken([0]) == [0]
  {
    assert [0][1..] == [] && Unbroken([]) == [];
  }

  // ----- the alphabet and the text in its own terms -----

  /** A to Z, a to z, 0 to 9, plus and slash, in this order; nothing else is a digit. */
  lemma {:induction false} Alphabet(v: nat, k: u8)
    requires v < 64
    ensures Char(0) == 65 && Char(25) == 90 && Char(26) == 97 && Char(51) == 122 && Char(52) == 48 && Char(61) == 57
    ensures Char(62) == 43 && Char(63) == 47 && (v !in {25, 51, 61, 62, 63} ==> Char(v + 1) == Char(v) + 1)
    ensures k < 128 && Bin(k) <= 0x3F ==> Char(Bin(k)) == k
    ensures k < 128 && (forall w :: 0 <= w < 64 ==> Char(w) != k) ==> Bin(k) > 0x3F
    ensures k < 128 ==> (Bin(k) == IS_PAD <==> k == PAD) && (Bin(k) == IS_BREAK <==> IsBreak(k))
  {
  }

  /** Three octets are four digits in base 64, both most significant first. */
  lemma {:induction false} QuadMeans(a: u8, b: u8, c: u8)
    ensures var i := Number(a, b, c);
      var v0, v1, v2, v3 := i / 262144, i / 4096 % 64, i / 64 % 64, i % 64;
      && i == Be([a, b, c]) && v0 < 64 && i == ((v0 * 64 + v1) * 64 + v2) * 64 + v3
      && Quad(i, 0) == [Char(v0), Char(v1), Char(v2), Char(v3)]
      && Quad(i, 1) == [Char(v0), Char(v1), Char(v2), PAD] && Quad(i, 2) == [Char(v0), Char(v1), PAD, PAD]
      && OctetsOf(i, 3) == [a, b, c] && OctetsOf(i, 2) == [a, b] && OctetsOf(i, 1) == [a]
  {
    hide Char;
    var i := Number(a, b, c);
    BeAppend([], a);
    BeAppend([a], b);
    BeAppend([a, b], c);
    assert [] + [a] == [a] && [a] + [b] == [a, b] && [a, b] + [c] == [a, b, c];
    DigitSum(i);
    DivUnique(i / 262144, 64, 0, i / 262144);
    DivUnique(i, 65536, a, b as int * 256 + c);
    DivUnique(i, 256, a as int * 256 + b, c);
    DivUnique(a as int * 256 + b, 256, a, b);
    DivUnique(a, 256, 0, a);
  }

  /** Character r of line q: the line end stands after n characters, or behind all the text. */
  lemma {:induction false} LineEnds(t: bytes, n: nat, q: nat, r: nat)
    requires n > 0 && r <= n && (n + 1) * q + r < |Lines(t, n)|
    ensures var l, k := Lines(t, n), (n + 1) * q + r;
      if r == n || k == |l| - 1 then l[k] == LF else 0 <= n * q + r < |t| && l[k] == t[n * q + r]
    ensures Lines(t, 0) == t
    decreases q
  {
    if q > 0 {
      assert (n + 1) * q == (n + 1) * (q - 1) + (n + 1) && n * q == n * (q - 1) + n;
      if |t| > n {
        LineEnds(t[n..], n, q - 1, r);
        assert Lines(t, n)[n + 1..] == Lines(t[n..], n);
      } else {
        NoSecondLine(n, q);
      }
    }
  }

  lemma NoSecondLine(n: nat, q: nat)
    requires q > 0
    ensures (n + 1) * q >= n + 1
  {
  }

  // ----- what the decoder accepts -----

  predicate IsDigit(k: u8) {
    k < 128 && Bin(k) <= 0x3F
  }

  /** The number of digits in front. */
  function Run(t: bytes): (l: nat)
    ensures l <= |t| && (l < |t| ==> !IsDigit(t[l])) && forall j :: 0 <= j < l ==> IsDigit(t[j])
  {
    if t != [] && IsDigit(t[0]) then 1 + Run(t[1..]) else 0
  }

  /** The number of the first d digits, which stand in the upper part of 24 bits. */
  function Value(t: bytes, d: nat): nat
    requires d <= |t| && d <= 4 && forall j :: 0 <= j < d ==> IsDigit(t[j])
  {
    if d == 0 then 0 else assert IsDigit(t[d - 1]); Value(t, d - 1) + Shifted(Bin(t[d - 1]), d - 1)
  }

  /** How many octets of a last group of d digits are whole, when padding follows. */
  function Partial(d: nat): nat {
    if d == 2 then 1 else if d == 3 then 2 else 0
  }

  /** What the digits in front spell. */
  function Spelled(t: bytes): bytes {
    var l := Run(t);
    if l >= 4 then OctetsOf(Value(t, 4), 3) + Spelled(t[4..])
    else if l < |t| && t[l] == PAD then OctetsOf(Value(t, l), Partial(l))
    else []
  }

  lemma {:induction false} UnbrokenIs(t: bytes)
    ensures forall j :: 0 <= j < |Unbroken(t)| ==> !IsBreak(Unbroken(t)[j])
  {
    if t != [] { UnbrokenIs(t[1..]); }
  }

  lemma DigitGoes(k: u8)
    ensures IsDigit(k) ==> 0 < k < 128 && Goes(k) && Bin(k) <= 0x3F && k != PAD
    ensures !IsDigit(k) && !IsBreak(k) ==> !Goes(k)
  {
  }

  /** One group of a text without line breaks. */
  lemma {:induction false} GroupExactly(u: bytes, d: nat)
    requires Terminated(u) && (forall j :: 0 <= j < |u| ==> !IsBreak(u[j])) && d <= 4 && d <= Run(u)
    ensures Run(u) < |u| && Terminated(u[d..])
    ensures var l := Run(u);
      ReadGroup(u[d..], d, Value(u, d))
        == if l >= 4 then Group(3, Value(u, 4), u[4..])
           else if u[l] == PAD then Group(Partial(l), Value(u, l), u[l..])
           else if u[l] == 0 && l == 0 then EndOfText
           else BadChar
    decreases 4 - d
  {
    hide Bin, Shifted, ReadGroup, IsDigit, Goes, Run;
    var l := Run(u);
    DigitGoes(u[|u| - 1]);
    assert !IsDigit(u[|u| - 1]);
    DigitGoes(u[d]);
    if d < 4 && d < l {
      GroupExactly(u, d + 1);
      DigitStep(u[d..], d, Value(u, d));
      assert u[d..][1..] == u[d + 1..];
    } else {
      LastStep(u[d..], d, Value(u, d));
    }
  }

  lemma GroupInFront(u: bytes)
    requires Terminated(u) && forall j :: 0 <= j < |u| ==> !IsBreak(u[j])
    ensures Run(u) < |u|
    ensures var l := Run(u);
      ReadGroup(u, 0, 0)
        == if l >= 4 then Group(3, Value(u, 4), u[4..])
           else if u[l] == PAD then Group(Partial(l), Value(u, l), u[l..])
           else if u[l] == 0 && l == 0 then EndOfText
           else BadChar
  {
    hide ReadGroup, Run;
    GroupExactly(u, 0);
    assert u[0..] == u && Value(u, 0) == 0;
  }

  /** The result for a text whose run of digits has length l and is followed by the character k. */
  function Reading(t: bytes, room: nat): Result
    requires Run(t) < |t|
  {
    var l := Run(t);
    var k, whole := t[l], l / 4 * 3;
    if room < whole then TooSmall
    else if k != PAD && (k != 0 || l % 4 != 0) then Invalid
    else if k == PAD && room < whole + Partial(l % 4) then TooSmall
    else Ok(Spelled(t))
  }

  /** The decoder, on any text and with any room: line breaks aside, what is read is the run of digits
      in front. It has to end in padding, or with the text after a whole group; what follows padding is
      not looked at. Lack of room is noticed before what is behind the octets that fit. */
  lemma {:induction false} DecodeExactly(t: bytes, room: nat)
    requires Terminated(t)
    ensures var u := Unbroken(t);
      Run(u) < |u| && Decode(t, room) == Reading(u, room)
      && |Spelled(u)| == Run(u) / 4 * 3 + if u[Run(u)] == PAD then Partial(Run(u) % 4) else 0
  {
    BreaksIgnored(t, room);
    UnbrokenIs(t);
    ReadingIs(Unbroken(t), room);
  }

  lemma {:induction false} ReadingIs(u: bytes, room: nat)
    requires Terminated(u) && forall j :: 0 <= j < |u| ==> !IsBreak(u[j])
    ensures Run(u) < |u| && Decode(u, room) == Reading(u, room)
    ensures |Spelled(u)| == Run(u) / 4 * 3 + if u[Run(u)] == PAD then Partial(Run(u) % 4) else 0
    decreases |u|
  {
    hide ReadGroup, OctetsOf, Value, Run, Terminated, Decode, Reading, Spelled;
    GroupInFront(u);
    if Run(u) < 4 {
      LastReading(u, room);
    } else {
      RunOn(u);
      ReadingIs(u[4..], if room >= 3 then room - 3 else 0);
      OneGroupMore(u, room);
      GroupDecoded(u, room);
    }
  }

  lemma LastReading(u: bytes, room: nat)
    requires Terminated(u) && Run(u) < |u| && Run(u) < 4
    requires var l := Run(u);
      ReadGroup(u, 0, 0)
        == if u[l] == PAD then Group(Partial(l), Value(u, l), u[l..])
           else if u[l] == 0 && l == 0 then EndOfText
           else BadChar
    ensures Decode(u, room) == Reading(u, room)
    ensures |Spelled(u)| == if u[Run(u)] == PAD then Partial(Run(u)) else 0
  {
    hide ReadGroup, OctetsOf, Value, Run, Terminated;
  }

  lemma GroupDecoded(u: bytes, room: nat)
    requires Terminated(u) && Run(u) >= 4 && Terminated(u[4..]) && ReadGroup(u, 0, 0) == Group(3, Value(u, 4), u[4..])
    ensures Decode(u, room) == if room < 3 then TooSmall else Prepend(OctetsOf(Value(u, 4), 3), Decode(u[4..], room - 3))
  {
    hide ReadGroup, OctetsOf, Value;
    var x := OctetsOf(Value(u, 4), 3);
    assert x + [] == x;
    AtEnd(u[4..], if room >= 3 then room - 3 else 0);
  }

  lemma OneGroupMore(u: bytes, room: nat)
    requires 4 <= Run(u) < |u| && Run(u[4..]) == Run(u) - 4
    ensures Reading(u, room) == if room < 3 then TooSmall else Prepend(OctetsOf(Value(u, 4), 3), Reading(u[4..], room - 3))
    ensures Spelled(u) == OctetsOf(Value(u, 4), 3) + Spelled(u[4..])
    ensures Run(u) / 4 == (Run(u) - 4) / 4 + 1 && Run(u) % 4 == (Run(u) - 4) % 4
  {
    hide OctetsOf, Value, Run, Spelled, Reading;
    SpelledOn(u);
    FourLess(Run(u));
    OneGroupLess(u, room, Run(u) / 4, Run(u) % 4);
  }

  lemma FourLess(n: nat)
    requires n >= 4
    ensures n / 4 == (n - 4) / 4 + 1 >= 1 && n % 4 == (n - 4) % 4 && n == 4 * (n / 4) + n % 4
  {
    Parts(n - 4, 4);
    DivUnique(n, 4, (n - 4) / 4 + 1, (n - 4) % 4);
  }

  lemma OneGroupLess(u: bytes, room: nat, w: nat, m: nat)
    requires 4 <= Run(u) < |u| && Run(u[4..]) == Run(u) - 4 && Run(u) == 4 * w + m && m < 4
    requires Spelled(u) == OctetsOf(Value(u, 4), 3) + Spelled(u[4..])
    ensures Reading(u, room) == if room < 3 then TooSmall else Prepend(OctetsOf(Value(u, 4), 3), Reading(u[4..], room - 3))
  {
    hide OctetsOf, Value, Run, Spelled, Reading, Partial;
    ReadingOf(u, room, w, m);
    ReadingOf(u[4..], if room < 3 then 0 else room - 3, w - 1, m);
    assert u[4..][Run(u) - 4] == u[Run(u)];
  }

  lemma ReadingOf(u: bytes, room: nat, w: nat, m: nat)
    requires Run(u) < |u| && Run(u) == 4 * w + m && m < 4
    ensures Run(u) / 4 == w && Run(u) % 4 == m
    ensures var k := u[Run(u)];
      Reading(u, room)
        == if room < w * 3 then TooSmall
           else if k != PAD && (k != 0 || m != 0) then Invalid
           else if k == PAD && room < w * 3 + Partial(m) then TooSmall
           else Ok(Spelled(u))
  {
    hide Run, Spelled, Partial;
    DivUnique(Run(u), 4, w, m);
  }

  lemma SpelledOn(u: bytes)
    requires 4 <= Run(u) < |u| && Run(u[4..]) == Run(u) - 4
    ensures Spelled(u) == OctetsOf(Value(u, 4), 3) + Spelled(u[4..])
  {
  }

  lemma RunOn(u: bytes)
    requires Terminated(u) && Run(u) >= 4
    ensures Run(u[4..]) == Run(u) - 4 && Terminated(u[4..])
  {
    DigitGoes(u[|u| - 1]);
    assert !IsDigit(u[|u| - 1]);
    assert u[1..][1..] == u[2..] && u[2..][1..] == u[3..] && u[3..][1..] == u[4..];
    assert Run(u) == 1 + Run(u[1..]) && Run(u[1..]) == 1 + Run(u[2..]) && Run(u[2..]) == 1 + Run(u[3..]);
  }

  // ----- the functions of the library -----

  /** to_base64: four characters from place p on. */
  method ToBase64(i: nat, out: array<u8>, p: nat, fillers: nat)
    requires p + 4 <= out.Length
    modifies out
    ensures out[..p] == old(out[..p]) && out[p..p + 4] == Quad(i, fillers) && out[p + 4..] == old(out[p + 4..])
  {
    hide Char;
    var c, s := 0, 262144;
    ghost var q := Quad(i, fillers);
    while c < 4
      invariant 0 <= c <= 4
      invariant c < 4 ==> s == if c == 0 then 262144 else if c == 1 then 4096 else if c == 2 then 64 else 1
      invariant forall k :: 0 <= k < c ==> out[p + k] == q[k]
      invariant forall k :: 0 <= k < out.Length && !(p <= k < p + c) ==> out[k] == old(out[k])
    {
      out[p + c] := if fillers >= 4 - c then PAD else Char(i / s % 64);
      c, s := c + 1, s / 64;
    }
  }

  /** from_base64: -1 for a bad character; `skip` characters have been used. */
  method FromBase64(t: bytes) returns (r: int, i: nat, skip: nat)
    requires Terminated(t)
    ensures match ReadGroup(t, 0, 0)
      case EndOfText => r == 0
      case BadChar => r == -1
      case Group(n, v, rest) => r == n && i == v && skip <= |t| && t[skip..] == rest
  {
    hide Bin;
    i, skip := 0, 0;
    var c, s := 0, 262144;
    while c < 4
      invariant 0 <= c <= 4 && skip < |t| && Terminated(t[skip..])
      invariant c < 4 ==> s == if c == 0 then 262144 else if c == 1 then 4096 else if c == 2 then 64 else 1
      invariant ReadGroup(t, 0, 0) == ReadGroup(t[skip..], c, i)
      decreases |t| - skip
    {
      var k := t[skip];
      assert t[skip..][1..] == t[skip + 1..];
      if k >= 128 { return -1, i, skip; }
      if k == 0 && c == 0 { return 0, i, skip; }
      var b := Bin(k);
      if b == IS_PAD { return c * 6 / 8, i, skip; }
      if b != IS_BREAK {
        if b > 0x3F { return -1, i, skip; }
        i, s, c := i + b * s, s / 64, c + 1;
      }
      assert k != 0 by { ZeroIsNoDigit(); }
      skip := skip + 1;
    }
    r := 3;
  }

  lemma ZeroIsNoDigit()
    ensures Bin(0) == 0xFF
  {
  }

  lemma LineFull(cur: bytes, t: bytes, n: nat)
    requires |cur| == n > 0
    ensures Lines(cur + t, n) == cur + [LF] + Lines(t, n)
  {
    assert (cur + t)[..n] == cur && (cur + t)[n..] == t;
    assert t == [] ==> cur + t == cur && Lines(t, n) == [] && cur + [LF] + [] == cur + [LF];
  }

  /** The encoder between two groups: `done` are the lines ended, `cur` the line begun. */
  ghost predicate Encoding(x: bytes, n: nat, left: bytes, done: bytes, cur: bytes) {
    && n % 4 == 0 && |cur| % 4 == 0 && (n > 0 ==> |cur| < n)
    && Lines(Digits(x), n) == done + Lines(cur + Digits(left), n)
  }

  lemma LongEnough(x: bytes, n: nat, left: bytes, done: bytes, cur: bytes)
    requires Encoding(x, n, left, done, cur)
    ensures |Lines(Digits(x), n)| >= |done| + |cur| + (if left == [] then 0 else 4)
  {
    LinesLength(cur + Digits(left), n);
    DigitsLength(left);
    assert StartedLines(|cur + Digits(left)|, n) >= 0 by { Started(|cur + Digits(left)|, n); }
  }

  lemma Started(d: nat, n: nat)
    ensures StartedLines(d, n) >= 0
  {
  }

  lemma Fours(a: nat, n: nat)
    requires a % 4 == 0 && n % 4 == 0
    ensures (a + 4) % 4 == 0 && (a < n ==> a + 4 <= n)
  {
  }

  lemma FirstGroup(cur: bytes, left: bytes)
    requires |left| >= 3
    ensures cur + Digits(left) == (cur + Quad(Number(left[0], left[1], left[2]), 0)) + Digits(left[3..])
  {
    hide Quad, Number;
    var q, d := Quad(Number(left[0], left[1], left[2]), 0), Digits(left[3..]);
    assert cur + (q + d) == (cur + q) + d;
  }

  /** A full group is written and does not fill the line. */
  lemma GroupWritten(x: bytes, n: nat, left: bytes, done: bytes, cur: bytes)
    requires Encoding(x, n, left, done, cur) && |left| >= 3 && (n == 0 || |cur| + 4 < n)
    ensures Encoding(x, n, left[3..], done, cur + Quad(Number(left[0], left[1], left[2]), 0))
  {
    hide Quad, Number, Digits, Lines;
    FirstGroup(cur, left);
    Fours(|cur|, n);
  }

  /** A full group is written and fills the line, which is ended then. */
  lemma LineWritten(x: bytes, n: nat, left: bytes, done: bytes, cur: bytes)
    requires Encoding(x, n, left, done, cur) && |left| >= 3 && n > 0 && |cur| + 4 >= n
    ensures Encoding(x, n, left[3..], done + (cur + Quad(Number(left[0], left[1], left[2]), 0)) + [LF], [])
    ensures |Lines(Digits(x), n)| >= |done| + |cur| + 5
  {
    hide Quad, Number, Digits, Lines;
    var q, d := Quad(Number(left[0], left[1], left[2]), 0), Digits(left[3..]);
    FirstGroup(cur, left);
    Fours(|cur|, n);
    LineFull(cur + q, d, n);
    assert [] + d == d;
    assert done + ((cur + q) + [LF] + Lines(d, n)) == (done + (cur + q) + [LF]) + Lines(d, n);
  }

  /** The first p octets of a buffer have become `written`, the others are as they were. */
  predicate At(start: bytes, now: bytes, p: nat, written: bytes) {
    |start| == |now| && p <= |now| && now[..p] == written && now[p..] == start[p..]
  }

  method Put(out: array<u8>, p: nat, i: nat, fillers: nat, ghost start: bytes, ghost written: bytes)
    requires p + 4 <= out.Length && At(start, out[..], p, written)
    modifies out
    ensures At(start, out[..], p + 4, written + Quad(i, fillers))
  {
    ToBase64(i, out, p, fillers);
    assert out[..][..p + 4] == out[..p] + out[p..p + 4];
    assert out[..][p + 4..] == old(out[..])[p..][4..] == start[p..][4..] == start[p + 4..];
  }

  method PutChar(out: array<u8>, p: nat, k: u8, ghost start: bytes, ghost written: bytes)
    requires p < out.Length && At(start, out[..], p, written)
    modifies out
    ensures At(start, out[..], p + 1, written + [k])
  {
    out[p] := k;
    assert out[..][p + 1..] == old(out[..])[p..][1..] == start[p..][1..] == start[p + 1..];
    assert out[..][..p] == old(out[..])[..p];
  }

  /** The loop of sc_base64_encode over full groups: room for them and their line ends, or none. */
  method EncodeGroups(inp: bytes, out: array<u8>, n: nat)
    returns (ok: bool, left: bytes, p: nat, chars: nat, ghost done: bytes, ghost cur: bytes)
    requires n % 4 == 0
    modifies out
    ensures !ok ==> out.Length < |Lines(Digits(inp), n)|
    ensures ok ==>
      && Encoding(inp, n, left, done, cur) && |left| < 3 && chars == |cur| && p == |done + cur|
      && At(old(out[..]), out[..], p, done + cur)
  {
    hide Encoding, Number, Quad, Lines, Digits, At;
    ghost var start := out[..];
    left, p, chars, done, cur := inp, 0, 0, [], [];
    EncodingStarts(inp, n);
    AtStart(start);
    while |left| >= 3
      invariant Encoding(inp, n, left, done, cur) && chars == |cur| && p == |done + cur| <= out.Length
      invariant At(start, out[..], p, done + cur)
      decreases |left|
    {
      LongEnough(inp, n, left, done, cur);
      if out.Length - p < 4 {
        ok := false;
        return;
      }
      ghost var q := Quad(Number(left[0], left[1], left[2]), 0);
      Put(out, p, Number(left[0], left[1], left[2]), 0, start, done + cur);
      p, chars := p + 4, chars + 4;
      assert done + cur + q == done + (cur + q);
      if chars >= n && n > 0 {
        LineWritten(inp, n, left, done, cur);
        if out.Length - p < 1 {
          ok := false;
          return;
        }
        PutChar(out, p, LF, start, done + (cur + q));
        done, cur, p, chars := done + (cur + q) + [LF], [], p + 1, 0;
        assert done + [] == done;
      } else {
        GroupWritten(inp, n, left, done, cur);
        cur := cur + q;
      }
      left := left[3..];
    }
    ok := true;
  }

  lemma AtStart(start: bytes)
    ensures At(start, start, 0, [] + [])
  {
  }

  lemma EncodingStarts(x: bytes, n: nat)
    requires n % 4 == 0
    ensures Encoding(x, n, x, [], [])
  {
    assert [] + Digits(x) == Digits(x) && [] + Lines(Digits(x), n) == Lines(Digits(x), n);
  }

  /** The number of the one or two octets left over. */
  method TailNumber(left: bytes) returns (i: nat)
    requires |left| < 3
    ensures |left| == 1 ==> i == Number(left[0], 0, 0)
    ensures |left| == 2 ==> i == Number(left[0], left[1], 0)
  {
    i := 0;
    var c: nat, s: nat := 0, 65536;
    while c < |left|
      invariant 0 <= c <= |left| && s == if c == 0 then 65536 else if c == 1 then 256 else 1
      invariant c == 0 ==> i == 0
      invariant c == 1 ==> i == Number(left[0], 0, 0)
      invariant c == 2 ==> i == Number(left[0], left[1], 0)
    {
      i, c, s := i + left[c] * s, c + 1, s / 256;
    }
  }

  /** What is to be written when no full group is left. */
  lemma TailWritten(x: bytes, n: nat, left: bytes, done: bytes, cur: bytes)
    requires Encoding(x, n, left, done, cur) && |left| < 3
    ensures var last := cur + Digits(left); (n > 0 ==> |last| <= n) && Lines(Digits(x), n) == done + Ended(last, n)
  {
    hide Digits;
    DigitsLength(left);
    Fours(|cur|, n);
  }

  /** The last line. */
  function Ended(last: bytes, n: nat): bytes {
    if last != [] && n > 0 then last + [LF] else last
  }

  /** The end of sc_base64_encode: the last group, the last line end, the terminator. */
  method EncodeTail(left: bytes, out: array<u8>, p0: nat, n: nat, chars0: nat,
                    ghost start: bytes, ghost done: bytes, ghost cur: bytes) returns (r: int)
    requires |left| < 3 && p0 == |done + cur| && chars0 == |cur| && At(start, out[..], p0, done + cur)
    modifies out
    ensures var t := done + Ended(cur + Digits(left), n) + [0];
      if out.Length < |t| then r == SC_ERROR_BUFFER_TOO_SMALL
      else r == SC_SUCCESS && At(start, out[..], |t|, t)
  {
    assert |start| == out.Length >= p0;
    hide Digits, Number, Quad, At;
    var p, chars := p0, chars0;
    TailDigits(left);
    ghost var last := cur + Digits(left);
    var i := TailNumber(left);
    if |left| > 0 {
      if out.Length - p < 4 { return SC_ERROR_BUFFER_TOO_SMALL; }
      Put(out, p, i, 3 - |left|, start, done + cur);
      p, chars := p + 4, chars + 4;
    }
    assert done + cur + Digits(left) == done + last && (left == [] ==> done + cur == done + last);
    if chars != 0 && n > 0 {
      if out.Length - p < 1 { return SC_ERROR_BUFFER_TOO_SMALL; }
      PutChar(out, p, LF, start, done + last);
      p := p + 1;
      assert done + last + [LF] == done + Ended(last, n);
    }
    if out.Length - p < 1 { return SC_ERROR_BUFFER_TOO_SMALL; }
    PutChar(out, p, 0, start, done + Ended(last, n));
    r := SC_SUCCESS;
  }

  /** sc_base64_encode */
  method Encode(inp: bytes, out: array<u8>, linelength: nat) returns (r: int)
    modifies out
    ensures var t := Text(inp, linelength) + [0];
      if out.Length < |t| then r == SC_ERROR_BUFFER_TOO_SMALL
      else r == SC_SUCCESS && At(old(out[..]), out[..], |t|, t)
  {
    hide Encoding, Lines, Digits, Ended, At;
    var n := linelength - linelength % 4;
    var ok, left, p, chars;
    ghost var done, cur;
    ghost var start := out[..];
    ok, left, p, chars, done, cur := EncodeGroups(inp, out, n);
    if !ok { return SC_ERROR_BUFFER_TOO_SMALL; }
    TailWritten(inp, n, left, done, cur);
    r := EncodeTail(left, out, p, n, chars, start, done, cur);
  }

  lemma TailDigits(left: bytes)
    requires |left| < 3
    ensures left == [] ==> Digits(left) == []
    ensures |left| == 1 ==> Digits(left) == Quad(Number(left[0], 0, 0), 2)
    ensures |left| == 2 ==> Digits(left) == Quad(Number(left[0], left[1], 0), 1)
  {
  }

  /** sc_base64_decode: the number of octets, or an error. */
  method DecodeText(t: bytes, out: array<u8>) returns (rv: int)
    requires Terminated(t)
    modifies out
    ensures match Decode(t, out.Length)
      case Ok(b) => rv == |b| && At(old(out[..]), out[..], rv, b)
      case TooSmall => rv == SC_ERROR_BUFFER_TOO_SMALL
      case Invalid => rv == SC_ERROR_INVALID_ARGUMENTS
  {
    hide ReadGroup, OctetsOf, At;
    ghost var start := out[..];
    var left, len, more := t, 0, true;
    ghost var b: bytes := [];
    AtStart(start);
    while more
      invariant Terminated(left) && len == |b| <= out.Length && At(start, out[..], len, b)
      invariant more ==> Decode(t, out.Length) == Prepend(b, Decode(left, out.Length - len))
      invariant !more ==> Decode(t, out.Length) == Ok(b)
      decreases more, |left|
    {
      var r, i, skip := FromBase64(left);
      if r < 0 { return SC_ERROR_INVALID_ARGUMENTS; }
      if r == 0 {
        assert b + [] == b;
        more := false;
      } else {
        var fits := PutOctets(out, len, i, r, start, b);
        if !fits { return SC_ERROR_BUFFER_TOO_SMALL; }
        ghost var rest := left[skip..];
        PrependTwice(b, OctetsOf(i, r), Decode(rest, out.Length - len - r));
        b, len, left := b + OctetsOf(i, r), len + r, left[skip..];
        more := r == 3 && left[0] != 0;
      }
    }
    rv := len;
  }

  lemma PrependTwice(a: bytes, b: bytes, d: Result)
    ensures Prepend(a, Prepend(b, d)) == Prepend(a + b, d)
  {
    if d.Ok? { assert a + (b + d.b) == a + b + d.b; }
  }

  /** The inner loop of the decoder; false when there is no room for all r octets. */
  method PutOctets(out: array<u8>, p: nat, i: nat, r: nat, ghost start: bytes, ghost written: bytes) returns (fits: bool)
    requires r <= 3 && At(start, out[..], p, written)
    modifies out
    ensures fits <==> p + r <= out.Length
    ensures fits ==> At(start, out[..], p + r, written + OctetsOf(i, r))
  {
    assert |start| == out.Length >= p;
    hide At;
    var k, s := 0, 65536;
    ghost var all := OctetsOf(i, r);
    assert written + all[..0] == written;
    while k < r
      invariant 0 <= k <= r && p + k <= out.Length
      invariant k < 3 ==> s == if k == 0 then 65536 else if k == 1 then 256 else 1
      invariant At(start, out[..], p + k, written + all[..k])
    {
      if p + k >= out.Length { return false; }
      assert all[..k] + [all[k]] == all[..k + 1];
      assert written + all[..k] + [all[k]] == written + all[..k + 1];
      PutChar(out, p + k, i / s % 256, start, written + all[..k]);
      k, s := k + 1, s / 256;
    }
    assert all[..r] == all;
    fits := true;
  }
}
