/** The transmit functions of `OpenSC/src/libopensc/apdu.c` on APDU and card objects; each performs
    the run of the protocol. */
module ApduTransmit {
  import opened Octets
  import opened ApduCodec
  import opened ApduProtocol
  import DerWrite

  const CASE_2 := 0x22
  const CASE_3 := 0x23
  const CASE_4 := 0x24

  /** `ext`: the card takes extended APDUs; `trace`: all that has passed between reader and card. */
  class Card {
    const io: Responder
    const ext: bool
    const maxSend: nat
    var trace: Trace

    constructor (io: Responder, ext: bool, maxSend: nat)
      ensures this.io == io && this.ext == ext && this.maxSend == maxSend && trace == []
    {
      this.io, this.ext, this.maxSend, trace := io, ext, maxSend, [];
    }
  }

  /** `resplen` is the room for the response before a transmission and its length afterwards. The
      three flags are CHAINING, NO_GET_RESP and NO_RETRY_WL. */
  class Apdu {
    var cse: nat
    var cla: u8
    var ins: u8
    var p1: u8
    var p2: u8
    var lc: nat
    var le: nat
    var data: bytes
    var resp: array?<u8>
    var resplen: nat
    var sw1: nat
    var sw2: nat
    var chaining: bool
    var noGetResponse: bool
    var noRetry: bool

    constructor (a: Command, resp: array?<u8>, resplen: nat, chaining: bool, noGetResponse: bool, noRetry: bool)
      ensures Cmd() == a && this.resp == resp && this.resplen == resplen
      ensures this.chaining == chaining && this.noGetResponse == noGetResponse && this.noRetry == noRetry
    {
      cse, cla, ins, p1, p2, lc, le, data := a.cse, a.cla, a.ins, a.p1, a.p2, a.lc, a.le, a.data;
      this.resp, this.resplen, sw1, sw2 := resp, resplen, 0, 0;
      this.chaining, this.noGetResponse, this.noRetry := chaining, noGetResponse, noRetry;
    }

    function Cmd(): Command
      reads this
    {
      Command(cse, cla, ins, p1, p2, lc, le, data)
    }

    /** The buffer is as long as it is said to be. */
    predicate Valid()
      reads this
    {
      resplen <= if resp == null then 0 else resp.Length
    }

    ghost function Buffer(): (s: set<object>)
      reads this
    {
      if resp == null then {} else {resp}
    }

    /** The octets of the response. */
    ghost function Response(): bytes
      requires Valid()
      reads this, resp
    {
      if resp == null then [] else resp[..resplen]
    }

    /** The buffer from place n on. */
    ghost function Beyond(n: nat): bytes
      requires n <= if resp == null then 0 else resp.Length
      reads this, resp
    {
      if resp == null then [] else resp[n..]
    }
  }

  /** Status and response of the APDU are those of the run. */
  ghost predicate Settled(apdu: Apdu, run: Run)
    reads apdu, apdu.resp
  {
    apdu.Valid() && (apdu.sw1, apdu.sw2) == (run.sw1, run.sw2) && apdu.Response() == run.resp && apdu.resplen == |run.resp|
  }

  /** Nothing is stored behind the room there was for the response. */
  twostate predicate Kept(apdu: Apdu)
    requires old(apdu.Valid())
    reads apdu, apdu.resp
  {
    && apdu.Valid() && apdu.resp == old(apdu.resp) && apdu.resplen <= old(apdu.resplen)
    && apdu.Beyond(old(apdu.resplen)) == old(apdu.Beyond(apdu.resplen))
  }

  /** Status and length of the response are as they were. */
  twostate predicate Unsettled(apdu: Apdu)
    reads apdu
  {
    (apdu.sw1, apdu.sw2, apdu.resplen) == old((apdu.sw1, apdu.sw2, apdu.resplen))
  }

  // ----- consistency -----

  /** What a command of each case has to look like; short lengths hold for chained data only piece
      by piece. */
  predicate Consistent(a: Command, room: bool, chaining: bool, ext: bool) {
    && (if a.cse < 16 then a.le <= 256 && (a.lc <= 255 || chaining)
        else a.cse / 16 % 2 == 1 && ext && a.le <= 65536 && a.lc <= 65535)
    && a.cse % 16 in {CASE_1, CASE_2_SHORT, CASE_3_SHORT, CASE_4_SHORT}
    && a.lc == |a.data|
    && (a.lc > 0 <==> a.cse % 16 in {CASE_3_SHORT, CASE_4_SHORT})
    && (a.cse % 16 in {CASE_1, CASE_3_SHORT} ==> a.le == 0)
    && (a.cse % 16 in {CASE_2_SHORT, CASE_4_SHORT} ==> room)
  }

  /** The command with the largest Le where none is given, which is what its octets stand for. */
  function WithLe(a: Command): Command {
    if a.le != 0 || a.cse !in {CASE_2_SHORT, CASE_4_SHORT, CASE_2_EXT, CASE_4_EXT} then a
    else a.(le := if a.cse < 16 then 256 else 65536)
  }

  /** Outside chaining the check accepts exactly the commands that have an encoding of their own, with
      data in case 4, if the card takes extended ones and there is a buffer where Le is sent. */
  lemma ConsistentIs(a: Command, room: bool, ext: bool)
    requires a.cse in {CASE_1, CASE_2_SHORT, CASE_3_SHORT, CASE_4_SHORT, CASE_2_EXT, CASE_3_EXT, CASE_4_EXT}
    ensures Consistent(a, room, false, ext) <==>
      && Representable(WithLe(a)) && (a.cse % 16 == CASE_4_SHORT ==> a.data != []) && (a.cse >= 16 ==> ext)
      && (!room ==> Wire(a.(le := 1), PROTO_T1) == Wire(a.(le := 2), PROTO_T1))
  {
    if a.lc <= |a.data| { LeIsSent(a); }
    hide Wire;
  }

  lemma LeIsSent(a: Command)
    requires a.lc <= |a.data|
    requires a.cse in {CASE_1, CASE_2_SHORT, CASE_3_SHORT, CASE_4_SHORT, CASE_2_EXT, CASE_3_EXT, CASE_4_EXT}
    ensures Wire(a.(le := 1), PROTO_T1) == Wire(a.(le := 2), PROTO_T1) <==> a.cse % 16 in {CASE_1, CASE_3_SHORT}
  {
    var w, w' := Wire(a.(le := 1), PROTO_T1), Wire(a.(le := 2), PROTO_T1);
    if a.cse % 16 in {CASE_2_SHORT, CASE_4_SHORT} { assert w[|w| - 1] == Low(1) != Low(2) == w'[|w'| - 1]; }
  }

  /** With chaining a short command may have data of any length. */
  lemma ConsistentChained(a: Command, room: bool, ext: bool)
    ensures Consistent(a, room, true, ext)
      <==> a.lc == |a.data| && var k := if a.cse < 16 && a.lc > 255 then 255 else a.lc;
           Consistent(a.(lc := k, data := a.data[..k]), room, false, ext)
  {
  }

  /** sc_check_apdu */
  method CheckApdu(card: Card, apdu: Apdu) returns (r: int)
    ensures r == if Consistent(apdu.Cmd(), apdu.resplen != 0 && apdu.resp != null, apdu.chaining, card.ext)
                 then SC_SUCCESS else SC_ERROR_INVALID_ARGUMENTS
  {
    var datalen := |apdu.data|;
    if apdu.cse / 16 == 0 {
      if apdu.le > 256 || (apdu.lc > 255 && !apdu.chaining) { return SC_ERROR_INVALID_ARGUMENTS; }
    } else if apdu.cse / 16 % 2 != 0 {
      if !card.ext { return SC_ERROR_INVALID_ARGUMENTS; }
      if apdu.le > 65536 || apdu.lc > 65535 { return SC_ERROR_INVALID_ARGUMENTS; }
    } else {
      return SC_ERROR_INVALID_ARGUMENTS;
    }
    var btype := apdu.cse % 16;
    if btype == CASE_1 {
      if datalen != 0 || apdu.lc != 0 || apdu.le != 0 { return SC_ERROR_INVALID_ARGUMENTS; }
    } else if btype == CASE_2_SHORT {
      if datalen != 0 || apdu.lc != 0 { return SC_ERROR_INVALID_ARGUMENTS; }
      if apdu.resplen == 0 || apdu.resp == null { return SC_ERROR_INVALID_ARGUMENTS; }
    } else if btype == CASE_3_SHORT {
      if datalen == 0 || apdu.lc == 0 { return SC_ERROR_INVALID_ARGUMENTS; }
      if apdu.le != 0 { return SC_ERROR_INVALID_ARGUMENTS; }
      if datalen != apdu.lc { return SC_ERROR_INVALID_ARGUMENTS; }
    } else if btype == CASE_4_SHORT {
      if datalen == 0 || apdu.lc == 0 { return SC_ERROR_INVALID_ARGUMENTS; }
      if apdu.resplen == 0 || apdu.resp == null { return SC_ERROR_INVALID_ARGUMENTS; }
      if datalen != apdu.lc { return SC_ERROR_INVALID_ARGUMENTS; }
    } else {
      return SC_ERROR_INVALID_ARGUMENTS;
    }
    return SC_SUCCESS;
  }

  function Detected(a: Command, chaining: bool, ext: bool): nat {
    if a.cse !in {CASE_2, CASE_3, CASE_4} then a.cse
    else if (a.le > 256 || (a.lc > 255 && !chaining)) && ext then a.cse % 16 + 16
    else a.cse % 16
  }

  /** sc_detect_apdu_cse */
  method DetectCase(card: Card, apdu: Apdu)
    modifies apdu`cse
    ensures apdu.cse == Detected(old(apdu.Cmd()), apdu.chaining, card.ext)
  {
    if apdu.cse == CASE_2 || apdu.cse == CASE_3 || apdu.cse == CASE_4 {
      var btype := apdu.cse % 16;
      if (apdu.le > 256 || (apdu.lc > 255 && !apdu.chaining)) && card.ext { btype := btype + 16; }
      apdu.cse := btype;
    }
  }

  /** Detection finds a consistent form when there is one, the short one first. */
  lemma DetectedIsConsistent(a: Command, room: bool, chaining: bool, ext: bool)
    requires a.cse in {CASE_2, CASE_3, CASE_4}
    ensures var short, long := a.cse % 16, a.cse % 16 + 16;
      && (Consistent(a.(cse := Detected(a, chaining, ext)), room, chaining, ext)
          <==> Consistent(a.(cse := short), room, chaining, ext) || Consistent(a.(cse := long), room, chaining, ext))
      && (Consistent(a.(cse := short), room, chaining, ext) ==> Detected(a, chaining, ext) == short)
  {
  }

  // ----- one transmission -----

  /** sc_apdu_set_resp */
  method SetResp(apdu: Apdu, buf: bytes) returns (r: int)
    requires apdu.Valid()
    modifies apdu`sw1, apdu`sw2, apdu`resplen, apdu.Buffer()
    ensures apdu.Valid() && r == (if |buf| < 2 then SC_ERROR_INTERNAL else SC_SUCCESS) && apdu.Beyond(old(apdu.resplen)) == old(apdu.Beyond(apdu.resplen))
    ensures |buf| >= 2 ==>
      && apdu.sw1 == buf[|buf| - 2] && apdu.sw2 == buf[|buf| - 1]
      && apdu.resplen == (if |buf| - 2 <= old(apdu.resplen) then |buf| - 2 else old(apdu.resplen))
      && apdu.Response() == buf[..apdu.resplen]
    ensures |buf| < 2 ==> apdu.resplen == old(apdu.resplen)
  {
    var len := |buf|;
    if len < 2 { return SC_ERROR_INTERNAL; }
    apdu.sw1, apdu.sw2 := buf[len - 2], buf[len - 1];
    len := len - 2;
    if len <= apdu.resplen { apdu.resplen := len; }
    if apdu.resplen != 0 { DerWrite.Copy(apdu.resp, 0, buf[..apdu.resplen]); }
    r := SC_SUCCESS;
  }

  /** sc_single_transmit: the reader sends the command and stores the answer. */
  method SingleTransmit(card: Card, apdu: Apdu) returns (r: int, ghost reply: Reply)
    requires apdu.Valid()
    modifies card`trace, apdu`sw1, apdu`sw2, apdu`resplen, apdu.Buffer()
    ensures reply == card.io.transmit(old(card.trace), old(apdu.Cmd()))
    ensures card.trace == old(card.trace) + [Sent(old(apdu.Cmd()), reply)]
    ensures apdu.Valid() && r == Code(reply) && apdu.Beyond(old(apdu.resplen)) == old(apdu.Beyond(apdu.resplen))
    ensures Good(reply) ==>
      && apdu.sw1 == Sw1(reply) && apdu.sw2 == Sw2(reply)
      && apdu.Response() == Take(Payload(reply), old(apdu.resplen)) && apdu.resplen == |apdu.Response()|
    ensures !Good(reply) ==> apdu.resplen == old(apdu.resplen)
  {
    var c := apdu.Cmd();
    var answer := card.io.transmit(card.trace, c);
    reply := answer;
    card.trace := card.trace + [Sent(c, answer)];
    if answer.NoAnswer? { return answer.code, reply; }
    r := SetResp(apdu, answer.data);
  }

  /** sc_set_le_and_transmit: the status 6Cxx demands another length. */
  method SetLeAndTransmit(card: Card, apdu: Apdu, olen: nat) returns (r: int, ghost reply: Reply)
    requires apdu.Valid() && apdu.resplen <= olen <= (if apdu.resp == null then 0 else apdu.resp.Length)
    modifies card`trace, apdu`noRetry, apdu`le, apdu`sw1, apdu`sw2, apdu`resplen, apdu.Buffer()
    ensures apdu.Valid() && apdu.resplen <= olen && apdu.Beyond(olen) == old(apdu.Beyond(olen))
    ensures olen < Announced(old(apdu.sw2)) ==> r == SC_ERROR_WRONG_LENGTH && card.trace == old(card.trace)
    ensures olen >= Announced(old(apdu.sw2)) ==>
      var c := old(apdu.Cmd()).(le := Announced(old(apdu.sw2)));
      && reply == card.io.transmit(old(card.trace), c) && card.trace == old(card.trace) + [Sent(c, reply)]
      && r == Code(reply) && apdu.Cmd() == c && apdu.noRetry
      && (Good(reply) ==>
            && apdu.sw1 == Sw1(reply) && apdu.sw2 == Sw2(reply)
            && apdu.Response() == Take(Payload(reply), olen) && apdu.resplen == |apdu.Response()|)
  {
    var nlen := if apdu.sw2 != 0 then apdu.sw2 else 256;
    if olen < nlen { return SC_ERROR_WRONG_LENGTH, NoAnswer(0); }
    apdu.noRetry := true;
    apdu.resplen := olen;
    apdu.le := nlen;
    r, reply := SingleTransmit(card, apdu);
  }

  lemma TakeMore(x: bytes, d: bytes, n: nat)
    ensures Take(x + d, n) == Take(x, n) + Take(d, n - |Take(x, n)|)
  {
  }

  lemma OneReceived(asked: nat, k: Chunk)
    ensures Received([Fetched(asked, k)]) == k.data
  {
    assert [Fetched(asked, k)][1..] == [] && Received([]) == [];
  }

  /** What is stored of one chunk more. */
  lemma StoredMore(body: bytes, got: Trace, asked: nat, k: Chunk, n: nat)
    ensures var stored := Take(body + Received(got), n);
      Take(body + Received(got + [Fetched(asked, k)]), n) == stored + Take(k.data, n - |stored|)
  {
    hide Received, Take;
    OneReceived(asked, k);
    ReceivedConcat(got, [Fetched(asked, k)]);
    var x := body + Received(got);
    assert body + (Received(got) + k.data) == x + k.data;
    TakeMore(x, k.data, n);
  }

  /** The first p octets of the buffer. */
  ghost function Contents(apdu: Apdu, p: nat): bytes
    requires p <= if apdu.resp == null then 0 else apdu.resp.Length
    reads apdu, apdu.resp
  {
    if apdu.resp == null then [] else apdu.resp[..p]
  }

  lemma FetchStart(apdu: Apdu, body: bytes, n: nat)
    requires apdu.Valid() && body == apdu.Response() && apdu.resplen <= n
    ensures |body| == apdu.resplen && !FetchFailed([]) && Take(body + Received([]), n) == body == Contents(apdu, apdu.resplen)
  {
    assert body + [] == body;
  }

  /** One round further: what is still to come of all requests. */
  lemma NextFetch(card: Responder, t: Trace, got: Trace, asked: nat, room: nat, all: Trace)
    requires Sound(card) && room > 0 && all == got + Fetches(card, t, asked, room)
    ensures var k := card.getResponse(t, asked); var e := Fetched(asked, k);
      && |k.data| <= asked && (k.rv > 0 ==> k.data != [])
      && all == got + [e] + (if k.rv <= 0 then [] else Fetches(card, t + [e], k.rv, room - |Take(k.data, room)|))
      && (k.rv <= 0 ==> all == got + [e])
      && (k.rv >= 0 ==> !FetchFailed(got + [e])) && (k.rv < 0 ==> FetchFailed(got + [e]))
  {
    var k := card.getResponse(t, asked);
    var e := Fetched(asked, k);
    var f := if k.rv <= 0 then [] else Fetches(card, t + [e], k.rv, room - |Take(k.data, room)|);
    assert Fetches(card, t, asked, room) == [e] + f by { assert [e] + [] == [e]; }
    hide Fetches, Take;
    assert got + ([e] + f) == got + [e] + f;
  }

  lemma NoFetch(card: Responder, t: Trace, asked: nat)
    requires Sound(card)
    ensures Fetches(card, t, asked, 0) == []
  {
  }

  lemma GoodReply(card: Responder, t: Trace, c: Command)
    requires Sound(card)
    ensures Good(card.transmit(t, c)) <==> Code(card.transmit(t, c)) == SC_SUCCESS
  {
  }

  /** One GET RESPONSE; `n` octets are stored from place p on. */
  method Fetch(card: Card, apdu: Apdu, asked: nat, p: nat, room: nat) returns (rv: int, n: nat, ghost k: Chunk)
    requires apdu.resp != null && p + room <= apdu.resp.Length && Sound(card.io)
    modifies card`trace, apdu.resp
    ensures k == card.io.getResponse(old(card.trace), asked) && card.trace == old(card.trace) + [Fetched(asked, k)]
    ensures rv == k.rv && n == |Take(k.data, room)| <= asked
    ensures apdu.Beyond(p + room) == old(apdu.Beyond(p + room))
    ensures rv >= 0 ==> Contents(apdu, p + n) == old(Contents(apdu, p)) + Take(k.data, room)
  {
    var chunk := card.io.getResponse(card.trace, asked);
    k := chunk;
    card.trace := card.trace + [Fetched(asked, chunk)];
    rv, n := chunk.rv, if room < |chunk.data| then room else |chunk.data|;
    if rv >= 0 { StoreChunk(apdu.resp, p, room, chunk.data[..n]); }
  }

  method StoreChunk(buf: array<u8>, p: nat, room: nat, data: bytes)
    requires |data| <= room && p + room <= buf.Length
    modifies buf
    ensures buf[..p + |data|] == old(buf[..p]) + data && buf[p + room..] == old(buf[p + room..])
  {
    DerWrite.Copy(buf, p, data);
    assert old(buf[p + |data|..])[room - |data|..] == old(buf[p + room..]);
    assert buf[p + |data|..][room - |data|..] == buf[p + room..];
    assert buf[..p + |data|] == buf[..p] + buf[p..p + |data|];
  }

  /** sc_get_response */
  method GetResponse(card: Card, apdu: Apdu, olen: nat) returns (r: int)
    requires apdu.Valid() && Sound(card.io) && apdu.resplen <= olen <= (if apdu.resp == null then 0 else apdu.resp.Length)
    modifies card`trace, apdu`sw1, apdu`sw2, apdu`resplen, apdu.Buffer()
    ensures apdu.Valid() && apdu.resplen <= olen && apdu.Beyond(olen) == old(apdu.Beyond(olen))
    ensures r == SC_SUCCESS ==> apdu.sw1 == 0x90 && apdu.sw2 == 0 && apdu.resplen == |apdu.Response()|
    ensures apdu.le == 0 ==> r == SC_SUCCESS && card.trace == old(card.trace) && apdu.Response() == old(apdu.Response())
    ensures apdu.le != 0 ==>
      var body := old(apdu.Response());
      var fs := Fetches(card.io, old(card.trace), Announced(old(apdu.sw2)), olen - |body|);
      && card.trace == old(card.trace) + fs
      && (FetchFailed(fs) ==> r == fs[|fs| - 1].chunk.rv != SC_SUCCESS)
      && (!FetchFailed(fs) ==> r == SC_SUCCESS && apdu.Response() == Take(body + Received(fs), olen))
  {
    hide Sound, Fetches, Received, Take, FetchFailed;
    if apdu.le == 0 {
      apdu.sw1, apdu.sw2 := 0x90, 0;
      return SC_SUCCESS;
    }
    var p;
    r, p := FetchAll(card, apdu, if apdu.sw2 != 0 then apdu.sw2 else 256, olen);
    if r != SC_SUCCESS { return; }
    apdu.resplen := p;
    apdu.sw1, apdu.sw2 := 0x90, 0;
  }

  /** One round of the loop of sc_get_response; `got` are the requests made, `all` those of the run. */
  method FetchRound(card: Card, apdu: Apdu, asked: nat, p: nat, room: nat,
                    ghost t: Trace, ghost body: bytes, ghost got: Trace, ghost all: Trace)
    returns (rv: int, n: nat, ghost more: Trace)
    requires Sound(card.io) && room > 0 && apdu.resp != null && p + room <= apdu.resp.Length
    requires card.trace == t + got && all == got + Fetches(card.io, card.trace, asked, room)
    requires Contents(apdu, p) == Take(body + Received(got), p + room)
    modifies card`trace, apdu.resp
    ensures card.trace == t + more && apdu.Beyond(p + room) == old(apdu.Beyond(p + room)) && n <= asked && n <= room
    ensures rv < 0 ==> all == more && FetchFailed(more) && more[|more| - 1].chunk.rv == rv
    ensures rv >= 0 ==>
      && !FetchFailed(more) && Contents(apdu, p + n) == Take(body + Received(more), p + room)
      && all == more + (if rv == 0 then [] else Fetches(card.io, card.trace, rv, room - n))
      && (rv > 0 ==> n > 0)
  {
    hide Sound, Fetches, Received;
    NextFetch(card.io, card.trace, got, asked, room, all);
    ghost var k;
    rv, n, k := Fetch(card, apdu, asked, p, room);
    StoredMore(body, got, asked, k, p + room);
    more := got + [Fetched(asked, k)];
    assert card.trace == t + more;
  }

  lemma NothingMore(t: Trace)
    ensures t + [] == t
  {
  }

  /** The loop of sc_get_response. The number of octets still promised never drops below zero, and
      the free room shrinks in every round that is followed by another. */
  method FetchAll(card: Card, apdu: Apdu, asked: nat, olen: nat) returns (r: int, p: nat)
    requires apdu.Valid() && Sound(card.io) && apdu.resplen <= olen <= (if apdu.resp == null then 0 else apdu.resp.Length)
    requires asked > 0
    modifies card`trace, apdu.Buffer()
    ensures apdu.Beyond(olen) == old(apdu.Beyond(olen)) && p <= olen
    ensures var body := old(apdu.Response());
      var fs := Fetches(card.io, old(card.trace), asked, olen - |body|);
      && card.trace == old(card.trace) + fs
      && (FetchFailed(fs) ==> r == fs[|fs| - 1].chunk.rv != SC_SUCCESS)
      && (!FetchFailed(fs) ==> r == SC_SUCCESS && Contents(apdu, p) == Take(body + Received(fs), olen))
  {
    hide Sound, Fetches, Received, Take, FetchFailed, Contents, Apdu.Beyond, Apdu.Response;
    p := apdu.resplen;
    var le, minlen: nat, buflen := asked, asked, olen - p;
    ghost var body, t, all := apdu.Response(), card.trace, Fetches(card.io, card.trace, le, buflen);
    ghost var got: Trace := [];
    FetchStart(apdu, body, olen);
    var again := true;
    while again
      invariant p <= p + buflen == olen && le >= 0
      invariant card.trace == t + got && !FetchFailed(got)
      invariant if again then all == got + Fetches(card.io, card.trace, le, buflen) && le == minlen > 0 else all == got
      invariant Contents(apdu, p) == Take(body + Received(got), olen)
      invariant apdu.Beyond(olen) == old(apdu.Beyond(olen))
      decreases again, buflen
    {
      if buflen == 0 {
        NoFetch(card.io, card.trace, le);
        NothingMore(got);
        break;
      }
      var rv, n, more := FetchRound(card, apdu, le, p, buflen, t, body, got, all);
      if rv < 0 { return rv, p; }
      got := more;
      NothingMore(got);
      p, buflen, minlen := p + n, buflen - n, minlen - n;
      if rv != 0 { minlen := rv; }
      le := minlen;
      again := rv != 0 && minlen != 0;
    }
    r := SC_SUCCESS;
  }

  /** The first part of sc_transmit, the command and its repetition; `done` is what was sent, `reply`
      the last answer. */
  method Send(card: Card, apdu: Apdu, ghost fetch: bool) returns (r: int, ghost done: Trace, ghost reply: Reply)
    requires apdu.Valid() && Sound(card.io)
    modifies card`trace, apdu`noRetry, apdu`le, apdu`sw1, apdu`sw2, apdu`resplen, apdu.Buffer()
    ensures var t, c, olen, retry := old(card.trace), old(apdu.Cmd()), old(apdu.resplen), !old(apdu.noRetry);
      && card.trace == t + done
      && apdu.Valid() && apdu.resplen <= olen && apdu.Beyond(olen) == old(apdu.Beyond(olen))
      && (r != SC_SUCCESS ==> Exchange(card.io, t, c, olen, retry, fetch) == Run(done, r, 0, 0, []))
      && (r == SC_SUCCESS ==>
            && Good(reply) && apdu.sw1 == Sw1(reply) && apdu.sw2 == Sw2(reply)
            && apdu.Response() == Take(Payload(reply), olen) && apdu.resplen == |apdu.Response()|
            && Exchange(card.io, t, c, olen, retry, fetch) == Finish(card.io, t, done, apdu.Cmd(), reply, olen, fetch))
  {
    hide Sound, Finish, Take;
    var olen := apdu.resplen;
    ghost var t, c := card.trace, apdu.Cmd();
    GoodReply(card.io, t, c);
    r, reply := SingleTransmit(card, apdu);
    done := [Sent(c, reply)];
    if r != SC_SUCCESS { return; }
    if apdu.sw1 == 0x6C && !apdu.noRetry {
      ghost var c', enough := c.(le := Announced(apdu.sw2)), olen >= Announced(apdu.sw2);
      GoodReply(card.io, t + done, c');
      r, reply := SetLeAndTransmit(card, apdu, olen);
      if enough {
        done := [done[0], Sent(c', reply)];
        assert card.trace == t + done;
      }
    }
  }

  /** sc_transmit */
  method Transmit(card: Card, apdu: Apdu) returns (r: int)
    requires apdu.Valid() && Sound(card.io)
    modifies card`trace, apdu`noRetry, apdu`le, apdu`sw1, apdu`sw2, apdu`resplen, apdu.Buffer()
    ensures var run :=
        Exchange(card.io, old(card.trace), old(apdu.Cmd()), old(apdu.resplen), !old(apdu.noRetry), !apdu.noGetResponse);
      && card.trace == old(card.trace) + run.events && r == run.r
      && Kept(apdu) && (r == SC_SUCCESS ==> Settled(apdu, run))
  {
    hide Sound, Exchange, Fetches, FetchFailed, Received, Take;
    var olen := apdu.resplen;
    ghost var done, reply;
    ghost var t := card.trace;
    r, done, reply := Send(card, apdu, !apdu.noGetResponse);
    if r != SC_SUCCESS { return; }
    if apdu.sw1 == 0x61 && !apdu.noGetResponse {
      r := GetResponse(card, apdu, olen);
      assert forall x: Trace :: t + done + x == t + (done + x);
    }
  }

  // ----- the whole -----

  /** The pieces are neither empty nor too long for the case. */
  predicate Fits(c: Command, m: nat) {
    m > 0 && (c.cse < 16 ==> m <= 255 || |c.data| <= 255)
  }

  /** One command of the chain, a copy of the APDU with a piece of its data. */
  method Piece(apdu: Apdu, buf: bytes, max: nat) returns (tapdu: Apdu, plen: nat, last: bool)
    requires apdu.Valid() && (apdu.cse % 16 == CASE_4_SHORT ==> apdu.cse > 0)
    ensures fresh(tapdu) && tapdu.Valid() && !tapdu.chaining
    ensures tapdu.noGetResponse == apdu.noGetResponse && tapdu.noRetry == apdu.noRetry
    ensures last <==> |buf| <= max
    ensures plen == (if last then |buf| else max)
    ensures last ==>
      tapdu.Cmd() == apdu.Cmd().(lc := |buf|, data := buf) && tapdu.resp == apdu.resp && tapdu.resplen == apdu.resplen
    ensures !last ==> tapdu.Cmd() == Link(apdu.Cmd().(data := buf), max) && tapdu.resp == null && tapdu.resplen == 0
    ensures !last ==> tapdu.cla / 16 % 2 == 1 && tapdu.cla % 16 == apdu.cla % 16 && tapdu.cla / 32 == apdu.cla / 32
  {
    hide Chained, Link;
    ChainedBits(apdu.cla);
    if max < |buf| { LinkAs(apdu.Cmd().(data := buf), max); }
    tapdu := new Apdu(apdu.Cmd(), apdu.resp, apdu.resplen, false, apdu.noGetResponse, apdu.noRetry);
    last := |buf| <= max;
    if !last {
      if tapdu.cse % 16 == CASE_4_SHORT { tapdu.cse := tapdu.cse - 1; }
      plen := max;
      tapdu.cla := Chained(tapdu.cla);
      tapdu.le, tapdu.resplen, tapdu.resp := 0, 0, null;
    } else {
      plen := |buf|;
    }
    tapdu.data, tapdu.lc := buf[..plen], plen;
    assert last ==> buf[..plen] == buf;
  }

  /** Every piece of a consistent command that fits is consistent. */
  lemma PieceIsConsistent(c: Command, buf: bytes, m: nat, room: bool, ext: bool)
    requires Consistent(c, room, true, ext) && buf != [] && |buf| <= |c.data|
    ensures |buf| > m ==> (Consistent(Link(c.(data := buf), m), false, false, ext) <==> Fits(c.(data := buf), m))
    ensures 0 < |buf| <= m ==> (Consistent(c.(lc := |buf|, data := buf), room, false, ext) <==> Fits(c.(data := buf), m))
  {
  }

  /** The run of the chaining loop from the state in which `buf` is left to be sent. */
  ghost function Remaining(card: Card, t: Trace, apdu: Apdu, buf: bytes): Run
    requires Sound(card.io)
    reads apdu
  {
    var c := apdu.Cmd().(data := buf);
    if !Fits(c, card.maxSend) then Run([], SC_ERROR_INVALID_ARGUMENTS, 0, 0, [])
    else ChainRun(card.io, t, Chain(c, card.maxSend), apdu.resplen, !apdu.noRetry, !apdu.noGetResponse)
  }

  /** The last command of a chain uses the buffer of the caller and hands over its status. */
  method SendLast(card: Card, apdu: Apdu, tapdu: Apdu, ghost buf: bytes) returns (r: int)
    requires apdu.Valid() && tapdu.Valid() && Sound(card.io) && Fits(apdu.Cmd().(data := buf), card.maxSend) && tapdu != apdu
    requires |buf| <= card.maxSend && tapdu.Cmd() == apdu.Cmd().(lc := |buf|, data := buf)
    requires tapdu.resp == apdu.resp && tapdu.resplen == apdu.resplen
    requires tapdu.noGetResponse == apdu.noGetResponse && tapdu.noRetry == apdu.noRetry
    modifies card`trace, tapdu, apdu`sw1, apdu`sw2, apdu`resplen, apdu.Buffer()
    ensures var run := old(Remaining(card, card.trace, apdu, buf));
      && card.trace == old(card.trace) + run.events && r == run.r
      && Kept(apdu)
      && (r == SC_SUCCESS ==> Settled(apdu, run))
      && (r != SC_SUCCESS ==> Unsettled(apdu))
  {
    hide Sound, Exchange;
    assert Remaining(card, card.trace, apdu, buf)
        == Exchange(card.io, card.trace, tapdu.Cmd(), apdu.resplen, !apdu.noRetry, !apdu.noGetResponse);
    ghost var olen := apdu.resplen;
    r := Transmit(card, tapdu);
    if r == SC_SUCCESS { apdu.sw1, apdu.sw2, apdu.resplen := tapdu.sw1, tapdu.sw2, tapdu.resplen; }
    assert apdu.Beyond(olen) == tapdu.Beyond(olen);
  }

  /** A command before the last one; its status decides whether the chain goes on. */
  method SendLink(card: Card, apdu: Apdu, tapdu: Apdu, ghost buf: bytes) returns (r: int, ghost done: Trace)
    requires tapdu.Valid() && Sound(card.io) && tapdu != apdu
    requires Fits(apdu.Cmd().(data := buf), card.maxSend) && card.maxSend < |buf|
    requires tapdu.Cmd() == Link(apdu.Cmd().(data := buf), card.maxSend) && tapdu.resp == null && tapdu.resplen == 0
    requires tapdu.noGetResponse == apdu.noGetResponse && tapdu.noRetry == apdu.noRetry
    modifies card`trace, tapdu
    ensures card.trace == old(card.trace) + done
    ensures var run := Remaining(card, old(card.trace), apdu, buf);
      && (r != SC_SUCCESS ==> r == run.r && done == run.events)
      && (r == SC_SUCCESS ==> run == After(done, Remaining(card, card.trace, apdu, buf[card.maxSend..])))
  {
    hide Sound, Exchange;
    ghost var t := card.trace;
    ghost var e := Exchange(card.io, t, tapdu.Cmd(), 0, !tapdu.noRetry, !tapdu.noGetResponse);
    UnrollChain(card, t, apdu, buf);
    r := Transmit(card, tapdu);
    done := e.events;
    if r == SC_SUCCESS { r := card.io.checkSw(tapdu.sw1, tapdu.sw2); }
  }

  lemma UnrollChain(card: Card, t: Trace, apdu: Apdu, buf: bytes)
    requires Sound(card.io) && Fits(apdu.Cmd().(data := buf), card.maxSend) && card.maxSend < |buf|
    ensures var run := Remaining(card, t, apdu, buf);
      var e := Exchange(card.io, t, Link(apdu.Cmd().(data := buf), card.maxSend), 0, !apdu.noRetry, !apdu.noGetResponse);
      run == if e.r != SC_SUCCESS then e
             else if card.io.checkSw(e.sw1, e.sw2) != SC_SUCCESS then e.(r := card.io.checkSw(e.sw1, e.sw2))
             else After(e.events, Remaining(card, t + e.events, apdu, buf[card.maxSend..]))
  {
    hide Sound, Exchange;
    var c, m := apdu.Cmd(), card.maxSend;
    var rest := Chain(c.(data := buf[m..]), m);
    assert c.(data := buf).(data := buf[m..]) == c.(data := buf[m..]);
    assert Chain(c.(data := buf), m) == [Link(c.(data := buf), m)] + rest;
    assert ([Link(c.(data := buf), m)] + rest)[1..] == rest;
  }

  /** One round of the chaining loop. */
  method SendPiece(card: Card, apdu: Apdu, buf: bytes) returns (r: int, plen: nat, ghost done: Trace)
    requires apdu.Valid() && Sound(card.io) && buf != [] && |buf| <= |apdu.data|
    requires Consistent(apdu.Cmd(), apdu.resplen != 0 && apdu.resp != null, true, card.ext)
    modifies card`trace, apdu`sw1, apdu`sw2, apdu`resplen, apdu.Buffer()
    ensures plen == if |buf| <= card.maxSend then |buf| else card.maxSend
    ensures card.trace == old(card.trace) + done && Kept(apdu)
    ensures var run := old(Remaining(card, card.trace, apdu, buf));
      if r != SC_SUCCESS then r == run.r && done == run.events
      else if |buf| <= card.maxSend then
        && run.r == SC_SUCCESS && done == run.events
        && Settled(apdu, run)
      else plen > 0 && run == After(done, Remaining(card, card.trace, apdu, buf[plen..]))
    ensures r != SC_SUCCESS || |buf| > card.maxSend ==> Unsettled(apdu)
    ensures |buf| > card.maxSend ==> unchanged(apdu.Buffer())
  {
    hide Sound, Remaining, Consistent, Link;
    PieceIsConsistent(apdu.Cmd(), buf, card.maxSend, apdu.resplen != 0 && apdu.resp != null, card.ext);
    var tapdu, last;
    tapdu, plen, last := Piece(apdu, buf, card.maxSend);
    done := [];
    ghost var run := Remaining(card, card.trace, apdu, buf);
    r := CheckApdu(card, tapdu);
    if r != SC_SUCCESS {
      DoesNotFit(card, card.trace, apdu, buf);
      return;
    }
    if last {
      r := SendLast(card, apdu, tapdu, buf);
      done := run.events;
    } else {
      r, done := SendLink(card, apdu, tapdu, buf);
    }
  }

  lemma DoesNotFit(card: Card, t: Trace, apdu: Apdu, buf: bytes)
    requires Sound(card.io) && !Fits(apdu.Cmd().(data := buf), card.maxSend)
    ensures Remaining(card, t, apdu, buf) == Run([], SC_ERROR_INVALID_ARGUMENTS, 0, 0, [])
  {
  }

  lemma AfterAfter(a: Trace, b: Trace, run: Run)
    ensures After(a, After(b, run)) == After(a + b, run)
  {
    assert a + (b + run.events) == a + b + run.events;
  }

  /** The chaining loop of sc_transmit_apdu: every command but the last is judged by its status, the
      last one supplies status and response. Without data nothing is sent at all. */
  method TransmitChain(card: Card, apdu: Apdu) returns (r: int)
    requires apdu.Valid() && Sound(card.io)
    requires Consistent(apdu.Cmd(), apdu.resplen != 0 && apdu.resp != null, true, card.ext)
    modifies card`trace, apdu`sw1, apdu`sw2, apdu`resplen, apdu.Buffer()
    ensures Kept(apdu)
    ensures apdu.data == [] ==> r == SC_SUCCESS && card.trace == old(card.trace)
    ensures apdu.data != [] ==>
      var run := old(Remaining(card, card.trace, apdu, apdu.data));
      && card.trace == old(card.trace) + run.events && r == run.r
      && (r == SC_SUCCESS ==> Settled(apdu, run))
    ensures r != SC_SUCCESS || apdu.data == [] ==> Unsettled(apdu)
  {
    hide Sound, Remaining, Consistent, Apdu.Beyond, Apdu.Response;
    r := SC_SUCCESS;
    var buf := apdu.data;
    var len := |buf|;
    ghost var done: Trace, t, run := [], card.trace, Remaining(card, card.trace, apdu, buf);
    while len != 0
      invariant len == |buf| <= |apdu.data| && r == SC_SUCCESS && card.trace == t + done
      invariant Kept(apdu)
      invariant len != 0 || apdu.data == [] ==> unchanged(apdu) && unchanged(apdu.Buffer())
      invariant apdu.data == [] ==> done == []
      invariant len != 0 ==> run == After(done, Remaining(card, card.trace, apdu, buf))
      invariant len == 0 && apdu.data != [] ==>
        && run.r == SC_SUCCESS && done == run.events
        && Settled(apdu, run)
    {
      var plen;
      ghost var sent;
      r, plen, sent := SendPiece(card, apdu, buf);
      Regroup(t, done, sent);
      AfterAfter(done, sent, Remaining(card, card.trace, apdu, buf[plen..]));
      done := done + sent;
      if r != SC_SUCCESS { return; }
      len, buf := len - plen, buf[plen..];
    }
  }

  /** The run of sc_transmit_apdu, `a` being the command with its case detected. */
  ghost function WholeRun(card: Card, t: Trace, apdu: Apdu, a: Command): Run
    requires Sound(card.io)
    reads apdu
  {
    if !Consistent(a, apdu.resplen != 0 && apdu.resp != null, apdu.chaining, card.ext) then
      Run([], SC_ERROR_INVALID_ARGUMENTS, 0, 0, [])
    else if !apdu.chaining then Exchange(card.io, t, a, apdu.resplen, !apdu.noRetry, !apdu.noGetResponse)
    else if a.data == [] then Run([], SC_SUCCESS, apdu.sw1, apdu.sw2, [])
    else if !Fits(a, card.maxSend) then Run([], SC_ERROR_INVALID_ARGUMENTS, 0, 0, [])
    else ChainRun(card.io, t, Chain(a, card.maxSend), apdu.resplen, !apdu.noRetry, !apdu.noGetResponse)
  }

  /** Exactly when sc_transmit_apdu sends nothing: the command is refused, or it is to be chained and
      has no data. In the latter case, and in no other, it reports success all the same. */
  lemma NothingSent(card: Card, t: Trace, apdu: Apdu, a: Command)
    requires Sound(card.io)
    ensures var run := WholeRun(card, t, apdu, a);
      var ok := Consistent(a, apdu.resplen != 0 && apdu.resp != null, apdu.chaining, card.ext);
      && (run.events == [] <==> !ok || (apdu.chaining && (a.data == [] || !Fits(a, card.maxSend))))
      && (run.events == [] && run.r == SC_SUCCESS <==> ok && apdu.chaining && a.data == [])
  {
    hide Sound, Consistent, Exchange, Chain, ChainRun;
    var olen, retry, fetch := apdu.resplen, !apdu.noRetry, !apdu.noGetResponse;
    ExchangeSends(card.io, t, a, olen, retry, fetch);
    if Fits(a, card.maxSend) { ChainSends(card.io, t, Chain(a, card.maxSend), olen, retry, fetch); }
  }

  /** sc_transmit_apdu */
  method TransmitApdu(card: Card, apdu: Apdu) returns (r: int)
    requires apdu.Valid() && Sound(card.io)
    modifies card`trace, apdu`cse, apdu`noRetry, apdu`le, apdu`sw1, apdu`sw2, apdu`resplen, apdu.Buffer()
    ensures var a := old(apdu.Cmd()).(cse := Detected(old(apdu.Cmd()), apdu.chaining, card.ext));
      var run := old(WholeRun(card, card.trace, apdu, a));
      && card.trace == old(card.trace) + run.events && r == run.r
      && Kept(apdu)
      && (r == SC_SUCCESS ==> if apdu.chaining && apdu.data == [] then Unsettled(apdu) else Settled(apdu, run))
    ensures r == SC_SUCCESS ==> (card.trace == old(card.trace) <==> apdu.chaining && apdu.data == [])
  {
    hide Sound, Consistent, Exchange, Chain, ChainRun;
    ghost var t := card.trace;
    DetectCase(card, apdu);
    NothingSent(card, t, apdu, apdu.Cmd());
    assert apdu.Cmd().(data := apdu.data) == apdu.Cmd();
    r := CheckApdu(card, apdu);
    if r != SC_SUCCESS { return SC_ERROR_INVALID_ARGUMENTS; }
    if apdu.chaining {
      r := TransmitChain(card, apdu);
    } else {
      r := Transmit(card, apdu);
    }
  }
}
