/** The transmission of command APDUs (`OpenSC/src/libopensc/apdu.c`) as runs against an arbitrary
    card: one repetition after 6Cxx, GET RESPONSE after 61xx, command chaining. */
module ApduProtocol {
  import opened Octets
  import opened ApduCodec

  // ----- the card -----

  /** What the reader hands back for one command: data and two status octets, or an error. */
  datatype Reply = Answer(data: bytes) | NoAnswer(code: int)

  /** One result of the driver's get_response: what is left to read, 0, or an error; and the data. */
  datatype Chunk = Chunk(rv: int, data: bytes)

  datatype Event = Sent(c: Command, reply: Reply) | Fetched(asked: nat, chunk: Chunk)

  type Trace = seq<Event>

  /** A card answers as it likes, depending on all that has happened before. */
  datatype Responder = Responder(
    transmit: (Trace, Command) -> Reply,
    getResponse: (Trace, nat) -> Chunk,
    checkSw: (nat, nat) -> int)

  /** Readers report errors as negative codes; get_response gives no more than asked for, and
      something while it announces more, at most 256 octets at a time. */
  ghost predicate Sound(card: Responder) {
    && (forall t: Trace, c: Command :: card.transmit(t, c).NoAnswer? ==> card.transmit(t, c).code < 0)
    && (forall t: Trace, n: nat ::
          var k := card.getResponse(t, n);
          |k.data| <= n && (k.rv > 0 ==> k.data != [] && k.rv <= 256))
  }

  // ----- one command -----

  /** r is the result; the status and the octets stored mean something only when it is 0. */
  datatype Run = Run(events: Trace, r: int, sw1: nat, sw2: nat, resp: bytes)

  function Take(b: bytes, n: nat): (t: bytes)
    ensures |t| == (if |b| <= n then |b| else n) && t <= b
  {
    if |b| <= n then b else b[..n]
  }

  /** The number of octets a status of the kind xx announces; 0 stands for 256. */
  function Announced(sw2: nat): nat {
    if sw2 == 0 then 256 else sw2
  }

  /** The return code of the transmission for one reply. */
  function Code(reply: Reply): int {
    match reply
    case NoAnswer(code) => code
    case Answer(data) => if |data| < 2 then SC_ERROR_INTERNAL else SC_SUCCESS
  }

  predicate Good(reply: Reply) {
    reply.Answer? && |reply.data| >= 2
  }

  function Sw1(reply: Reply): nat
    requires Good(reply)
  {
    reply.data[|reply.data| - 2]
  }

  function Sw2(reply: Reply): nat
    requires Good(reply)
  {
    reply.data[|reply.data| - 1]
  }

  function Payload(reply: Reply): bytes
    requires Good(reply)
  {
    reply.data[..|reply.data| - 2]
  }

  /** A reply is the data and, behind them, the two octets of the status. */
  lemma ReplyParts(reply: Reply)
    requires Good(reply)
    ensures reply.data == Payload(reply) + [Sw1(reply), Sw2(reply)]
  {
  }

  /** The length announced is the one whose octet in an Le field is the second octet of the status. */
  lemma AnnouncedIs(sw2: nat)
    requires sw2 < 256
    ensures 1 <= Announced(sw2) <= 256 && Announced(sw2) % 256 == sw2
  {
  }

  /** The GET RESPONSE commands of one run: `asked` octets are announced, `room` octets are free. */
  function Fetches(card: Responder, t: Trace, asked: nat, room: nat): Trace
    requires Sound(card)
    decreases room
  {
    if room == 0 then []
    else
      var k := card.getResponse(t, asked);
      var e := Fetched(asked, k);
      if k.rv <= 0 then [e] else [e] + Fetches(card, t + [e], k.rv, room - |Take(k.data, room)|)
  }

  /** The octets of all chunks, one after the other. */
  function Received(t: Trace): bytes {
    if t == [] then [] else DataOf(t[0]) + Received(t[1..])
  }

  function DataOf(e: Event): bytes {
    if e.Fetched? then e.chunk.data else []
  }

  predicate FetchFailed(fs: Trace) {
    fs != [] && fs[|fs| - 1].Fetched? && fs[|fs| - 1].chunk.rv < 0
  }

  /** After the last answer: 61xx is followed by GET RESPONSE, unless no data are wanted. */
  function Finish(card: Responder, t: Trace, done: Trace, c: Command, reply: Reply, olen: nat, fetch: bool): Run
    requires Sound(card) && Good(reply)
  {
    var body := Take(Payload(reply), olen);
    if Sw1(reply) != 0x61 || !fetch then Run(done, SC_SUCCESS, Sw1(reply), Sw2(reply), body)
    else if c.le == 0 then Run(done, SC_SUCCESS, 0x90, 0, body)
    else
      var fs := Fetches(card, t + done, Announced(Sw2(reply)), olen - |body|);
      if FetchFailed(fs) then Run(done + fs, fs[|fs| - 1].chunk.rv, 0, 0, [])
      else Run(done + fs, SC_SUCCESS, 0x90, 0, Take(body + Received(fs), olen))
  }

  /** sc_transmit: `olen` is the room for the response, `retry` and `fetch` that the flags forbid
      neither the repetition nor GET RESPONSE. */
  function Exchange(card: Responder, t: Trace, c: Command, olen: nat, retry: bool, fetch: bool): Run
    requires Sound(card)
  {
    var e := Sent(c, card.transmit(t, c));
    if !Good(e.reply) then Run([e], Code(e.reply), 0, 0, [])
    else if Sw1(e.reply) != 0x6C || !retry then Finish(card, t, [e], c, e.reply, olen, fetch)
    else if olen < Announced(Sw2(e.reply)) then Run([e], SC_ERROR_WRONG_LENGTH, 0, 0, [])
    else
      var c' := c.(le := Announced(Sw2(e.reply)));
      var e' := Sent(c', card.transmit(t + [e], c'));
      if !Good(e'.reply) then Run([e, e'], Code(e'.reply), 0, 0, [])
      else Finish(card, t, [e, e'], c', e'.reply, olen, fetch)
  }

  // ----- what holds of every exchange -----

  /** The commands sent, GET RESPONSE left out. */
  function Commands(t: Trace): seq<Command> {
    if t == [] then [] else CommandOf(t[0]) + Commands(t[1..])
  }

  function CommandOf(e: Event): seq<Command> {
    if e.Sent? then [e.c] else []
  }

  /** Each request after the first asks for what the reply before it announced. */
  predicate Announces(fs: Trace, asked: nat) {
    fs != [] ==>
      && fs[0].Fetched? && fs[0].asked == asked && |fs[0].chunk.data| <= asked
      && (|fs| > 1 ==> 1 <= fs[0].chunk.rv <= 256 && fs[0].chunk.data != [] && Announces(fs[1..], fs[0].chunk.rv))
  }

  lemma EventBefore(e: Trace, t: Trace)
    requires |e| <= 1
    ensures Commands([]) == [] && Received([]) == [] && e + [] == e
    ensures e != [] ==> (e + t)[1..] == t && Commands(e + t) == CommandOf(e[0]) + Commands(t) && Received(e + t) == DataOf(e[0]) + Received(t)
  {
    if e != [] { assert (e + t)[1..] == t; }
  }

  lemma FirstFetch(card: Responder, t: Trace, asked: nat, room: nat)
    requires Sound(card)
    ensures room == 0 ==> Fetches(card, t, asked, room) == []
    ensures room > 0 ==>
      var k := card.getResponse(t, asked);
      var e := Fetched(asked, k);
      && |k.data| <= asked && (k.rv > 0 ==> k.data != [] && k.rv <= 256)
      && Fetches(card, t, asked, room)
        == if k.rv <= 0 then [e] else [e] + Fetches(card, t + [e], k.rv, room - |Take(k.data, room)|)
  {
  }

  lemma OneMoreFetch(e: Event, fs: Trace, room: nat)
    requires e.Fetched? && |e.chunk.data| <= e.asked && 1 <= e.chunk.rv <= 256 && e.chunk.data != [] && room > 0
    requires var more := room - |Take(e.chunk.data, room)|;
      && |fs| <= more && (forall i :: 0 <= i < |fs| ==> fs[i].Fetched?) && Announces(fs, e.chunk.rv) && Commands(fs) == []
      && (more > 0 ==> fs != [] && fs[|fs| - 1].Fetched? && (fs[|fs| - 1].chunk.rv <= 0 || |Received(fs)| >= more))
      && (more == 0 ==> fs == [])
    ensures var all := [e] + fs;
      && |all| <= room && (forall i :: 0 <= i < |all| ==> all[i].Fetched?) && Announces(all, e.asked) && Commands(all) == []
      && all[|all| - 1].Fetched? && (all[|all| - 1].chunk.rv <= 0 || |Received(all)| >= room)
  {
    hide Received, Commands;
    EventBefore([e], fs);
  }

  lemma LastFetch(e: Event)
    requires e.Fetched? && |e.chunk.data| <= e.asked
    ensures Announces([e], e.asked) && Commands([e]) == []
  {
    EventBefore([e], []);
  }

  /** Requests are bounded by the room, ask for at most 256 octets and stop when the card has
      nothing left, an error occurs, or the room is used up. */
  lemma {:induction false} FetchesAre(card: Responder, t: Trace, asked: nat, room: nat)
    requires Sound(card)
    ensures var fs := Fetches(card, t, asked, room);
      && |fs| <= room && (forall i :: 0 <= i < |fs| ==> fs[i].Fetched?) && Announces(fs, asked) && Commands(fs) == []
      && (room > 0 ==> fs != [] && fs[|fs| - 1].Fetched? && (fs[|fs| - 1].chunk.rv <= 0 || |Received(fs)| >= room))
      && (room == 0 ==> fs == [])
    decreases room
  {
    hide Received, Commands, Sound, Take, Fetches;
    FirstFetch(card, t, asked, room);
    if room > 0 {
      var k := card.getResponse(t, asked);
      var e := Fetched(asked, k);
      if k.rv > 0 {
        var more := room - |Take(k.data, room)|;
        FetchesAre(card, t + [e], k.rv, more);
        OneMoreFetch(e, Fetches(card, t + [e], k.rv, more), room);
      } else {
        LastFetch(e);
      }
    } else {
      EventBefore([], []);
    }
  }

  lemma {:induction false} CommandsConcat(a: Trace, b: Trace)
    ensures Commands(a + b) == Commands(a) + Commands(b)
  {
    if a == [] {
      assert a + b == b;
    } else {
      CommandsConcat(a[1..], b);
      assert (a + b)[1..] == a[1..] + b;
      Regroup(CommandOf(a[0]), Commands(a[1..]), Commands(b));
    }
  }

  lemma Regroup<T>(x: seq<T>, y: seq<T>, z: seq<T>)
    ensures x + (y + z) == x + y + z
  {
  }

  lemma {:induction false} ReceivedConcat(a: Trace, b: Trace)
    ensures Received(a + b) == Received(a) + Received(b)
  {
    if a == [] {
      assert a + b == b;
    } else {
      ReceivedConcat(a[1..], b);
      assert (a + b)[1..] == a[1..] + b;
      Regroup(DataOf(a[0]), Received(a[1..]), Received(b));
    }
  }

  /** The last reply to a command in a trace that holds one or two of them in front. */
  function LastReply(t: Trace): Reply
    requires t != [] && t[0].Sent?
  {
    if |t| > 1 && t[1].Sent? then t[1].reply else t[0].reply
  }

  /** The response that is due: the last answer and all chunks, as far as there is room. */
  ghost predicate Assembled(run: Run, olen: nat) {
    && run.events != [] && run.events[0].Sent? && Good(LastReply(run.events))
    && run.resp == Take(Payload(LastReply(run.events)) + Received(run.events), olen)
  }

  ghost predicate AllSent(done: Trace) {
    1 <= |done| <= 2 && forall i :: 0 <= i < |done| ==> done[i].Sent?
  }

  lemma NoCommands()
    ensures Commands([]) == [] && Received([]) == []
  {
  }

  lemma SentOnly(done: Trace, fs: Trace)
    requires AllSent(done) && Commands(fs) == []
    ensures Commands(done + fs) == Commands(done) && Received(done + fs) == Received(fs)
  {
    CommandsConcat(done, fs);
    ReceivedConcat(done, fs);
    assert done == [done[0]] || done == [done[0], done[1]];
    assert Received(done) == [] by { assert done[1..] == [] || done[1..][1..] == []; }
    assert Commands(done) + [] == Commands(done) && [] + Received(fs) == Received(fs);
  }

  lemma TakeTwice(a: bytes, b: bytes, n: nat)
    ensures Take(Take(a, n) + b, n) == Take(a + b, n)
  {
  }

  lemma FinishIs(card: Responder, t: Trace, done: Trace, c: Command, reply: Reply, olen: nat, fetch: bool)
    requires Sound(card) && Good(reply) && AllSent(done) && done[|done| - 1] == Sent(c, reply)
    ensures var run := Finish(card, t, done, c, reply, olen, fetch);
      && |run.events| <= |done| + olen && done <= run.events && Commands(run.events) == Commands(done)
      && (run.r == SC_SUCCESS ==> run.resp == Take(Payload(reply) + Received(run.events), olen))
      && (run.r == SC_SUCCESS && |run.resp| < olen && |run.events| > |done| ==>
            var last := run.events[|run.events| - 1]; last.Fetched? && last.chunk.rv == 0)
      && (run.r == SC_SUCCESS && run.sw1 == 0x61 ==> !fetch)
      && (run.r == SC_SUCCESS && run.sw1 == 0x6C ==> Sw1(reply) == 0x6C)
      && (forall i :: |done| <= i < |run.events| ==> run.events[i].Fetched?)
  {
    hide Fetches, Announces, AllSent, Take, Received, Commands;
    NoCommands();
    SentOnly(done, []);
    assert done + [] == done && Payload(reply) + [] == Payload(reply);
    if Sw1(reply) == 0x61 && fetch && c.le != 0 { FinishFetches(card, t, done, c, reply, olen); }
  }

  lemma FinishFetches(card: Responder, t: Trace, done: Trace, c: Command, reply: Reply, olen: nat)
    requires Sound(card) && Good(reply) && AllSent(done) && Sw1(reply) == 0x61 && c.le != 0
    ensures var run := Finish(card, t, done, c, reply, olen, true);
      && |run.events| <= |done| + olen && done <= run.events && Commands(run.events) == Commands(done)
      && (run.r == SC_SUCCESS ==>
            && run.resp == Take(Payload(reply) + Received(run.events), olen) && run.sw1 == 0x90
            && (|run.resp| < olen && |run.events| > |done| ==>
                  var last := run.events[|run.events| - 1]; last.Fetched? && last.chunk.rv == 0))
      && (forall i :: |done| <= i < |run.events| ==> run.events[i].Fetched?)
  {
    hide Fetches, Announces, AllSent, Take, Received, Commands;
    var body := Take(Payload(reply), olen);
    var fs := Fetches(card, t + done, Announced(Sw2(reply)), olen - |body|);
    FetchesAre(card, t + done, Announced(Sw2(reply)), olen - |body|);
    SentOnly(done, fs);
    TakeTwice(Payload(reply), Received(fs), olen);
    var n := |body| + |Received(fs)|;
    assert |body| <= olen && |Take(body + Received(fs), olen)| == if n <= olen then n else olen;
  }

  lemma CommandsSent(c: Command, r: Reply, c': Command, r': Reply)
    ensures Commands([Sent(c, r)]) == [c] && Commands([Sent(c, r), Sent(c', r')]) == [c, c']
  {
    assert [Sent(c, r)][1..] == [] && [Sent(c', r')][1..] == [] && [Sent(c, r), Sent(c', r')][1..] == [Sent(c', r')];
  }

  /** Whatever the card does: the command goes out once, or a second time with the length the card
      demands, after 6Cxx and only if the buffer is long enough; there are at most as many GET
      RESPONSE commands as octets of room; the response is the answer and all chunks in order, cut
      to the buffer; and with room left nothing the card has announced is left behind. */
  lemma {:induction false} ExchangeIs(card: Responder, t: Trace, c: Command, olen: nat, retry: bool, fetch: bool)
    requires Sound(card)
    ensures var run := Exchange(card, t, c, olen, retry, fetch);
      && run.events != [] && |run.events| <= 2 + olen && run.events[0] == Sent(c, card.transmit(t, c))
      && (Commands(run.events) == [c]
          || (&& retry && Good(run.events[0].reply) && Sw1(run.events[0].reply) == 0x6C
              && Announced(Sw2(run.events[0].reply)) <= olen
              && Commands(run.events) == [c, c.(le := Announced(Sw2(run.events[0].reply)))]))
      && (run.r == SC_SUCCESS ==> Assembled(run, olen) && |run.resp| <= olen)
      && (run.r == SC_SUCCESS && |run.resp| < olen && |run.events| > |Commands(run.events)| ==>
            var last := run.events[|run.events| - 1]; last.Fetched? && last.chunk.rv == 0)
      && (run.r == SC_SUCCESS && run.sw1 == 0x61 ==> !fetch)
      && (run.r == SC_SUCCESS && run.sw1 == 0x6C && retry ==> |Commands(run.events)| == 2)
  {
    hide Finish, Take;
    var e := Sent(c, card.transmit(t, c));
    CommandsSent(c, e.reply, c, e.reply);
    if Good(e.reply) {
      if Sw1(e.reply) != 0x6C || !retry {
        FinishIs(card, t, [e], c, e.reply, olen, fetch);
      } else if olen >= Announced(Sw2(e.reply)) {
        var c' := c.(le := Announced(Sw2(e.reply)));
        var e' := Sent(c', card.transmit(t + [e], c'));
        CommandsSent(c, e.reply, c', e'.reply);
        if Good(e'.reply) { FinishIs(card, t, [e, e'], c', e'.reply, olen, fetch); }
      }
    }
  }

  /** What comes of the last answer: an error of the reader or the card, or the demand for a longer
      buffer than there is; otherwise its two status octets, or 9000 in place of 61xx when GET RESPONSE
      is allowed. After 61xx the first GET RESPONSE asks for what the status announces. */
  lemma {:induction false} ExchangeStatus(card: Responder, t: Trace, c: Command, olen: nat, retry: bool, fetch: bool)
    requires Sound(card)
    ensures var run := Exchange(card, t, c, olen, retry, fetch);
      var n := |Commands(run.events)|;
      && 1 <= n <= |run.events| && run.events[n - 1].Sent? && (forall i :: n <= i < |run.events| ==> run.events[i].Fetched?)
      && Outcome(run, run.events[n - 1].reply, n, olen, retry, fetch)
      && (|run.events| > n <==> Continues(run.events[n - 1], olen, fetch))
      && (|run.events| > n ==> run.events[n].asked == Announced(Sw2(run.events[n - 1].reply)))
  {
    hide Finish, Sound, Commands;
    var e := Sent(c, card.transmit(t, c));
    CommandsSent(c, e.reply, c, e.reply);
    if Good(e.reply) {
      if Sw1(e.reply) != 0x6C || !retry {
        FinishStatus(card, t, [e], c, e.reply, olen, retry, fetch);
      } else if olen >= Announced(Sw2(e.reply)) {
        var c' := c.(le := Announced(Sw2(e.reply)));
        var e' := Sent(c', card.transmit(t + [e], c'));
        CommandsSent(c, e.reply, c', e'.reply);
        if Good(e'.reply) { FinishStatus(card, t, [e, e'], c', e'.reply, olen, retry, fetch); }
      }
    }
  }

  /** The result and the status after the reply to the n-th command. */
  predicate Outcome(run: Run, reply: Reply, n: nat, olen: nat, retry: bool, fetch: bool)
    requires run.events != []
  {
    var last := run.events[|run.events| - 1];
    match reply
    case NoAnswer(code) => run.r == code
    case Answer(d) =>
      if |d| < 2 then run.r == SC_ERROR_INTERNAL
      else if d[|d| - 2] == 0x6C && retry && n == 1 then run.r == SC_ERROR_WRONG_LENGTH && olen < Announced(d[|d| - 1])
      else if d[|d| - 2] != 0x61 || !fetch then run.r == SC_SUCCESS && run.sw1 == d[|d| - 2] && run.sw2 == d[|d| - 1]
      else if last.Fetched? && last.chunk.rv < 0 then run.r == last.chunk.rv
      else run.r == SC_SUCCESS && run.sw1 == 0x90 && run.sw2 == 0
  }

  /** After this reply the rest is to be fetched. */
  predicate Continues(e: Event, olen: nat, fetch: bool) {
    && e.Sent? && Good(e.reply) && fetch && e.c.le != 0
    && e.reply.data[|e.reply.data| - 2] == 0x61 && |e.reply.data| - 2 < olen
  }

  /** The requests at the end of a run, and its result. */
  lemma FinishParts(card: Responder, t: Trace, done: Trace, c: Command, reply: Reply, olen: nat, fetch: bool) returns (fs: Trace)
    requires Sound(card) && Good(reply)
    ensures var run, more := Finish(card, t, done, c, reply, olen, fetch), Sw1(reply) == 0x61 && fetch;
      && run.events == done + fs && Commands(fs) == [] && (forall i :: 0 <= i < |fs| ==> fs[i].Fetched?)
      && (fs != [] <==> more && c.le != 0 && |Payload(reply)| < olen) && (fs != [] ==> fs[0].asked == Announced(Sw2(reply)))
      && (!more ==> run.r == SC_SUCCESS && run.sw1 == Sw1(reply) && run.sw2 == Sw2(reply))
      && (more && FetchFailed(fs) ==> run.r == fs[|fs| - 1].chunk.rv)
      && (more && !FetchFailed(fs) ==> run.r == SC_SUCCESS && run.sw1 == 0x90 && run.sw2 == 0)
  {
    hide Received, Commands, Sound, Fetches;
    fs := [];
    NoCommands();
    assert done + [] == done;
    if Sw1(reply) == 0x61 && fetch && c.le != 0 {
      var room := olen - |Take(Payload(reply), olen)|;
      fs := Fetches(card, t + done, Announced(Sw2(reply)), room);
      FetchesAre(card, t + done, Announced(Sw2(reply)), room);
    }
  }

  lemma FinishStatus(card: Responder, t: Trace, done: Trace, c: Command, reply: Reply, olen: nat, retry: bool, fetch: bool)
    requires Sound(card) && Good(reply) && AllSent(done) && done[|done| - 1] == Sent(c, reply)
    requires Sw1(reply) == 0x6C && retry ==> |done| == 2
    requires |Commands(done)| == |done|
    ensures var run, n := Finish(card, t, done, c, reply, olen, fetch), |done|;
      && |Commands(run.events)| == n <= |run.events| && run.events[n - 1] == Sent(c, reply)
      && (forall i :: n <= i < |run.events| ==> run.events[i].Fetched?)
      && Outcome(run, reply, n, olen, retry, fetch)
      && (|run.events| > n <==> Continues(run.events[n - 1], olen, fetch))
      && (|run.events| > n ==> run.events[n].asked == Announced(Sw2(reply)))
  {
    hide Finish, Received, Commands, Sound, Announced;
    var fs := FinishParts(card, t, done, c, reply, olen, fetch);
    SentOnly(done, fs);
    assert forall i :: 0 <= i < |fs| ==> (done + fs)[|done| + i] == fs[i];
  }

  // ----- command chaining -----

  /** The class octet with the chaining bit. */
  function Chained(cla: u8): u8 {
    if cla / 16 % 2 == 1 then cla else cla + 16
  }

  lemma ChainedBits(cla: u8)
    ensures Chained(cla) / 16 % 2 == 1 && Chained(cla) % 16 == cla % 16 && Chained(cla) / 32 == cla / 32
  {
  }

  /** A command of the chain that is not the last: no response expected, case 3 instead of case 4. */
  function Link(c: Command, m: nat): Command
    requires m <= |c.data|
  {
    c.(cse := if c.cse % 16 == CASE_4_SHORT then c.cse - 1 else c.cse,
       cla := Chained(c.cla), lc := m, le := 0, data := c.data[..m])
  }

  lemma LinkAs(c: Command, m: nat)
    requires m <= |c.data|
    ensures Link(c, m) == Command(if c.cse % 16 == CASE_4_SHORT then c.cse - 1 else c.cse,
                                  Chained(c.cla), c.ins, c.p1, c.p2, m, 0, c.data[..m])
  {
    hide Chained;
  }

  function Chain(c: Command, m: nat): (cs: seq<Command>)
    requires m > 0
    ensures cs != []
    decreases |c.data|
  {
    if |c.data| <= m then [c.(lc := |c.data|)] else [Link(c, m)] + Chain(c.(data := c.data[m..]), m)
  }

  function AllData(cs: seq<Command>): bytes {
    if cs == [] then [] else cs[0].data + AllData(cs[1..])
  }

  /** What a command before the last is made of. */
  predicate IsLink(l: Command, c: Command, m: nat) {
    && |l.data| == m && l == c.(cse := l.cse, cla := l.cla, lc := m, le := 0, data := l.data)
    && l.cla / 16 % 2 == 1 && l.cla % 16 == c.cla % 16 && l.cla / 32 == c.cla / 32
    && l.cse == if c.cse % 16 == CASE_4_SHORT then c.cse - 1 else c.cse
  }

  lemma LinkIs(c: Command, rest: Command, m: nat)
    requires m <= |c.data| && rest == c.(data := rest.data)
    ensures IsLink(Link(c, m), c, m) && Link(c, m).data == c.data[..m]
    ensures forall x :: IsLink(x, rest, m) ==> IsLink(x, c, m)
  {
    hide Chained;
    ChainedBits(c.cla);
  }

  /** The chain carries the data, in full pieces but for the last, and only the last command is as
      the caller made it. */
  lemma {:induction false} ChainIs(c: Command, m: nat)
    requires m > 0
    ensures var cs := Chain(c, m); var n := |cs| - 1;
      && AllData(cs) == c.data
      && (forall i :: 0 <= i < n ==> IsLink(cs[i], c, m))
      && cs[n] == c.(lc := |cs[n].data|, data := cs[n].data)
      && |cs[n].data| <= m && (c.data != [] ==> cs[n].data != [])
    decreases |c.data|
  {
    hide IsLink, Link;
    if |c.data| <= m {
      assert [c.(lc := |c.data|)][1..] == [];
    } else {
      var rest := c.(data := c.data[m..]);
      ChainIs(rest, m);
      LinkIs(c, rest, m);
      var l, cs := Link(c, m), Chain(rest, m);
      assert ([l] + cs)[1..] == cs;
      assert c.data == c.data[..m] + c.data[m..];
    }
  }

  /** Every command before the last has the chaining bit, the other seven bits of the class octet are
      as they were. */
  lemma {:induction false} ChainingBit(c: Command, m: nat, i: nat)
    requires m > 0 && i < |Chain(c, m)| - 1
    ensures var l := Chain(c, m)[i].cla; l / 16 % 2 == 1 && l % 16 == c.cla % 16 && l / 32 == c.cla / 32
  {
    ChainIs(c, m);
  }

  lemma {:induction false} ChainLength(c: Command, m: nat)
    requires m > 0
    ensures var cs := Chain(c, m); |c.data| == m * (|cs| - 1) + |cs[|cs| - 1].data|
    decreases |c.data|
  {
    if |c.data| > m {
      var rest := c.(data := c.data[m..]);
      ChainLength(rest, m);
      var n := |Chain(rest, m)|;
      hide Link;
      assert m * n == m * (n - 1) + m;
    }
  }

  /** The number of commands is the data length over the piece length, rounded up. */
  lemma {:induction false} ChainCount(c: Command, m: nat)
    requires m > 0 && c.data != []
    ensures |Chain(c, m)| == (|c.data| + m - 1) / m
  {
    ChainIs(c, m);
    ChainLength(c, m);
    hide Chain;
    var cs := Chain(c, m);
    var last := |cs[|cs| - 1].data|;
    var n: nat := |cs|;
    assert m * (n - 1) == m * n - m;
    DivUnique(|c.data| + m - 1, m, n, last - 1);
  }

  /** The chain against the card. Only the last command has room for a response; the others are
      judged by their status. */
  function ChainRun(card: Responder, t: Trace, cs: seq<Command>, olen: nat, retry: bool, fetch: bool): Run
    requires Sound(card) && cs != []
    decreases |cs|
  {
    if |cs| == 1 then Exchange(card, t, cs[0], olen, retry, fetch)
    else
      var e := Exchange(card, t, cs[0], 0, retry, fetch);
      if e.r != SC_SUCCESS then e
      else if card.checkSw(e.sw1, e.sw2) != SC_SUCCESS then e.(r := card.checkSw(e.sw1, e.sw2))
      else After(e.events, ChainRun(card, t + e.events, cs[1..], olen, retry, fetch))
  }

  lemma ExchangeSends(card: Responder, t: Trace, c: Command, olen: nat, retry: bool, fetch: bool)
    requires Sound(card)
    ensures Exchange(card, t, c, olen, retry, fetch).events != []
  {
    hide Sound, Good, Sw1, Sw2, Announced;
  }

  lemma ChainSends(card: Responder, t: Trace, cs: seq<Command>, olen: nat, retry: bool, fetch: bool)
    requires Sound(card) && cs != []
    ensures ChainRun(card, t, cs, olen, retry, fetch).events != []
  {
    hide Sound, Exchange;
    ExchangeSends(card, t, cs[0], if |cs| == 1 then olen else 0, retry, fetch);
  }

  function After(t: Trace, run: Run): Run {
    run.(events := t + run.events)
  }

  /** A command without room is sent once and fetches nothing. */
  lemma LinkOnce(card: Responder, t: Trace, c: Command, retry: bool, fetch: bool)
    requires Sound(card) && c.le == 0
    ensures Exchange(card, t, c, 0, retry, fetch).events == [Sent(c, card.transmit(t, c))]
  {
  }

  /** The commands up to the point where the chain was broken off, and a repetition of the last. */
  ghost predicate FollowsChain(run: Run, cs: seq<Command>) {
    var sent := Commands(run.events);
    if |sent| <= |cs| then sent <= cs
    else |sent| == |cs| + 1 && cs != [] && sent[..|cs|] == cs && sent[|cs|] == cs[|cs| - 1].(le := sent[|cs|].le)
  }

  lemma FollowsLonger(e: Event, rest: Run, cs: seq<Command>)
    requires |cs| > 1 && e.Sent? && e.c == cs[0] && FollowsChain(rest, cs[1..])
    ensures FollowsChain(After([e], rest), cs)
    ensures |Commands(After([e], rest).events)| == 1 + |Commands(rest.events)|
  {
    CommandsConcat([e], rest.events);
    CommandsSent(e.c, e.reply, e.c, e.reply);
    var sent := Commands(rest.events);
    assert cs == [cs[0]] + cs[1..];
    if |sent| == |cs| { assert ([cs[0]] + sent)[..|cs|] == [cs[0]] + sent[..|cs| - 1]; }
  }

  /** In every run the commands sent are a prefix of the chain, and all of it on success. */
  lemma {:induction false} ChainFollowed(card: Responder, t: Trace, cs: seq<Command>, olen: nat, retry: bool, fetch: bool)
    requires Sound(card) && cs != [] && forall i :: 0 <= i < |cs| - 1 ==> cs[i].le == 0
    ensures var run := ChainRun(card, t, cs, olen, retry, fetch);
      && FollowsChain(run, cs)
      && (run.r == SC_SUCCESS ==> |Commands(run.events)| >= |cs|)
      && (run.r == SC_SUCCESS ==> |run.resp| <= olen)
    decreases |cs|
  {
    if |cs| == 1 {
      ExchangeIs(card, t, cs[0], olen, retry, fetch);
      assert cs == [cs[0]];
    } else {
      hide Exchange, FollowsChain;
      LinkOnce(card, t, cs[0], retry, fetch);
      var e := Exchange(card, t, cs[0], 0, retry, fetch);
      SentFirst(e, cs);
      if e.r == SC_SUCCESS && card.checkSw(e.sw1, e.sw2) == SC_SUCCESS {
        ChainFollowed(card, t + e.events, cs[1..], olen, retry, fetch);
        FollowsLonger(e.events[0], ChainRun(card, t + e.events, cs[1..], olen, retry, fetch), cs);
      }
    }
  }

  lemma SentFirst(e: Run, cs: seq<Command>)
    requires cs != [] && |e.events| == 1 && e.events[0].Sent? && e.events[0].c == cs[0]
    ensures FollowsChain(e, cs)
    ensures forall r :: FollowsChain(e.(r := r), cs)
  {
    CommandsSent(cs[0], e.events[0].reply, cs[0], e.events[0].reply);
    assert e.events == [Sent(cs[0], e.events[0].reply)];
  }

  /** The status of a command before the last is judged good; 61xx counts as 9000, unless GET
      RESPONSE is forbidden. */
  predicate Approved(card: Responder, reply: Reply, fetch: bool) {
    Good(reply)
    && if Sw1(reply) == 0x61 && fetch then card.checkSw(0x90, 0) == SC_SUCCESS
       else card.checkSw(Sw1(reply), Sw2(reply)) == SC_SUCCESS
  }

  /** After a chain that succeeds all commands before the last were approved, and the last one alone
      has supplied status and response. */
  lemma {:induction false} LastSupplies(card: Responder, t: Trace, cs: seq<Command>, olen: nat, retry: bool, fetch: bool)
    requires Sound(card) && cs != [] && forall i :: 0 <= i < |cs| - 1 ==> cs[i].le == 0
    requires ChainRun(card, t, cs, olen, retry, fetch).r == SC_SUCCESS
    ensures var run, n := ChainRun(card, t, cs, olen, retry, fetch), |cs| - 1;
      && |run.events| >= n
      && run == After(run.events[..n], Exchange(card, t + run.events[..n], cs[n], olen, retry, fetch))
      && forall i :: 0 <= i < n ==> ApprovedCommand(card, run.events[i], cs[i], fetch)
    decreases |cs|
  {
    hide Exchange, ApprovedCommand;
    if |cs| == 1 {
      assert t + [] == t;
    } else {
      LinkApproved(card, t, cs[0], retry, fetch);
      var first := Exchange(card, t, cs[0], 0, retry, fetch).events;
      LastSupplies(card, t + first, cs[1..], olen, retry, fetch);
      var rest := ChainRun(card, t + first, cs[1..], olen, retry, fetch);
      assert ChainRun(card, t, cs, olen, retry, fetch) == After(first, rest);
      hide ChainRun, Sound;
      OneEarlier(card, t, first[0], rest, cs, olen, retry, fetch);
    }
  }

  predicate ApprovedCommand(card: Responder, e: Event, c: Command, fetch: bool) {
    e.Sent? && e.c == c && Approved(card, e.reply, fetch)
  }

  lemma OneEarlier(card: Responder, t: Trace, e: Event, rest: Run, cs: seq<Command>, olen: nat, retry: bool, fetch: bool)
    requires Sound(card) && |cs| > 1 && |rest.events| >= |cs| - 2 && ApprovedCommand(card, e, cs[0], fetch)
    requires var n, u := |cs| - 2, t + [e];
      && rest == After(rest.events[..n], Exchange(card, u + rest.events[..n], cs[1..][n], olen, retry, fetch))
      && forall i :: 0 <= i < n ==> ApprovedCommand(card, rest.events[i], cs[1..][i], fetch)
    ensures var run, n := After([e], rest), |cs| - 1;
      && run == After(run.events[..n], Exchange(card, t + run.events[..n], cs[n], olen, retry, fetch))
      && forall i :: 0 <= i < n ==> ApprovedCommand(card, run.events[i], cs[i], fetch)
  {
    hide Exchange, ApprovedCommand, Sound;
    var run, n := After([e], rest), |cs| - 1;
    var pre := rest.events[..n - 1];
    assert run.events[..n] == [e] + pre;
    assert t + ([e] + pre) == t + [e] + pre;
    var x := Exchange(card, t + [e] + pre, cs[n], olen, retry, fetch);
    assert [e] + (pre + x.events) == [e] + pre + x.events;
    forall i | 0 <= i < n ensures ApprovedCommand(card, run.events[i], cs[i], fetch) {
      assert i > 0 ==> run.events[i] == rest.events[i - 1] && cs[i] == cs[1..][i - 1];
    }
  }

  lemma LinkApproved(card: Responder, t: Trace, c: Command, retry: bool, fetch: bool)
    requires Sound(card) && c.le == 0
    ensures var e := Exchange(card, t, c, 0, retry, fetch);
      && e.events == [Sent(c, card.transmit(t, c))]
      && (e.r == SC_SUCCESS && card.checkSw(e.sw1, e.sw2) == SC_SUCCESS ==> ApprovedCommand(card, e.events[0], c, fetch))
  {
  }

  lemma {:induction false} PrefixData(cs: seq<Command>, k: nat)
    requires k <= |cs|
    ensures AllData(cs[..k]) <= AllData(cs)
  {
    if k > 0 {
      PrefixData(cs[1..], k - 1);
      assert cs[..k][1..] == cs[1..][..k - 1] && cs[..k][0] == cs[0];
    }
  }

  /** Command chaining, for every card: the data sent so far are a prefix of the command data; on
      success they are all of them, in as many commands as it takes pieces of m octets, not counting
      a repetition of the last. */
  lemma {:induction false} ChainedTransmission(card: Responder, t: Trace, c: Command, m: nat, olen: nat, retry: bool, fetch: bool)
    requires Sound(card) && m > 0 && c.data != []
    ensures var run, count := ChainRun(card, t, Chain(c, m), olen, retry, fetch), (|c.data| + m - 1) / m;
      var sent := Commands(run.events);
      && FollowsChain(run, Chain(c, m)) && |Chain(c, m)| == count && |sent| <= count + 1
      && AllData(if |sent| <= count then sent else sent[..count]) <= c.data
      && (run.r == SC_SUCCESS ==> |sent| >= count && sent[..count] == Chain(c, m) && AllData(sent[..count]) == c.data)
  {
    hide Chain, ChainRun, Exchange;
    ChainIs(c, m);
    ChainCount(c, m);
    ChainFollowed(card, t, Chain(c, m), olen, retry, fetch);
    var cs, sent := Chain(c, m), Commands(ChainRun(card, t, Chain(c, m), olen, retry, fetch).events);
    if |sent| <= |cs| {
      assert sent == cs[..|sent|];
      PrefixData(cs, |sent|);
    }
    assert cs[..|cs|] == cs;
  }
}
