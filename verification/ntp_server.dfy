/** The `NtpServer` class: a UDP listener that answers every 48-byte datagram
    with a server-mode reply.

    The socket is abstracted to the events it delivers: `Stop` calls, the two
    statements of each `Start` call, and completions of pending receives,
    which may come between those two statements. A completion either carries a
    datagram with its source endpoint or is a failed receive (whose exception
    the handler swallows). The three readings of `DateTime.UtcNow` the handler
    takes, already converted to NTP timestamps, are part of the completion.
 */
module NtpServer {
  import opened Numerics
  import opened Results
  import opened NtpTypes
  import opened NtpWire
  import ServerPacket
  import NtpPacket

  /** An IP endpoint: address bytes and port. */
  datatype Endpoint = Endpoint(address: seq<uint8>, port: uint16)

  datatype Datagram = Datagram(payload: seq<uint8>, peer: Endpoint)

  /** The clock readings of one `OnReceiveData` call, in the order the handler
      takes them: on arrival, then for the reference timestamp, then for the
      transmit timestamp. */
  datatype Clock = Clock(received: NtpTimestamp, reference: NtpTimestamp, transmit: NtpTimestamp)

  /** What `EndReceive` hands the callback. */
  datatype ReceiveOutcome = Received(datagram: Datagram) | ReceiveFailed

  /** The reply packet built from a parsed request: leap 0, version 4, mode
      Server, stratum 1, the request's transmit timestamp echoed as originate
      timestamp, the clock readings for the other three timestamps, and
      everything else as in a fresh packet. */
  function ReplyPacket(request: ServerPacket.Packet, clock: Clock): (r: ServerPacket.Packet)
    ensures ServerPacket.ProtocolMode(r) == Some(NtpTypes.Server)
    ensures r.originate == request.transmit
  {
    var blank := ServerPacket.Default();
    ServerPacket.SetProtocolMode(blank, NtpTypes.Server).(
      leap := 0,
      version := 4,
      stratum := 1,
      reference := clock.reference,
      originate := request.transmit,
      receive := clock.received,
      transmit := clock.transmit)
  }

  /** The bytes 1-47 every reply carries for a request whose transmit
      timestamp is `transmit`. */
  function ReplyBody(transmit: NtpTimestamp, clock: Clock): Body
  {
    Body(1, 0, 0, ZeroShortTime, ZeroShortTime, ZeroRefId,
         clock.reference, transmit, clock.received, clock.transmit)
  }

  /** The reply `OnReceiveData` sends for a received buffer: none unless the
      buffer is exactly 48 bytes long. Byte 0 is 0x24 (leap 0, version 4,
      mode 4); the transmit timestamp of the request, bytes 40-47, comes back
      as the originate timestamp. */
  function Reply(request: seq<uint8>, clock: Clock): (r: Option<seq<uint8>>)
    ensures r.Some? <==> |request| == PacketSize
    ensures r.Some? ==>
      && |r.value| == PacketSize
      && r.value[0] == 0x24
      && BodyAt(r.value) == ReplyBody(BodyAt(request).transmit, clock)
    ensures r.Some? ==> r.value == HeaderBytes(0x24, ReplyBody(BodyAt(request).transmit, clock))
  {
    if |request| != PacketSize then None
    else
      var received := ServerPacket.Parse(request);
      assert received.transmit == BodyAt(request).transmit by {
        ServerPacket.ParseWithLayout(request, HighBits);
      }
      var reply := ReplyPacket(received, clock);
      ReplyPacketHeader(received, clock);
      Some(ServerPacket.ToBytes(reply))
  }

  // ---------------------------------------------------------------------
  // Start, Stop and the receive loop

  /** `IsWorking`, the number of receives begun whose callback has not run
      yet, and whether a `Start()` call is between its two statements. */
  datatype ServerState = ServerState(working: bool, pending: nat, starting: bool)

  /** A freshly constructed server: bound, not working, nothing pending. */
  const Initial := ServerState(false, 0, false)

  /** The order of the two statements of `Start()`. As written, it begins a
      receive and then sets `IsWorking`; the corrected order sets `IsWorking`
      first and then begins the receive. */
  datatype StartOrder = AsWritten | Corrected

  /** The first statement of `Start()`: `BeginReceive` as written,
      `IsWorking = true` in the corrected order. */
  function StartFirstHalf(s: ServerState, order: StartOrder): (r: ServerState)
    requires !s.starting
    ensures r.starting
    ensures order == AsWritten ==> r.working == s.working && r.pending == s.pending + 1
    ensures order == Corrected ==> r.working && r.pending == s.pending
  {
    match order
    case AsWritten => s.(pending := s.pending + 1, starting := true)
    case Corrected => s.(working := true, starting := true)
  }

  /** The second statement of `Start()`: `IsWorking = true` as written,
      `BeginReceive` in the corrected order. */
  function StartSecondHalf(s: ServerState, order: StartOrder): (r: ServerState)
    requires s.starting
    ensures !r.starting
    ensures order == AsWritten ==> r.working && r.pending == s.pending
    ensures order == Corrected ==> r.working == s.working && r.pending == s.pending + 1
  {
    match order
    case AsWritten => s.(working := true, starting := false)
    case Corrected => s.(pending := s.pending + 1, starting := false)
  }

  /** `Start()` when nothing runs between its two statements: in either
      order the server is working with one more receive pending. */
  function Start(s: ServerState, order: StartOrder): (r: ServerState)
    requires !s.starting
    ensures r == ServerState(true, s.pending + 1, false)
  {
    StartSecondHalf(StartFirstHalf(s, order), order)
  }

  /** `Stop()`: clear `IsWorking`. The pending receive is not cancelled. */
  function Stop(s: ServerState): (r: ServerState)
    ensures !r.working && r.pending == s.pending && r.starting == s.starting
  {
    s.(working := false)
  }

  /** The datagram `OnReceiveData` sends for one completed receive: the reply
      to a 48-byte datagram, addressed to its source; nothing for any other
      datagram or a failed receive. */
  function Respond(outcome: ReceiveOutcome, clock: Clock): (r: Option<Datagram>)
    ensures r.Some? <==> outcome.Received? && |outcome.datagram.payload| == PacketSize
    ensures r.Some? ==> r.value.peer == outcome.datagram.peer
    ensures r.Some? ==> Some(r.value.payload) == Reply(outcome.datagram.payload, clock)
  {
    match outcome
    case ReceiveFailed => None
    case Received(d) =>
      match Reply(d.payload, clock)
      case Some(bytes) => Some(Datagram(bytes, d.peer))
      case None => None
  }

  /** The state after `OnReceiveData`: the completed receive is no longer
      pending, and a new one is begun exactly when the server is still
      working. */
  function Rearm(s: ServerState): (r: ServerState)
    requires s.pending > 0
    ensures r.working == s.working && r.starting == s.starting
    ensures r.pending == if s.working then s.pending else s.pending - 1
  {
    var next := s.(pending := s.pending - 1);
    if s.working then next.(pending := next.pending + 1) else next
  }

  /** `OnReceiveData`: one pending receive completes; the reply, if any, is
      sent and the receive loop re-armed while the server works. */
  function OnReceiveData(s: ServerState, outcome: ReceiveOutcome, clock: Clock): (r: (ServerState, Option<Datagram>))
    requires s.pending > 0
    ensures r.0.working == s.working && r.0.starting == s.starting
    ensures r.0.pending == if s.working then s.pending else s.pending - 1
    ensures r.1.Some? <==> outcome.Received? && |outcome.datagram.payload| == PacketSize
    ensures r.1.Some? ==> r.1.value.peer == outcome.datagram.peer
    ensures r.1.Some? ==> Some(r.1.value.payload) == Reply(outcome.datagram.payload, clock)
  {
    (Rearm(s), Respond(outcome, clock))
  }

  /** What the program's caller and the socket can do to the server. A
      `Start()` call is two events, and completions may come between them:
      on another thread, or synchronously inside `BeginReceive` when a
      datagram is already waiting. */
  datatype Event = StartBegin | StartEnd | StopCall | Completion(outcome: ReceiveOutcome, clock: Clock)

  /** A `Start()` call ends before the next begins, and a completion needs a
      receive that was begun. */
  predicate Enabled(s: ServerState, e: Event)
  {
    match e
    case StartBegin => !s.starting
    case StartEnd => s.starting
    case StopCall => true
    case Completion(_, _) => s.pending > 0
  }

  /** One event: the new state and the datagram sent, if any. */
  function Step(s: ServerState, e: Event, order: StartOrder): (r: (ServerState, Option<Datagram>))
    requires Enabled(s, e)
    ensures e.Completion? ==> r.1 == Respond(e.outcome, e.clock)
    ensures !e.Completion? ==> r.1 == None
  {
    match e
    case StartBegin => (StartFirstHalf(s, order), None)
    case StartEnd => (StartSecondHalf(s, order), None)
    case StopCall => (Stop(s), None)
    case Completion(outcome, clock) => OnReceiveData(s, outcome, clock)
  }

  /** Every event of the trace is enabled when it happens. */
  predicate Feasible(s: ServerState, trace: seq<Event>, order: StartOrder)
    decreases |trace|
  {
    |trace| == 0 ||
    (Enabled(s, trace[0]) && Feasible(Step(s, trace[0], order).0, trace[1..], order))
  }

  /** Runs a feasible trace: the final state and the datagrams sent, in
      order. */
  function Run(s: ServerState, trace: seq<Event>, order: StartOrder): (r: (ServerState, seq<Datagram>))
    requires Feasible(s, trace, order)
    decreases |trace|
  {
    if |trace| == 0 then (s, [])
    else
      var step := Step(s, trace[0], order);
      var rest := Run(step.0, trace[1..], order);
      (rest.0, (if step.1.Some? then [step.1.value] else []) + rest.1)
  }

  /** The replies a trace calls for, read off the completions alone. */
  function Answers(trace: seq<Event>): seq<Datagram>
    decreases |trace|
  {
    if |trace| == 0 then []
    else
      var rest := Answers(trace[1..]);
      match trace[0]
      case Completion(outcome, clock) =>
        (match Respond(outcome, clock) case Some(d) => [d] case None => []) + rest
      case _ => rest
  }

  /** Outside a `Start()` call, `IsWorking` implies a receive is pending: a
      working server is listening. */
  predicate Listening(s: ServerState)
  {
    s.working && !s.starting ==> s.pending > 0
  }

  /** Each `Start()` runs without a completion between its two statements. */
  predicate AtomicStarts(trace: seq<Event>)
  {
    forall i :: 0 <= i < |trace| && trace[i].StartBegin? ==> i + 1 < |trace| && trace[i + 1].StartEnd?
  }

  // ---------------------------------------------------------------------
  // Lemmas

  /** The reply byte by byte: 0x24, stratum 1, zero poll, precision, root
      delay, root dispersion and reference identifier, then the reference
      timestamp, the request's transmit timestamp (its bytes 40-47, copied),
      and the receive and transmit timestamps. */
  lemma ReplyBytes(request: seq<uint8>, clock: Clock)
    requires |request| == PacketSize
    ensures var r := Reply(request, clock).value;
            && r[..16] == [0x24, 1, 0, 0, 0, 0, 0, 0, 0, 0, 0, 0, 0, 0, 0, 0]
            && r[24..32] == request[40..48]
  {
    ReplyLayoutBytes(Reply(request, clock).value, request, clock);
  }

  /** The bytes of any 48-byte header laid out as a reply to `request`. */
  lemma ReplyLayoutBytes(r: seq<uint8>, request: seq<uint8>, clock: Clock)
    requires |r| == PacketSize && |request| == PacketSize
    requires r[0] == 0x24 && BodyAt(r) == ReplyBody(BodyAt(request).transmit, clock)
    ensures r[..16] == [0x24, 1, 0, 0, 0, 0, 0, 0, 0, 0, 0, 0, 0, 0, 0, 0]
    ensures r[24..32] == request[40..48]
  {
    ZeroField16(r, 4);
    ZeroField16(r, 6);
    ZeroField16(r, 8);
    ZeroField16(r, 10);
    assert r[12..16] == ZeroRefId;
    FieldBytes32(r, 24);
    FieldBytes32(r, 28);
    FieldBytes32(request, 40);
    FieldBytes32(request, 44);
    assert r[24..32] == r[24..28] + r[28..32];
    assert request[40..48] == request[40..44] + request[44..48];
  }

  /** The reply packet's byte 0 is 0x24 and its other fields are the reply
      body for the request's transmit timestamp. */
  lemma ReplyPacketHeader(request: ServerPacket.Packet, clock: Clock)
    ensures var p := ReplyPacket(request, clock);
            && PackByte0(p.leap, p.version, p.mode) == 0x24
            && ServerPacket.BodyOf(p) == ReplyBody(request.transmit, clock)
  {
    PackByte0Fields(0, 4, 4);
  }

  /** A big-endian 16-bit field that reads 0 is two zero bytes. */
  lemma ZeroField16(b: seq<uint8>, i: nat)
    requires i + 2 <= |b| && U16At(b, i) == 0
    ensures b[i] == 0 && b[i + 1] == 0
  {
  }

  /** The reply depends on the request only through its transmit timestamp,
      bytes 40-47. */
  lemma ReplyDependsOnlyOnTransmit(a: seq<uint8>, b: seq<uint8>, clock: Clock)
    requires |a| == PacketSize && |b| == PacketSize
    requires a[40..48] == b[40..48]
    ensures Reply(a, clock) == Reply(b, clock)
  {
    TransmitBytes(a, b);
  }

  /** The transmit timestamp of a header is read from bytes 40-47 alone. */
  lemma TransmitBytes(a: seq<uint8>, b: seq<uint8>)
    requires |a| >= PacketSize && |b| >= PacketSize
    requires a[40..48] == b[40..48]
    ensures BodyAt(a).transmit == BodyAt(b).transmit
  {
    assert a[40] == b[40] && a[41] == b[41] && a[42] == b[42] && a[43] == b[43];
    assert a[44] == b[44] && a[45] == b[45] && a[46] == b[46] && a[47] == b[47];
  }

  /** The server's own parser, corrected as in section 7.3 of RFC 5905,
      reads the reply back as the reply packet. */
  lemma ReplyParsesBack(request: seq<uint8>, clock: Clock)
    requires |request| == PacketSize
    ensures ServerPacket.ParseCorrected(Reply(request, clock).value)
         == ReplyPacket(ServerPacket.Parse(request), clock)
  {
    ServerPacket.ParseWithLayout(request, HighBits);
    ServerPacket.ParseCorrectedRoundTrip(ReplyPacket(ServerPacket.Parse(request), clock));
  }

  /** What a client using the client library's parser sees in a reply: a
      version-4 packet at stratum 1 whose originate timestamp is the
      request's transmit timestamp; the corrected parser reports mode
      Server, the as-written parser mode Reserved. */
  lemma ClientReadsReply(request: seq<uint8>, clock: Clock)
    requires |request| == PacketSize
    ensures var r := Reply(request, clock).value;
            && NtpPacket.ParseCorrected(r).Success?
            && NtpPacket.ParseCorrected(r).value.mode == NtpTypes.Server
            && NtpPacket.ParseCorrected(r).value.originate == BodyAt(request).transmit
            && NtpPacket.ParseCorrected(r).value.stratum == 1
            && NtpPacket.Parse(r).Success?
            && NtpPacket.Parse(r).value.mode == Reserved
  {
    ClientReadsReplyLayout(Reply(request, clock).value, BodyAt(request).transmit, clock);
  }

  /** The client library's parsers on any 48-byte header laid out as a
      reply. */
  lemma ClientReadsReplyLayout(r: seq<uint8>, transmit: NtpTimestamp, clock: Clock)
    requires |r| == PacketSize && r[0] == 0x24 && BodyAt(r) == ReplyBody(transmit, clock)
    ensures NtpPacket.ParseCorrected(r).Success?
    ensures NtpPacket.ParseCorrected(r).value.mode == NtpTypes.Server
    ensures NtpPacket.ParseCorrected(r).value.originate == transmit
    ensures NtpPacket.ParseCorrected(r).value.stratum == 1
    ensures NtpPacket.Parse(r).Success? && NtpPacket.Parse(r).value.mode == Reserved
  {
    assert VersionOf(0x24) == 4 && ModeOf(0x24, LowBits) == 4 && ModeOf(0x24, HighBits) == 0;
    NtpPacket.ParseWithLayout(r, LowBits);
    NtpPacket.ParseWithLayout(r, HighBits);
  }

  /** In the corrected order every event keeps the server listening. As
      written, every event does too, except the end of a `Start()` call that
      finds no receive pending. */
  lemma EventKeepsListening(s: ServerState, e: Event)
    requires Listening(s) && Enabled(s, e)
    ensures Listening(Step(s, e, Corrected).0)
    ensures !e.StartEnd? ==> Listening(Step(s, e, AsWritten).0)
    ensures e.StartEnd? ==> (Listening(Step(s, e, AsWritten).0) <==> s.pending > 0)
  {
  }

  /** Along any feasible trace from a listening state, and so from `Initial`,
      a server whose `Start()` sets `IsWorking` first stays listening. */
  lemma {:induction false} RunKeepsListening(s: ServerState, trace: seq<Event>)
    requires Listening(s) && Feasible(s, trace, Corrected)
    ensures Listening(Run(s, trace, Corrected).0)
    decreases |trace|
  {
    if |trace| > 0 {
      EventKeepsListening(s, trace[0]);
      RunKeepsListening(Step(s, trace[0], Corrected).0, trace[1..]);
    }
  }

  /** As written, a fresh server that receives a completion between the two
      statements of `Start()` ends up working with no receive pending. In the
      corrected order that completion cannot happen, since no receive has been
      begun yet. */
  lemma StartRaceLosesListening(outcome: ReceiveOutcome, clock: Clock)
    ensures var trace := [StartBegin, Completion(outcome, clock), StartEnd];
            && Feasible(Initial, trace, AsWritten)
            && Run(Initial, trace, AsWritten).0 == ServerState(true, 0, false)
            && !Listening(Run(Initial, trace, AsWritten).0)
            && !Feasible(Initial, trace, Corrected)
  {
    var trace := [StartBegin, Completion(outcome, clock), StartEnd];
    var s1 := ServerState(false, 1, true);
    var s2 := ServerState(false, 0, true);
    assert trace[1..] == [Completion(outcome, clock), StartEnd];
    assert trace[1..][1..] == [StartEnd];
    CompletionStep(s1, outcome, clock, AsWritten);
    assert Run(s2, [StartEnd], AsWritten).0 == ServerState(true, 0, false);
  }

  /** A completion changes the state as `Rearm` does, whatever it sends. */
  lemma CompletionStep(s: ServerState, outcome: ReceiveOutcome, clock: Clock, order: StartOrder)
    requires s.pending > 0
    ensures Step(s, Completion(outcome, clock), order).0 == Rearm(s)
  {
  }

  /** A server that is working with no receive pending is deaf: until the
      next `Start()` no completion can arrive and nothing is sent. */
  lemma {:induction false} DeafUntilRestarted(s: ServerState, trace: seq<Event>, order: StartOrder)
    requires s.pending == 0 && !s.starting && Feasible(s, trace, order)
    requires forall i :: 0 <= i < |trace| ==> !trace[i].StartBegin?
    ensures Run(s, trace, order).0.pending == 0
    ensures Run(s, trace, order).1 == []
    decreases |trace|
  {
    if |trace| > 0 {
      assert trace[0].StopCall?;
      assert forall i :: 0 <= i < |trace[1..]| ==> !trace[1..][i].StartBegin? by {
        forall i | 0 <= i < |trace[1..]| ensures !trace[1..][i].StartBegin? {
          assert trace[1..][i] == trace[i + 1];
        }
      }
      DeafUntilRestarted(Stop(s), trace[1..], order);
    }
  }

  /** As written, the server stays listening along every trace in which no
      completion comes between the two statements of a `Start()` call: the
      race is the only way to lose the receive loop. */
  lemma {:induction false} AtomicStartsKeepListening(s: ServerState, trace: seq<Event>)
    requires Listening(s) && !s.starting && Feasible(s, trace, AsWritten) && AtomicStarts(trace)
    ensures Listening(Run(s, trace, AsWritten).0)
    decreases |trace|
  {
    if |trace| > 0 {
      var next := Step(s, trace[0], AsWritten).0;
      if trace[0].StartBegin? {
        assert trace[1].StartEnd?;
        var after := Step(next, trace[1], AsWritten).0;
        assert after == ServerState(true, s.pending + 1, false);
        assert trace[1..][1..] == trace[2..];
        assert AtomicStarts(trace[2..]) by {
          forall i | 0 <= i < |trace[2..]| && trace[2..][i].StartBegin?
            ensures i + 1 < |trace[2..]| && trace[2..][i + 1].StartEnd?
          {
            assert trace[2..][i] == trace[i + 2];
          }
        }
        AtomicStartsKeepListening(after, trace[2..]);
      } else {
        assert AtomicStarts(trace[1..]) by {
          forall i | 0 <= i < |trace[1..]| && trace[1..][i].StartBegin?
            ensures i + 1 < |trace[1..]| && trace[1..][i + 1].StartEnd?
          {
            assert trace[1..][i] == trace[i + 1];
          }
        }
        AtomicStartsKeepListening(next, trace[1..]);
      }
    }
  }

  /** What the server sends does not depend on starting and stopping: it is
      one reply per 48-byte datagram received, to its source, in order. */
  lemma {:induction false} RunSendsAnswers(s: ServerState, trace: seq<Event>, order: StartOrder)
    requires Feasible(s, trace, order)
    ensures Run(s, trace, order).1 == Answers(trace)
    decreases |trace|
  {
    if |trace| > 0 {
      var next := Step(s, trace[0], order).0;
      RunSendsAnswers(next, trace[1..], order);
      match trace[0]
      case Completion(outcome, clock) =>
        assert Run(s, trace, order).1
            == (match Respond(outcome, clock) case Some(d) => [d] case None => []) + Answers(trace[1..]);
      case _ =>
    }
  }

  /** A stopped server drains: each completion retires one pending receive
      and none is begun, so after `k` completions `k` fewer are pending. */
  lemma {:induction false} StoppedServerDrains(s: ServerState, trace: seq<Event>, order: StartOrder)
    requires !s.working && Feasible(s, trace, order)
    requires forall i :: 0 <= i < |trace| ==> trace[i].Completion?
    ensures !Run(s, trace, order).0.working
    ensures Run(s, trace, order).0.pending == s.pending - |trace|
    decreases |trace|
  {
    if |trace| > 0 {
      var e := trace[0];
      assert e.Completion?;
      var next := Rearm(s);
      assert forall i :: 0 <= i < |trace[1..]| ==> trace[1..][i].Completion? by {
        forall i | 0 <= i < |trace[1..]| ensures trace[1..][i].Completion? {
          assert trace[1..][i] == trace[i + 1];
        }
      }
      StoppedServerDrains(next, trace[1..], order);
    }
  }

  /** A stopped server cannot take more completions than it has pending
      receives. */
  lemma StoppedServerBound(s: ServerState, trace: seq<Event>, order: StartOrder)
    requires !s.working && Feasible(s, trace, order)
    requires forall i :: 0 <= i < |trace| ==> trace[i].Completion?
    ensures |trace| <= s.pending
  {
    StoppedServerDrains(s, trace, order);
  }

  /** A working server keeps exactly as many receives pending across any
      run of completions. */
  lemma {:induction false} WorkingServerRearms(s: ServerState, trace: seq<Event>, order: StartOrder)
    requires s.working && Feasible(s, trace, order)
    requires forall i :: 0 <= i < |trace| ==> trace[i].Completion?
    ensures Run(s, trace, order).0 == s
    decreases |trace|
  {
    if |trace| > 0 {
      var e := trace[0];
      assert e.Completion?;
      var next := Rearm(s);
      assert forall i :: 0 <= i < |trace[1..]| ==> trace[1..][i].Completion? by {
        forall i | 0 <= i < |trace[1..]| ensures trace[1..][i].Completion? {
          assert trace[1..][i] == trace[i + 1];
        }
      }
      WorkingServerRearms(next, trace[1..], order);
    }
  }
}
