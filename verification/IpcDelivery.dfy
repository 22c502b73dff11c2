/**
 A request and its response arrive however the bytes are cut: any mixture of partial
 writes, reads, pulls and pushes, with other connections active as well, as long as
 the connection and the server's task live.
 */
module IpcDelivery {
  import opened Base
  import opened Framing
  import opened IpcLink
  import opened IpcAlignment

  /** Bytes move on the connection i, or anything happens on another one. */
  predicate Flow(e: Event, i: nat) {
    || e.Write? || e.Read?
    || (e.AtServer? && (e.conn != i || e.move.Pull? || e.move.Push?))
  }

  predicate Flows(events: seq<Event>, i: nat) {
    forall j :: 0 <= j < |events| ==> Flow(events[j], i)
  }

  function Unsent(client: Client): Bytes {
    if client.Writing? then client.unsent else []
  }

  // ---- On the way to the server ----

  /** `send` is writing `request` or waiting, and the server has not handled it yet. */
  predicate Requesting(l: Link, i: nat, request: Bytes) {
    && i < |l.conns| && l.current == Some(i) && |request| <= MAX_FRAME
    && !l.conns[i].broken && !l.conns[i].server.Stopped?
    && Asking(l.conns[i], request, Unsent(l.client), [])
    && if l.client.Writing? then l.client.request == request && l.client.unsent != []
       else l.client == AwaitLen(request, [])
  }

  lemma PullRequesting(c: Conn, n: nat, request: Bytes, unsent: Bytes)
    requires |request| <= MAX_FRAME && Asking(c, request, unsent, []) && !c.server.Stopped?
    ensures Asking(PullStep(c, n), request, unsent, []) && !PullStep(c, n).server.Stopped?
  {
    match c.server
    case ReadLen(got) =>
      PullLenKeeps(c, n, request, unsent, []);
      LengthAccepted(request, got, c.toServer, unsent, Min(Min(n, |c.toServer|), 4 - |got|));
    case ReadBody(_, _) => PullBodyKeeps(c, n, request, unsent, []);
    case Handling(_) =>
  }

  /** The length of the request is one that the server goes on with. */
  lemma LengthAccepted(request: Bytes, got: Bytes, toServer: Bytes, unsent: Bytes, k: nat)
    requires |request| <= MAX_FRAME && got + toServer + unsent == Frame(request)
    requires k <= |toServer| && |got| + k <= 4
    ensures !AfterLen(got + toServer[..k]).Stopped?
  {
    var got' := got + toServer[..k];
    if |got'| == 4 {
      assert got' + (toServer[k..] + unsent) == Frame(request);
      FramePrefix(request, got', toServer[k..] + unsent);
    }
  }

  lemma WriteRequesting(l: Link, i: nat, request: Bytes, n: nat)
    requires Requesting(l, i, request) && l.client.Writing?
    ensures Requesting(WriteStep(l, n), i, request)
  {
    var c, unsent := l.conns[i], l.client.unsent;
    var k := Min(n, |unsent|);
    assert unsent[..k] + unsent[k..] == unsent;
    if c.server.ReadLen? {
      assert c.server.got + (c.toServer + unsent[..k]) + unsent[k..] == c.server.got + c.toServer + unsent;
    } else if c.server.ReadBody? {
      var head := Le32(c.server.need) + c.server.got;
      assert head + (c.toServer + unsent[..k]) + unsent[k..] == head + c.toServer + unsent;
    }
    if k == |unsent| {
      assert unsent[k..] == [];
    }
  }

  lemma ReadNothingYet(l: Link, i: nat, request: Bytes, n: nat)
    requires Requesting(l, i, request)
    ensures Step(l, Read(n)) == l
  {
    ReadNothing(l, n);
  }

  lemma FlowRequesting(l: Link, i: nat, request: Bytes, e: Event)
    requires Requesting(l, i, request) && Flow(e, i)
    ensures Requesting(Step(l, e), i, request)
  {
    match e
    case Write(n) =>
      if l.client.Writing? {
        WriteRequesting(l, i, request, n);
      }
    case Read(n) => ReadNothingYet(l, i, request, n);
    case AtServer(j, move) =>
      if j == i && move.Pull? {
        PullRequesting(l.conns[i], move.n, request, Unsent(l.client));
      }
  }

  /** Bytes of the request that the server has not taken; unwritten ones count twice. */
  function Ahead(l: Link, i: nat): nat
    requires i < |l.conns|
  {
    2 * |Unsent(l.client)| + |l.conns[i].toServer|
  }

  /** The event has something to move. */
  predicate Moves(l: Link, i: nat, e: Event)
    requires i < |l.conns|
  {
    || (e.Write? && e.n > 0 && l.client.Writing?)
    || (e.AtServer? && e.conn == i && e.move.Pull? && e.move.n > 0 && l.conns[i].toServer != [])
  }

  /** Nothing goes back, and an event that has something to move brings the request on. */
  lemma RequestAdvances(l: Link, i: nat, request: Bytes, e: Event)
    requires Requesting(l, i, request) && Flow(e, i)
    ensures Ahead(Step(l, e), i) <= Ahead(l, i)
    ensures Moves(l, i, e) ==> Ahead(Step(l, e), i) < Ahead(l, i)
  {
    match e
    case Write(n) => WriteAdvances(l, i, request, n);
    case Read(n) => ReadNothingYet(l, i, request, n);
    case AtServer(j, move) =>
      if j == i {
        PullAdvances(l.conns[i], move);
      }
  }

  lemma WriteAdvances(l: Link, i: nat, request: Bytes, n: nat)
    requires Requesting(l, i, request)
    ensures Ahead(Step(l, Write(n)), i) <= Ahead(l, i)
    ensures n > 0 && l.client.Writing? ==> Ahead(Step(l, Write(n)), i) < Ahead(l, i)
  {
  }

  lemma PullAdvances(c: Conn, move: ServerMove)
    requires move.Pull? || move.Push?
    requires match c.server
             case ReadLen(got) => |got| < 4
             case ReadBody(need, got) => |got| < need
             case Handling(_) => c.toServer == []
             case _ => false
    ensures |ServerStep(c, move).toServer| <= |c.toServer|
    ensures move.Pull? && move.n > 0 && c.toServer != [] ==> |ServerStep(c, move).toServer| < |c.toServer|
  {
  }

  /** Until everything has arrived there is something to move; then the server has the whole request. */
  lemma ArrivedIffHandling(l: Link, i: nat, request: Bytes)
    requires Requesting(l, i, request)
    ensures Ahead(l, i) == 0 <==> l.conns[i].server == Handling(request)
    ensures Ahead(l, i) > 0 ==> Moves(l, i, Write(1)) || Moves(l, i, AtServer(i, Pull(1)))
  {
    var c, unsent := l.conns[i], Unsent(l.client);
    match c.server
    case ReadLen(got) => assert |got + c.toServer + unsent| == 4 + |request|;
    case ReadBody(need, got) => BodyStillNeeded(request, need, got, c.toServer, unsent);
    case Handling(_) =>
  }

  lemma BodyStillNeeded(request: Bytes, need: nat, got: Bytes, toServer: Bytes, unsent: Bytes)
    requires |request| <= MAX_FRAME && need <= MAX_FRAME && Le32(need) + got + toServer + unsent == Frame(request)
    ensures need == |request| && |got| + |toServer| + |unsent| == need
  {
    var head := Le32(need);
    assert head + (got + toServer + unsent) == head + got + toServer + unsent;
    FramePrefix(request, head, got + toServer + unsent);
    Le32RoundTrip(need);
  }

  /** However the request is cut, once all of it has arrived the server has exactly the request. */
  lemma {:induction false} RequestArrives(l: Link, i: nat, request: Bytes, events: seq<Event>)
    requires Requesting(l, i, request) && Flows(events, i)
    ensures Requesting(Run(l, events), i, request) && Ahead(Run(l, events), i) <= Ahead(l, i)
    ensures Ahead(Run(l, events), i) == 0 <==> Run(l, events).conns[i].server == Handling(request)
  {
    if events != [] {
      var init, e := events[..|events| - 1], events[|events| - 1];
      RequestArrives(l, i, request, init);
      FlowRequesting(Run(l, init), i, request, e);
      RequestAdvances(Run(l, init), i, request, e);
    }
    ArrivedIffHandling(Run(l, events), i, request);
  }

  function Pulls(i: nat, sizes: seq<nat>): seq<Event> {
    seq(|sizes|, j requires 0 <= j < |sizes| => AtServer(i, Pull(sizes[j])))
  }

  /** Every pull takes at least one byte, so as many pulls as there are bytes take everything. */
  lemma {:induction false} PullsTakeAll(l: Link, i: nat, request: Bytes, sizes: seq<nat>)
    requires Requesting(l, i, request) && !l.client.Writing?
    requires forall j :: 0 <= j < |sizes| ==> sizes[j] > 0
    ensures
      var t := Run(l, Pulls(i, sizes));
      && Requesting(t, i, request) && t.client == l.client
      && (Ahead(t, i) == 0 || Ahead(t, i) + |sizes| <= Ahead(l, i))
  {
    if sizes != [] {
      var init := sizes[..|sizes| - 1];
      var t, e := Run(l, Pulls(i, init)), AtServer(i, Pull(sizes[|sizes| - 1]));
      PullsTakeAll(l, i, request, init);
      assert Pulls(i, sizes)[..|sizes| - 1] == Pulls(i, init);
      FlowRequesting(t, i, request, e);
      RequestAdvances(t, i, request, e);
    }
  }

  /**
   A request that is not refused, wholly written: whatever the sizes of the reads,
   as many of them as the frame has bytes leave the server with exactly the request
   and nothing in flight.
   */
  lemma AnyPullsDeliver(l: Link, i: nat, request: Bytes, sizes: seq<nat>)
    requires Requesting(l, i, request) && !l.client.Writing? && |sizes| >= 4 + |request|
    requires forall j :: 0 <= j < |sizes| ==> sizes[j] > 0
    ensures
      var t := Run(l, Pulls(i, sizes));
      i < |t.conns| && t.conns[i].server == Handling(request) && t.conns[i].toServer == []
  {
    PullsTakeAll(l, i, request, sizes);
    InFlightAtMostFrame(l, i, request);
    ArrivedIffHandling(Run(l, Pulls(i, sizes)), i, request);
  }

  lemma InFlightAtMostFrame(l: Link, i: nat, request: Bytes)
    requires Requesting(l, i, request)
    ensures |l.conns[i].toServer| <= 4 + |request|
  {
    var c, unsent := l.conns[i], Unsent(l.client);
    if c.server.ReadLen? {
      assert |c.server.got + c.toServer + unsent| == 4 + |request|;
    } else if c.server.ReadBody? {
      assert |Le32(c.server.need) + c.server.got + c.toServer + unsent| == 4 + |request|;
    }
  }

  // ---- On the way back ----

  function Outgoing(server: Server): Bytes {
    if server.Replying? then server.unsent else []
  }

  /** What the client has read of the frame. */
  function ReadSoFar(client: Client): Bytes {
    match client
    case AwaitLen(_, got) => got
    case AwaitBody(_, need, got) => if need < 0x1_0000_0000 then Le32(need) + got else got
    case _ => []
  }

  /** The server has handled `request` with `response`, and `send` has not got all of it. */
  predicate Responding(l: Link, i: nat, request: Bytes, response: Bytes, before: seq<Exchange>) {
    && i < |l.conns| && l.current == Some(i) && |response| <= MAX_FRAME
    && var c := l.conns[i];
       && !c.broken && (c.server == ReadLen([]) || (c.server.Replying? && c.server.unsent != []))
       && c.toServer == [] && c.returned == before && c.handled == before + [Exchange(request, Some(response))]
       && ReadSoFar(l.client) + c.toClient + Outgoing(c.server) == Frame(response)
       && match l.client
          case AwaitLen(q, got) => q == request && |got| < 4
          case AwaitBody(q, need, got) => q == request && |got| < need == |response|
          case _ => false
  }

  /** `send` has returned `response` for `request` and kept the stream, with nothing left on it. */
  predicate Completed(l: Link, i: nat, request: Bytes, response: Bytes, before: seq<Exchange>) {
    && i < |l.conns| && l.current == Some(i) && l.client.Idle?
    && var c := l.conns[i];
       && c.returned == before + [Exchange(request, Some(response))] && c.handled == c.returned
       && c.toServer == [] && c.toClient == [] && c.server == ReadLen([]) && !c.broken
  }

  lemma PushResponding(l: Link, i: nat, request: Bytes, response: Bytes, before: seq<Exchange>, n: nat)
    requires Responding(l, i, request, response, before)
    ensures Responding(Step(l, AtServer(i, Push(n))), i, request, response, before)
  {
    var c := l.conns[i];
    if c.server.Replying? {
      var read, unsent := ReadSoFar(l.client), c.server.unsent;
      var k := Min(n, |unsent|);
      assert read + (c.toClient + unsent[..k]) + unsent[k..] == read + c.toClient + unsent;
      if k == |unsent| {
        assert read + (c.toClient + unsent[..k]) + [] == read + c.toClient + unsent;
      }
    }
  }

  /** The client has the length: it is that of the response. */
  lemma LengthOfResponse(response: Bytes, length: Bytes, rest: Bytes)
    requires |response| <= MAX_FRAME && |length| == 4 && length + rest == Frame(response)
    ensures FromLe32(length) == |response| && length == Le32(|response|) && rest == response
  {
    FramePrefix(response, length, rest);
  }

  /** Some bytes move from the stream into what the client has read. */
  lemma Received(read: Bytes, toClient: Bytes, out: Bytes, frame: Bytes, k: nat)
    requires k <= |toClient| && read + toClient + out == frame
    ensures (read + toClient[..k]) + toClient[k..] + out == frame
  {
    assert (read + toClient[..k]) + toClient[k..] == read + toClient;
  }

  lemma LengthUnfinished(
    l: Link, i: nat, request: Bytes, response: Bytes, before: seq<Exchange>, k: nat)
    requires Responding(l, i, request, response, before) && l.client.AwaitLen?
    requires k <= |l.conns[i].toClient| && |l.client.got| + k < 4
    ensures
      var c := l.conns[i];
      Responding(WithCurrent(l, c.(toClient := c.toClient[k..]), AwaitLen(request, l.client.got + c.toClient[..k])),
                 i, request, response, before)
  {
    var c := l.conns[i];
    Received(l.client.got, c.toClient, Outgoing(c.server), Frame(response), k);
  }

  lemma LengthFinished(
    l: Link, i: nat, request: Bytes, response: Bytes, before: seq<Exchange>, k: nat)
    requires Responding(l, i, request, response, before) && l.client.AwaitLen?
    requires k <= |l.conns[i].toClient| && |l.client.got| + k == 4
    ensures
      var c, got := l.conns[i], l.client.got + l.conns[i].toClient[..k];
      var c' := c.(toClient := c.toClient[k..]);
      && FromLe32(got) == |response|
      && if response == [] then Completed(Finish(l, c', request, []), i, request, response, before)
         else Responding(WithCurrent(l, c', AwaitBody(request, |response|, [])), i, request, response, before)
  {
    var c := l.conns[i];
    Received(l.client.got, c.toClient, Outgoing(c.server), Frame(response), k);
    LengthTaken(response, l.client.got + c.toClient[..k], c.toClient[k..], Outgoing(c.server));
  }

  lemma ReadLengthResponding(
    l: Link, i: nat, request: Bytes, response: Bytes, before: seq<Exchange>, n: nat)
    requires Responding(l, i, request, response, before) && l.client.AwaitLen?
    ensures
      var t := Step(l, Read(n));
      Responding(t, i, request, response, before) || Completed(t, i, request, response, before)
  {
    var k := Min(Min(n, |l.conns[i].toClient|), 4 - |l.client.got|);
    if |l.client.got| + k < 4 {
      LengthUnfinished(l, i, request, response, before, k);
    } else {
      LengthFinished(l, i, request, response, before, k);
    }
  }

  /** With the length read, an empty response is complete, and any other one is still to come. */
  lemma LengthTaken(response: Bytes, got: Bytes, rest: Bytes, out: Bytes)
    requires |response| <= MAX_FRAME && |got| == 4 && got + rest + out == Frame(response)
    ensures FromLe32(got) == |response|
    ensures response == [] ==> rest == [] && out == []
    ensures Le32(|response|) + [] + rest + out == Frame(response)
  {
    assert got + (rest + out) == Frame(response);
    LengthOfResponse(response, got, rest + out);
    assert got + [] == got;
  }

  lemma ReadBodyResponding(
    l: Link, i: nat, request: Bytes, response: Bytes, before: seq<Exchange>, n: nat)
    requires Responding(l, i, request, response, before) && l.client.AwaitBody?
    ensures
      var t := Step(l, Read(n));
      Responding(t, i, request, response, before) || Completed(t, i, request, response, before)
  {
    var c, need := l.conns[i], l.client.need;
    var k := Min(Min(n, |c.toClient|), need - |l.client.got|);
    var got, rest := l.client.got + c.toClient[..k], c.toClient[k..];
    assert Le32(need) + got + rest == Le32(need) + l.client.got + c.toClient;
    BodyOfResponse(response, need, got, rest, Outgoing(c.server));
  }

  /** Once the announced bytes are read they are the response, and nothing follows. */
  lemma BodyOfResponse(response: Bytes, need: nat, got: Bytes, rest: Bytes, out: Bytes)
    requires need == |response| <= MAX_FRAME && Le32(need) + got + rest + out == Frame(response)
    ensures |got| == need ==> got == response && rest == [] && out == []
  {
    var head := Le32(need);
    assert head + (got + rest + out) == Frame(response);
    LengthOfResponse(response, head, got + rest + out);
    assert got + (rest + out) == response;
  }

  lemma FlowResponding(l: Link, i: nat, request: Bytes, response: Bytes, before: seq<Exchange>, e: Event)
    requires Responding(l, i, request, response, before) && Flow(e, i)
    ensures
      var t := Step(l, e);
      Responding(t, i, request, response, before) || Completed(t, i, request, response, before)
  {
    match e
    case Write(_) =>
    case Read(n) =>
      if l.client.AwaitLen? {
        ReadLengthResponding(l, i, request, response, before, n);
      } else {
        ReadBodyResponding(l, i, request, response, before, n);
      }
    case AtServer(j, move) =>
      if j == i {
        match move
        case Push(n) => PushResponding(l, i, request, response, before, n);
        case Pull(n) => PullsNothing(l.conns[i], n);
      }
  }

  lemma PullsNothing(c: Conn, n: nat)
    requires c.toServer == [] && (c.server == ReadLen([]) || c.server.Replying?)
    ensures PullStep(c, n) == c
  {
  }

  lemma FlowCompleted(l: Link, i: nat, request: Bytes, response: Bytes, before: seq<Exchange>, e: Event)
    requires Completed(l, i, request, response, before) && Flow(e, i)
    ensures Completed(Step(l, e), i, request, response, before)
  {
    if e.AtServer? && e.conn == i && e.move.Pull? {
      PullsNothing(l.conns[i], e.move.n);
    }
  }

  /** Bytes of the response that the client has not taken; those not yet sent count twice. */
  function Behind(l: Link, i: nat): nat
    requires i < |l.conns|
  {
    2 * |Outgoing(l.conns[i].server)| + |l.conns[i].toClient|
  }

  predicate MovesBack(l: Link, i: nat, e: Event)
    requires i < |l.conns|
  {
    || (e.AtServer? && e.conn == i && e.move.Push? && e.move.n > 0 && l.conns[i].server.Replying?)
    || (e.Read? && e.n > 0 && l.conns[i].toClient != [])
  }

  /** Every event that has something to move brings the response on. */
  lemma ResponseAdvances(l: Link, i: nat, request: Bytes, response: Bytes, before: seq<Exchange>, e: Event)
    requires Responding(l, i, request, response, before) && Flow(e, i)
    ensures Behind(Step(l, e), i) <= Behind(l, i)
    ensures MovesBack(l, i, e) ==> Behind(Step(l, e), i) < Behind(l, i)
  {
    match e
    case AtServer(j, move) =>
      if j == i {
        ServerAdvances(l.conns[i], move);
      }
    case Write(_) => assert Step(l, e) == l;
    case Read(n) => ReadAdvances(l, i, request, response, before, n);
  }

  /** What the server still has to send counts twice, what is in flight once. */
  function ToCome(c: Conn): nat {
    2 * |Outgoing(c.server)| + |c.toClient|
  }

  lemma ServerAdvances(c: Conn, move: ServerMove)
    requires move.Pull? || move.Push?
    requires c.toServer == [] && !c.broken && (c.server == ReadLen([]) || (c.server.Replying? && c.server.unsent != []))
    ensures ToCome(ServerStep(c, move)) <= ToCome(c)
    ensures move.Push? && move.n > 0 && c.server.Replying? ==> ToCome(ServerStep(c, move)) < ToCome(c)
  {
    if move.Pull? {
      PullsNothing(c, move.n);
    }
  }

  lemma ReadAdvances(l: Link, i: nat, request: Bytes, response: Bytes, before: seq<Exchange>, n: nat)
    requires Responding(l, i, request, response, before)
    ensures Behind(Step(l, Read(n)), i) <= Behind(l, i)
    ensures n > 0 && l.conns[i].toClient != [] ==> Behind(Step(l, Read(n)), i) < Behind(l, i)
  {
  }

  /** As long as `send` waits there is something to move. */
  lemma SomethingMoves(l: Link, i: nat, request: Bytes, response: Bytes, before: seq<Exchange>)
    requires Responding(l, i, request, response, before)
    ensures Behind(l, i) > 0
    ensures MovesBack(l, i, AtServer(i, Push(1))) || MovesBack(l, i, Read(1))
  {
    var c := l.conns[i];
    assert |ReadSoFar(l.client) + c.toClient + Outgoing(c.server)| == 4 + |response|;
  }

  /** However the response is cut, `send` has returned it once all of it has arrived. */
  lemma {:induction false} ResponseArrives(
    l: Link, i: nat, request: Bytes, response: Bytes, before: seq<Exchange>, events: seq<Event>)
    requires Responding(l, i, request, response, before) && Flows(events, i)
    ensures
      var t := Run(l, events);
      && (Responding(t, i, request, response, before) || Completed(t, i, request, response, before))
      && Behind(t, i) <= Behind(l, i)
      && (Behind(t, i) == 0 <==> Completed(t, i, request, response, before))
  {
    if events != [] {
      var init, e := events[..|events| - 1], events[|events| - 1];
      ResponseArrives(l, i, request, response, before, init);
      var t := Run(l, init);
      if Completed(t, i, request, response, before) {
        FlowCompleted(t, i, request, response, before, e);
      } else {
        FlowResponding(t, i, request, response, before, e);
        ResponseAdvances(t, i, request, response, before, e);
      }
    }
    var t := Run(l, events);
    if Responding(t, i, request, response, before) {
      SomethingMoves(t, i, request, response, before);
    }
  }

  // ---- The whole exchange ----

  /** A kept stream whose server waits for a request. */
  predicate Rested(l: Link, i: nat) {
    && i < |l.conns| && l.current == Some(i) && l.client.Idle?
    && l.conns[i].server == ReadLen([]) && !l.conns[i].broken && AtBoundary(l.conns[i])
  }

  lemma StartRequesting(l: Link, i: nat, request: Bytes)
    requires Rested(l, i) && |request| <= MAX_FRAME
    ensures Requesting(Step(l, Start(request)), i, request)
  {
    assert [] + [] + Frame(request) == Frame(request);
  }

  lemma ReplyResponding(l: Link, i: nat, request: Bytes, response: Bytes)
    requires Requesting(l, i, request) && Ahead(l, i) == 0 && |response| <= MAX_FRAME
    ensures Responding(Step(l, AtServer(i, Reply(Some(response)))), i, request, response, l.conns[i].returned)
  {
    ArrivedIffHandling(l, i, request);
    assert [] + [] + Frame(response) == Frame(response);
  }

  /** Neither the requests handled nor the responses returned change while a request is on its way. */
  lemma {:induction false} HistoryStays(l: Link, i: nat, request: Bytes, events: seq<Event>)
    requires Requesting(l, i, request) && Flows(events, i)
    ensures Requesting(Run(l, events), i, request) && Run(l, events).conns[i].returned == l.conns[i].returned
  {
    if events != [] {
      var init, e := events[..|events| - 1], events[|events| - 1];
      HistoryStays(l, i, request, init);
      FlowRequesting(Run(l, init), i, request, e);
      if e.Read? {
        ReadNothingYet(Run(l, init), i, request, e.n);
      }
    }
  }

  /**
   An exchange within the limit completes under every cutting: when all of the request
   has arrived the server has exactly that request, and when all of the response has
   arrived `send` has returned exactly that response and kept the stream.
   */
  lemma ExchangeCompletes(
    l: Link, i: nat, request: Bytes, response: Bytes, there: seq<Event>, back: seq<Event>)
    requires Rested(l, i) && |request| <= MAX_FRAME && |response| <= MAX_FRAME
    requires Flows(there, i) && Flows(back, i)
    requires i < |Run(Step(l, Start(request)), there).conns| && Ahead(Run(Step(l, Start(request)), there), i) == 0
    ensures
      var asked := Run(Step(l, Start(request)), there);
      var t := Run(Step(asked, AtServer(i, Reply(Some(response)))), back);
      && asked.conns[i].server == Handling(request)
      && i < |t.conns|
      && (Behind(t, i) == 0 <==> Completed(t, i, request, response, l.conns[i].returned))
  {
    StartRequesting(l, i, request);
    RequestArrives(Step(l, Start(request)), i, request, there);
    HistoryStays(Step(l, Start(request)), i, request, there);
    var asked := Run(Step(l, Start(request)), there);
    ReplyResponding(asked, i, request, response);
    ResponseArrives(Step(asked, AtServer(i, Reply(Some(response)))), i, request, response, l.conns[i].returned, back);
  }
}
