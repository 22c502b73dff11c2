/**
 When the u32 length prefix keeps the link aligned (daemon/client.rs, daemon/mod.rs).
 `requests` and `responses` are the messages that may be sent in either direction.
 */
module IpcLengths {
  import opened Base
  import opened Framing
  import opened IpcLink
  import opened IpcAlignment

  predicate CarriedBy(e: Event, requests: iset<Bytes>, responses: iset<Bytes>) {
    match e
    case Start(request) => request in requests
    case AtServer(_, Reply(Some(response))) => response in responses
    case _ => true
  }

  /** Every message of the run is one of those allowed. */
  predicate Carries(events: seq<Event>, requests: iset<Bytes>, responses: iset<Bytes>) {
    forall e :: e in events ==> CarriedBy(e, requests, responses)
  }

  /** The reader gives up on the announced length. */
  predicate Refused(message: Bytes) {
    Announced(message) > MAX_FRAME
  }

  ghost predicate AllFit(messages: iset<Bytes>) {
    forall m :: m in messages ==> Fits(m)
  }

  ghost predicate AllRefused(messages: iset<Bytes>) {
    forall m :: m in messages ==> Refused(m)
  }

  // ---- A complete exchange, whatever the lengths ----

  function AskEvents(request: Bytes): seq<Event> {
    [] + [Connect] + [Start(request)] + [Write(4 + |request|)]
  }

  function PullEvents(request: Bytes): seq<Event> {
    AskEvents(request) + [AtServer(0, Pull(4))] + [AtServer(0, Pull(Announced(request)))]
  }

  function AnswerEvents(request: Bytes, response: Bytes): seq<Event> {
    PullEvents(request) + [AtServer(0, Reply(Some(response)))] + [AtServer(0, Push(4 + |response|))]
  }

  function ExchangeEvents(request: Bytes, response: Bytes): seq<Event> {
    AnswerEvents(request, response) + [Read(4)] + [Read(Announced(response))]
  }

  lemma RunSnoc(l: Link, events: seq<Event>, e: Event)
    ensures Run(l, events + [e]) == Step(Run(l, events), e)
  {
    assert (events + [e])[..|events|] == events;
  }

  /** The whole request is on its way. */
  lemma Asked(request: Bytes)
    ensures Run(EMPTY, AskEvents(request)) ==
            Link([NEW_CONN.(toServer := Frame(request))], Some(0), AwaitLen(request, []))
  {
    RunSnoc(EMPTY, [], Connect);
    RunSnoc(EMPTY, [] + [Connect], Start(request));
    RunSnoc(EMPTY, [] + [Connect] + [Start(request)], Write(4 + |request|));
    FirstStart(request);
    WholeWritten(request);
  }

  lemma FirstStart(request: Bytes)
    ensures Step(Step(EMPTY, Connect), Start(request)) ==
            Link([NEW_CONN], Some(0), Writing(request, Frame(request)))
  {
    assert [] + [NEW_CONN] == [NEW_CONN];
  }

  lemma WholeWritten(request: Bytes)
    ensures Step(Link([NEW_CONN], Some(0), Writing(request, Frame(request))), Write(4 + |request|)) ==
            Link([NEW_CONN.(toServer := Frame(request))], Some(0), AwaitLen(request, []))
  {
    var frame := Frame(request);
    assert [] + frame[..|frame|] == frame;
  }

  /** The server takes the announced number of bytes for the request and leaves the rest. */
  lemma Pulled(request: Bytes)
    requires !Refused(request)
    ensures
      var n := Announced(request);
      PullStep(PullStep(NEW_CONN.(toServer := Frame(request)), 4), n) ==
      NEW_CONN.(toServer := request[n..], server := Handling(request[..n]))
  {
    var n := Announced(request);
    var frame := Frame(request);
    Le32RoundTrip(n);
    assert [] + frame[..4] == Le32(n) && frame[4..] == request;
    assert [] + request[..n] == request[..n];
    if n == 0 {
      assert request[0..] == request && request[..0] == [];
    }
  }

  lemma Replied(c: Conn, request: Bytes, response: Bytes)
    requires c == NEW_CONN.(toServer := c.toServer, server := Handling(request))
    ensures
      PushStep(ReplyStep(c, Some(response)), 4 + |response|) ==
      c.(toClient := Frame(response), server := ReadLen([]), handled := [Exchange(request, Some(response))])
  {
    var frame := Frame(response);
    assert [] + frame[..|frame|] == frame;
    assert [] + [Exchange(request, Some(response))] == [Exchange(request, Some(response))];
  }

  lemma AtOnly(c: Conn, move: ServerMove, client: Client)
    ensures Step(Link([c], Some(0), client), AtServer(0, move)) == Link([ServerStep(c, move)], Some(0), client)
  {
    assert [c][0 := ServerStep(c, move)] == [ServerStep(c, move)];
  }

  /** The server has read what it takes for the request. */
  lemma Taken(request: Bytes)
    requires !Refused(request)
    ensures
      var n := Announced(request);
      Run(EMPTY, PullEvents(request)) ==
      Link([NEW_CONN.(toServer := request[n..], server := Handling(request[..n]))], Some(0), AwaitLen(request, []))
  {
    var n, ask, client := Announced(request), AskEvents(request), AwaitLen(request, []);
    var c := NEW_CONN.(toServer := Frame(request));
    Asked(request);
    RunSnoc(EMPTY, ask, AtServer(0, Pull(4)));
    AtOnly(c, Pull(4), client);
    RunSnoc(EMPTY, ask + [AtServer(0, Pull(4))], AtServer(0, Pull(n)));
    AtOnly(PullStep(c, 4), Pull(n), client);
    Pulled(request);
  }

  lemma Answered(request: Bytes, response: Bytes)
    requires !Refused(request)
    ensures
      var n := Announced(request);
      Run(EMPTY, AnswerEvents(request, response)) ==
      Link([NEW_CONN.(toServer := request[n..], toClient := Frame(response),
                      handled := [Exchange(request[..n], Some(response))])],
           Some(0), AwaitLen(request, []))
  {
    var n, pulls, client := Announced(request), PullEvents(request), AwaitLen(request, []);
    var c := NEW_CONN.(toServer := request[n..], server := Handling(request[..n]));
    var reply, push := Reply(Some(response)), Push(4 + |response|);
    Taken(request);
    RunSnoc(EMPTY, pulls, AtServer(0, reply));
    AtOnly(c, reply, client);
    RunSnoc(EMPTY, pulls + [AtServer(0, reply)], AtServer(0, push));
    AtOnly(ReplyStep(c, Some(response)), push, client);
    Replied(c, request[..n], response);
  }

  /** `send` returned `body` for `request`. */
  function Done(c: Conn, request: Bytes, body: Bytes, rest: Bytes): Link {
    Link([c.(toClient := rest, returned := [Exchange(request, Some(body))])], Some(0), Idle)
  }

  lemma LengthRead(c: Conn, request: Bytes, response: Bytes)
    requires !Refused(response) && c.toClient == Frame(response) && c.returned == []
    ensures
      var m := Announced(response);
      Step(Link([c], Some(0), AwaitLen(request, [])), Read(4)) ==
      if m == 0 then Done(c, request, [], response)
      else Link([c.(toClient := response)], Some(0), AwaitBody(request, m, []))
  {
    var m, frame := Announced(response), Frame(response);
    Le32RoundTrip(m);
    assert [] + frame[..4] == Le32(m) && frame[4..] == response;
    LengthTaken(c, request, frame, m);
  }

  lemma LengthTaken(c: Conn, request: Bytes, frame: Bytes, m: nat)
    requires c.toClient == frame && |frame| >= 4 && c.returned == []
    requires FromLe32([] + frame[..4]) == m <= MAX_FRAME
    ensures Step(Link([c], Some(0), AwaitLen(request, [])), Read(4)) ==
            if m == 0 then Done(c, request, [], frame[4..])
            else Link([c.(toClient := frame[4..])], Some(0), AwaitBody(request, m, []))
  {
    assert [] + [Exchange(request, Some([]))] == [Exchange(request, Some([]))];
  }

  lemma BodyRead(c: Conn, request: Bytes, response: Bytes, m: nat)
    requires 0 < m <= |response| && c.toClient == response && c.returned == []
    ensures Step(Link([c], Some(0), AwaitBody(request, m, [])), Read(m)) ==
            Done(c, request, response[..m], response[m..])
  {
    assert [] + response[..m] == response[..m];
    var x := Exchange(request, Some(response[..m]));
    assert [] + [x] == [x];
  }

  /** The client takes the announced number of bytes for the response and leaves the rest. */
  lemma Returned(c: Conn, request: Bytes, response: Bytes)
    requires !Refused(response) && c.toClient == Frame(response) && c.returned == []
    ensures
      var m := Announced(response);
      Step(Step(Link([c], Some(0), AwaitLen(request, [])), Read(4)), Read(m)) ==
      Done(c, request, response[..m], response[m..])
  {
    var m := Announced(response);
    LengthRead(c, request, response);
    if m == 0 {
      assert response[0..] == response && response[..0] == [];
    } else {
      BodyRead(c.(toClient := response), request, response, m);
    }
  }

  /** The state after the exchange, and when it is in step. */
  lemma DoneInStepIff(c: Conn, request: Bytes, response: Bytes)
    requires
      var n := Announced(request);
      c == NEW_CONN.(toServer := request[n..], toClient := c.toClient,
                     handled := [Exchange(request[..n], Some(response))])
    ensures
      var m := Announced(response);
      InStep(Done(c, request, response[..m], response[m..])) <==>
      |request| < 0x1_0000_0000 && |response| < 0x1_0000_0000
  {
    var n, m := Announced(request), Announced(response);
    if |request| == n && |response| == m {
      assert request[..n] == request && response[..m] == response;
    }
  }

  /**
   An exchange of two messages that are not refused completes and keeps the stream;
   it stays in step exactly when both lengths are below 2^32.
   */
  lemma ExchangeInStepIff(request: Bytes, response: Bytes)
    requires !Refused(request) && !Refused(response)
    ensures
      var l := Run(EMPTY, ExchangeEvents(request, response));
      && l.client.Idle? && Connected(l)
      && (InStep(l) <==> |request| < 0x1_0000_0000 && |response| < 0x1_0000_0000)
  {
    var n, m, events := Announced(request), Announced(response), AnswerEvents(request, response);
    var c := NEW_CONN.(toServer := request[n..], toClient := Frame(response),
                       handled := [Exchange(request[..n], Some(response))]);
    Answered(request, response);
    RunSnoc(EMPTY, events, Read(4));
    RunSnoc(EMPTY, events + [Read(4)], Read(m));
    Returned(c, request, response);
    DoneInStepIff(c, request, response);
  }

  // ---- Requests that are all refused are never answered ----

  /** What a server has read and has yet to read starts with a length that it refuses. */
  predicate Unread(c: Conn) {
    c.server.Stopped? ||
    (c.server.ReadLen? && |c.server.got| < 4 &&
     var stream := c.server.got + c.toServer;
     |stream| >= 4 ==> FromLe32(stream[..4]) > MAX_FRAME)
  }

  ghost predicate Unanswered(l: Link, requests: iset<Bytes>) {
    && Valid(l) && (!l.client.Idle? ==> l.client.request in requests)
    && forall i :: 0 <= i < |l.conns| ==> Unread(l.conns[i])
  }

  lemma PullUnread(c: Conn, n: nat)
    requires Unread(c)
    ensures Unread(PullStep(c, n))
  {
    if c.server.ReadLen? {
      var got := c.server.got;
      var k := Min(Min(n, |c.toServer|), 4 - |got|);
      var got', rest := got + c.toServer[..k], c.toServer[k..];
      assert got' + rest == got + c.toServer;
      assert |got'| == 4 ==> got' == (got + c.toServer)[..4];
    }
  }

  lemma WriteUnread(l: Link, n: nat, requests: iset<Bytes>)
    requires Unanswered(l, requests) && AllRefused(requests) && Connected(l) && l.client.Writing?
    ensures Unread(Current(WriteStep(l, n)))
  {
    var c, request, unsent := Current(l), l.client.request, l.client.unsent;
    var k := Min(n, |unsent|);
    if c.server.ReadLen? {
      var stream := c.server.got + (c.toServer + unsent[..k]);
      assert stream + unsent[k..] == c.server.got + c.toServer + unsent;
      if |stream| >= 4 {
        assert stream[..4] + stream[4..] == stream;
        FramePrefix(request, stream[..4], stream[4..]);
      }
    }
  }

  lemma UnansweredStep(l: Link, e: Event, requests: iset<Bytes>, responses: iset<Bytes>)
    requires Unanswered(l, requests) && AllRefused(requests) && CarriedBy(e, requests, responses)
    ensures Unanswered(Step(l, e), requests)
  {
    match e
    case AtServer(i, move) => ServerUnanswered(l, i, move, requests);
    case _ => ClientUnanswered(l, e, requests, responses);
  }

  lemma ServerUnread(c: Conn, move: ServerMove)
    requires Unread(c)
    ensures Unread(ServerStep(c, move))
    ensures move.Reply? ==> ServerStep(c, move) == c
  {
    match move
    case Pull(n) => PullUnread(c, n);
    case _ =>
  }

  lemma ServerUnanswered(l: Link, i: nat, move: ServerMove, requests: iset<Bytes>)
    requires Unanswered(l, requests)
    ensures Unanswered(Step(l, AtServer(i, move)), requests)
  {
    if i < |l.conns| {
      ServerUnread(l.conns[i], move);
    }
    if move.Reply? {
      assert Step(l, AtServer(i, move)).conns == l.conns;
    } else {
      ValidStep(l, AtServer(i, move));
    }
  }

  lemma ClientUnanswered(l: Link, e: Event, requests: iset<Bytes>, responses: iset<Bytes>)
    requires Unanswered(l, requests) && AllRefused(requests) && CarriedBy(e, requests, responses) && !e.AtServer?
    ensures Unanswered(Step(l, e), requests)
  {
    ValidStep(l, e);
    if e.Write? && Connected(l) && l.client.Writing? {
      WriteUnread(l, e.n, requests);
    }
  }

  // ---- Responses that are all refused are never returned ----

  /** All that a client can still read on a connection, with what it has read. */
  function Incoming(c: Conn, read: Bytes): Bytes {
    read + c.toClient + if c.server.Replying? && !c.broken then c.server.unsent else []
  }

  /** It starts with a length that the client refuses; a shorter piece stays short. */
  predicate Refusable(c: Conn, read: Bytes) {
    var stream := Incoming(c, read);
    && (|stream| >= 4 ==> FromLe32(stream[..4]) > MAX_FRAME)
    && (0 < |stream| < 4 ==> c.broken || c.server.Stopped?)
  }

  predicate Unused(c: Conn) {
    c.toServer == [] && c.toClient == [] && (c.server == ReadLen([]) || c.server.Stopped?) && c.handled == []
  }

  predicate Silent(l: Link) {
    && WellFormed(l) && (forall i :: 0 <= i < |l.conns| ==> l.conns[i].returned == [])
    && (l.current.Some? ==>
          match l.client
          case Idle => Unused(Current(l))
          case Writing(_, _) => Refusable(Current(l), [])
          case AwaitLen(_, got) => |got| < 4 && Refusable(Current(l), got)
          case AwaitBody(_, _, _) => false)
  }

  lemma SamePrefix(a: Bytes, b: Bytes)
    requires |a| >= 4 && a <= b
    ensures a[..4] == b[..4]
  {
  }

  lemma PullRefusable(c: Conn, n: nat, read: Bytes)
    requires Refusable(c, read)
    ensures Refusable(PullStep(c, n), read)
  {
    assert Incoming(PullStep(c, n), read) == Incoming(c, read);
  }

  lemma ReplyRefusable(c: Conn, response: Option<Bytes>, read: Bytes)
    requires Refusable(c, read) && (response.Some? ==> Refused(response.value))
    ensures Refusable(ReplyStep(c, response), read)
  {
    var before, after := Incoming(c, read), Incoming(ReplyStep(c, response), read);
    if c.server.Handling? && response.Some? && !c.broken {
      var frame := Frame(response.value);
      Le32RoundTrip(Announced(response.value));
      assert frame[..4] == Le32(Announced(response.value));
      assert after == before + frame;
      if before == [] {
        assert after == frame;
      } else {
        SamePrefix(before, after);
      }
    } else {
      assert after == before;
    }
  }

  lemma PushRefusable(c: Conn, n: nat, read: Bytes)
    requires Refusable(c, read)
    ensures Refusable(PushStep(c, n), read)
  {
    if c.server.Replying? && !c.broken {
      var unsent := c.server.unsent;
      var k := Min(n, |unsent|);
      assert read + (c.toClient + unsent[..k]) + unsent[k..] == read + c.toClient + unsent;
    }
    assert Incoming(PushStep(c, n), read) == Incoming(c, read);
  }

  /** The connection fails or the server's task ends: only a shorter piece can still arrive. */
  lemma CutRefusable(c: Conn, move: ServerMove, read: Bytes)
    requires Refusable(c, read) && (move.Break? || move.Stop?)
    ensures Refusable(ServerStep(c, move), read)
  {
    var before, after := Incoming(c, read), Incoming(ServerStep(c, move), read);
    assert after == read + c.toClient || after == before;
    if |after| >= 4 {
      SamePrefix(after, before);
    }
  }

  lemma ServerRefusable(c: Conn, move: ServerMove, read: Bytes, responses: iset<Bytes>)
    requires Refusable(c, read) && AllRefused(responses) && CarriedBy(AtServer(0, move), iset{}, responses)
    ensures Refusable(ServerStep(c, move), read)
  {
    match move
    case Pull(n) => PullRefusable(c, n, read);
    case Reply(response) => ReplyRefusable(c, response, read);
    case Push(n) => PushRefusable(c, n, read);
    case Break => CutRefusable(c, move, read);
    case Stop => CutRefusable(c, move, read);
  }

  lemma ServerUnused(c: Conn, move: ServerMove)
    requires Unused(c)
    ensures Unused(ServerStep(c, move))
  {
  }

  lemma ServerKeepsReturned(c: Conn, move: ServerMove)
    ensures ServerStep(c, move).returned == c.returned
  {
  }

  lemma ServerSilent(l: Link, i: nat, move: ServerMove, responses: iset<Bytes>)
    requires Silent(l) && AllRefused(responses) && CarriedBy(AtServer(i, move), iset{}, responses)
    ensures Silent(Step(l, AtServer(i, move)))
  {
    if i < |l.conns| {
      var c := l.conns[i];
      ServerKeepsReturned(c, move);
      if l.current == Some(i) {
        match l.client
        case Idle => ServerUnused(c, move);
        case Writing(_, _) => ServerRefusable(c, move, [], responses);
        case AwaitLen(_, got) => ServerRefusable(c, move, got, responses);
      }
    }
  }

  lemma WriteSilent(l: Link, n: nat)
    requires Silent(l)
    ensures Silent(Step(l, Write(n)))
  {
    if Connected(l) && l.client.Writing? {
      var c := Current(l);
      assert Incoming(c.(toServer := c.toServer + l.client.unsent[..Min(n, |l.client.unsent|)]), []) == Incoming(c, []);
    }
  }

  lemma ReadSilent(l: Link, n: nat)
    requires Silent(l)
    ensures Silent(Step(l, Read(n)))
  {
    if Connected(l) && l.client.AwaitLen? {
      var c := Current(l);
      var k := Min(Min(n, |c.toClient|), 4 - |l.client.got|);
      var got, c' := l.client.got + c.toClient[..k], c.(toClient := c.toClient[k..]);
      assert got + c'.toClient == l.client.got + c.toClient;
      assert Incoming(c', got) == Incoming(c, l.client.got);
      if |got| == 4 {
        SamePrefix(got, Incoming(c', got));
      }
    }
  }

  lemma StartSilent(l: Link, request: Bytes)
    requires Silent(l)
    ensures Silent(Step(l, Start(request)))
  {
    if l.client.Idle? && Connected(l) {
      assert Incoming(Current(l), []) == [];
    }
  }

  lemma SilentStep(l: Link, e: Event, requests: iset<Bytes>, responses: iset<Bytes>)
    requires Silent(l) && AllRefused(responses) && CarriedBy(e, requests, responses)
    ensures Silent(Step(l, e))
  {
    match e
    case AtServer(i, move) => ServerSilent(l, i, move, responses);
    case Write(n) => WriteSilent(l, n);
    case Read(n) => ReadSilent(l, n);
    case Start(request) => StartSilent(l, request);
    case Connect =>
    case Fail =>
  }

  // ---- The exact condition ----

  lemma {:induction false} RefusedStaysInStep(events: seq<Event>, requests: iset<Bytes>, responses: iset<Bytes>)
    requires Carries(events, requests, responses)
    ensures AllRefused(requests) ==> Unanswered(Run(EMPTY, events), requests)
    ensures AllRefused(responses) ==> Silent(Run(EMPTY, events))
  {
    if events != [] {
      var init, e := events[..|events| - 1], events[|events| - 1];
      RefusedStaysInStep(init, requests, responses);
      if AllRefused(requests) {
        UnansweredStep(Run(EMPTY, init), e, requests, responses);
      }
      if AllRefused(responses) {
        SilentStep(Run(EMPTY, init), e, requests, responses);
      }
    }
  }

  /** All fit, or one direction never gets a message past the length check. */
  ghost predicate LengthsAreSafe(requests: iset<Bytes>, responses: iset<Bytes>) {
    (AllFit(requests) && AllFit(responses)) || AllRefused(requests) || AllRefused(responses)
  }

  lemma SafeLengthsStayInStep(events: seq<Event>, requests: iset<Bytes>, responses: iset<Bytes>)
    requires Carries(events, requests, responses) && LengthsAreSafe(requests, responses)
    ensures InStep(Run(EMPTY, events))
  {
    RefusedStaysInStep(events, requests, responses);
    if AllFit(requests) && AllFit(responses) {
      AlignedRun(events);
    }
  }

  lemma ExchangeCarries(request: Bytes, response: Bytes, requests: iset<Bytes>, responses: iset<Bytes>)
    requires request in requests && response in responses
    ensures Carries(ExchangeEvents(request, response), requests, responses)
  {
    assert Carries(AskEvents(request), requests, responses);
    assert Carries(PullEvents(request), requests, responses);
    assert Carries(AnswerEvents(request, response), requests, responses);
  }

  /** Otherwise one exchange of two of the messages returns and leaves the kept stream out of step. */
  lemma UnsafeLengthsGetOutOfStep(requests: iset<Bytes>, responses: iset<Bytes>) returns (events: seq<Event>)
    requires !LengthsAreSafe(requests, responses)
    ensures Carries(events, requests, responses)
    ensures
      var l := Run(EMPTY, events);
      l.client.Idle? && Connected(l) && !InStep(l)
  {
    var request :| request in requests && !Refused(request);
    var response :| response in responses && !Refused(response);
    if !AllFit(requests) {
      request :| request in requests && !Fits(request);
    } else {
      response :| response in responses && !Fits(response);
    }
    events := ExchangeEvents(request, response);
    ExchangeCarries(request, response, requests, responses);
    ExchangeInStepIff(request, response);
  }

  /**
   Over every run whose messages are drawn from the two sets, the link stays in step
   if and only if all messages fit, or all requests are refused, or all responses are.
   */
  lemma AlignedIffLengthsAreSafe(requests: iset<Bytes>, responses: iset<Bytes>)
    ensures (forall events :: Carries(events, requests, responses) ==> InStep(Run(EMPTY, events)))
            <==> LengthsAreSafe(requests, responses)
  {
    if LengthsAreSafe(requests, responses) {
      forall events | Carries(events, requests, responses)
        ensures InStep(Run(EMPTY, events))
      {
        SafeLengthsStayInStep(events, requests, responses);
      }
    } else {
      var events := UnsafeLengthsGetOutOfStep(requests, responses);
    }
  }
}
