/**
 The daemon IPC link: one client that reuses a connection (daemon/client.rs,
 `send`) and one server task per connection (daemon/mod.rs, `handle_connection`).
 Streams are byte sequences; every read and write may be partial, fail or time out
 at any point.  An event that is not enabled changes nothing, so a run is any
 sequence of events.
 */
module IpcLink {
  import opened Base
  import opened Framing

  type Bytes = seq<byte>

  /** Where the connection loop of the server stands. */
  datatype Server =
    | ReadLen(got: Bytes)
    | ReadBody(need: nat, got: Bytes)
    | Handling(request: Bytes)
    | Replying(unsent: Bytes)
    | Stopped

  datatype Exchange = Exchange(request: Bytes, response: Option<Bytes>)

  /**
   `broken` is set by the first failed write of the server: a failed connection
   stays failed, so nothing more reaches the client.  `handled` lists what the
   server handled on this connection and what it answered (None when the response
   does not serialise); `returned` lists what `send` returned on it.
   */
  datatype Conn = Conn(
    toServer: Bytes, toClient: Bytes, server: Server, broken: bool,
    handled: seq<Exchange>, returned: seq<Exchange>)

  /** Where `send` stands; `Idle` when the stream's mutex is free. */
  datatype Client =
    | Idle
    | Writing(request: Bytes, unsent: Bytes)
    | AwaitLen(request: Bytes, got: Bytes)
    | AwaitBody(request: Bytes, need: nat, got: Bytes)

  /** `current` is the stream kept by the client; dropped connections live on at the server. */
  datatype Link = Link(conns: seq<Conn>, current: Option<nat>, client: Client)

  datatype ServerMove =
    | Pull(n: nat)                       // read_exact receives up to n bytes
    | Reply(response: Option<Bytes>)     // handle_request returns, or reports a parse error
    | Push(n: nat)                       // write_all sends up to n bytes
    | Break                              // the connection fails
    | Stop                               // the task ends

  datatype Event =
    | Connect                            // the stream is opened
    | Start(request: Bytes)              // send: the request is serialised
    | Write(n: nat)                      // send: write_all sends up to n bytes
    | Read(n: nat)                       // send: read_exact receives up to n bytes
    | Fail                               // send: write error, read error, end of stream or timeout
    | AtServer(conn: nat, move: ServerMove)

  const EMPTY := Link([], None, Idle)
  const NEW_CONN := Conn([], [], ReadLen([]), false, [], [])

  function Min(a: nat, b: nat): nat {
    if a < b then a else b
  }

  // ---- Server ----

  function AfterLen(got: Bytes): Server {
    if |got| < 4 then ReadLen(got)
    else if |got| > 4 then Stopped
    else
      var n := FromLe32(got);
      if n > MAX_FRAME then Stopped else if n == 0 then Handling([]) else ReadBody(n, [])
  }

  function AfterBody(need: nat, got: Bytes): Server {
    if |got| < need then ReadBody(need, got) else Handling(got)
  }

  function PullStep(c: Conn, n: nat): Conn {
    match c.server
    case ReadLen(got) =>
      var k := Min(Min(n, |c.toServer|), if |got| <= 4 then 4 - |got| else 0);
      c.(toServer := c.toServer[k..], server := AfterLen(got + c.toServer[..k]))
    case ReadBody(need, got) =>
      var k := Min(Min(n, |c.toServer|), if |got| <= need then need - |got| else 0);
      c.(toServer := c.toServer[k..], server := AfterBody(need, got + c.toServer[..k]))
    case _ => c
  }

  function ReplyStep(c: Conn, response: Option<Bytes>): Conn {
    if !c.server.Handling? then c
    else
      c.(handled := c.handled + [Exchange(c.server.request, response)],
         server := if response.Some? then Replying(Frame(response.value)) else ReadLen([]))
  }

  function PushStep(c: Conn, n: nat): Conn {
    if !c.server.Replying? then c
    else if c.broken then c.(server := ReadLen([]))     // the write fails, the loop goes on
    else
      var unsent := c.server.unsent;
      var k := Min(n, |unsent|);
      c.(toClient := c.toClient + unsent[..k],
         server := if k == |unsent| then ReadLen([]) else Replying(unsent[k..]))
  }

  function ServerStep(c: Conn, move: ServerMove): Conn {
    match move
    case Pull(n) => PullStep(c, n)
    case Reply(response) => ReplyStep(c, response)
    case Push(n) => PushStep(c, n)
    case Break => c.(broken := true)
    case Stop => c.(server := Stopped)
  }

  // ---- Client ----

  predicate Connected(l: Link) {
    l.current.Some? && l.current.value < |l.conns|
  }

  function Current(l: Link): Conn
    requires Connected(l)
  {
    l.conns[l.current.value]
  }

  function WithCurrent(l: Link, c: Conn, client: Client): Link
    requires Connected(l)
  {
    Link(l.conns[l.current.value := c], l.current, client)
  }

  /** Every error path of `send` forgets the stream. */
  function Drop(l: Link): Link {
    Link(l.conns, None, Idle)
  }

  /** `send` has the whole response: it returns and keeps the stream, even if the JSON does not parse. */
  function Finish(l: Link, c: Conn, request: Bytes, response: Bytes): Link
    requires Connected(l)
  {
    WithCurrent(l, c.(returned := c.returned + [Exchange(request, Some(response))]), Idle)
  }

  function WriteStep(l: Link, n: nat): Link
    requires Connected(l)
  {
    if !l.client.Writing? then l
    else
      var c, unsent := Current(l), l.client.unsent;
      var k := Min(n, |unsent|);
      WithCurrent(l, c.(toServer := c.toServer + unsent[..k]),
        if k == |unsent| then AwaitLen(l.client.request, []) else l.client.(unsent := unsent[k..]))
  }

  function ReadLenStep(l: Link, n: nat): Link
    requires Connected(l) && l.client.AwaitLen? && |l.client.got| < 4
  {
    var c, request := Current(l), l.client.request;
    var k := Min(Min(n, |c.toClient|), 4 - |l.client.got|);
    var got := l.client.got + c.toClient[..k];
    var c' := c.(toClient := c.toClient[k..]);
    if |got| < 4 then WithCurrent(l, c', AwaitLen(request, got))
    else
      var need := FromLe32(got);
      if need > MAX_FRAME then Drop(WithCurrent(l, c', Idle))
      else if need == 0 then Finish(l, c', request, [])
      else WithCurrent(l, c', AwaitBody(request, need, []))
  }

  function ReadBodyStep(l: Link, n: nat): Link
    requires Connected(l) && l.client.AwaitBody? && |l.client.got| < l.client.need
  {
    var c, request := Current(l), l.client.request;
    var k := Min(Min(n, |c.toClient|), l.client.need - |l.client.got|);
    var got := l.client.got + c.toClient[..k];
    var c' := c.(toClient := c.toClient[k..]);
    if |got| < l.client.need then WithCurrent(l, c', l.client.(got := got))
    else Finish(l, c', request, got)
  }

  function Step(l: Link, e: Event): Link {
    match e
    case Connect =>
      if l.client.Idle? && l.current.None? then Link(l.conns + [NEW_CONN], Some(|l.conns|), Idle) else l
    case Start(request) =>
      if l.client.Idle? && Connected(l) then l.(client := Writing(request, Frame(request))) else l
    case Write(n) =>
      if Connected(l) then WriteStep(l, n) else l
    case Read(n) =>
      if Connected(l) && l.client.AwaitLen? && |l.client.got| < 4 then ReadLenStep(l, n)
      else if Connected(l) && l.client.AwaitBody? && |l.client.got| < l.client.need then ReadBodyStep(l, n)
      else l
    case Fail => if l.client.Idle? then l else Drop(l)
    case AtServer(i, move) =>
      if i < |l.conns| then l.(conns := l.conns[i := ServerStep(l.conns[i], move)]) else l
  }

  function Run(l: Link, events: seq<Event>): Link {
    if events == [] then l else Step(Run(l, events[..|events| - 1]), events[|events| - 1])
  }

  /** Messages whose length fits the u32 prefix, or is refused by the reader. */
  predicate Sized(e: Event) {
    match e
    case Start(request) => Fits(request)
    case AtServer(_, Reply(Some(response))) => Fits(response)
    case _ => true
  }

  // ---- Invariant ----

  /** Everything `send` returned on this connection is what the server answered to that request. */
  predicate Answers(c: Conn) {
    |c.returned| <= |c.handled| && c.returned == c.handled[..|c.returned|]
  }

  /** Nothing is in flight on the connection and the server is between two frames. */
  predicate AtBoundary(c: Conn) {
    && c.toServer == [] && c.toClient == []
    && (c.server == ReadLen([]) || c.server.Stopped?)
    && c.returned == c.handled
  }

  /** The request is on its way: what the server has, what is in flight and what is unsent add up to it. */
  predicate Asking(c: Conn, request: Bytes, unsent: Bytes, read: Bytes) {
    && c.returned == c.handled && c.toClient == [] && read == []
    && match c.server
       case ReadLen(got) => |got| < 4 && got + c.toServer + unsent == Frame(request)
       case ReadBody(need, got) =>
         |got| < need <= MAX_FRAME && Le32(need) + got + c.toServer + unsent == Frame(request)
       case Handling(q) => q == request && c.toServer == [] && unsent == []
       case Replying(_) => false
       case Stopped => true
  }

  /** The request is handled: what is read, in flight and unsent on the way back is its one response. */
  predicate Answering(c: Conn, request: Bytes, unsent: Bytes, read: Bytes) {
    && |c.handled| == |c.returned| + 1 && Answers(c)
    && unsent == [] && c.toServer == []
    && (c.server == ReadLen([]) || c.server.Replying? || c.server.Stopped?)
    && var x := c.handled[|c.returned|];
       && x.request == request
       && (x.response.None? ==> read == [] && c.toClient == [] && !c.server.Replying?)
       && (x.response.Some? ==>
             && Fits(x.response.value)
             && read + c.toClient <= Frame(x.response.value)
             && (c.server.Replying? ==>
                   c.server.unsent != [] && read + c.toClient + c.server.unsent == Frame(x.response.value)))
  }

  predicate InSend(c: Conn, request: Bytes, unsent: Bytes, read: Bytes) {
    Fits(request) && (Asking(c, request, unsent, read) || Answering(c, request, unsent, read))
  }

  predicate Aligned(c: Conn, client: Client) {
    match client
    case Idle => AtBoundary(c)
    case Writing(request, unsent) => unsent != [] && InSend(c, request, unsent, [])
    case AwaitLen(request, got) => |got| < 4 && InSend(c, request, [], got)
    case AwaitBody(request, need, got) =>
      |got| < need <= MAX_FRAME && InSend(c, request, [], Le32(need) + got)
  }

  /** What the steps need: a stream that exists while `send` runs. */
  predicate WellFormed(l: Link) {
    (l.current.Some? ==> Connected(l)) && (l.current.None? ==> l.client.Idle?)
  }

  predicate Valid(l: Link) {
    && (forall i :: 0 <= i < |l.conns| ==> Answers(l.conns[i]))
    && (l.current.None? ==> l.client.Idle?)
    && (l.current.Some? ==> Connected(l) && Aligned(Current(l), l.client))
  }

  // ---- Server steps keep the alignment of the connection they run on ----

  lemma PullKeeps(c: Conn, n: nat, request: Bytes, unsent: Bytes, read: Bytes)
    requires InSend(c, request, unsent, read)
    ensures InSend(PullStep(c, n), request, unsent, read)
  {
    if Asking(c, request, unsent, read) && c.server.ReadLen? {
      PullLenKeeps(c, n, request, unsent, read);
    } else if Asking(c, request, unsent, read) && c.server.ReadBody? {
      PullBodyKeeps(c, n, request, unsent, read);
    } else {
      PullIdle(c, n, request, unsent, read);
    }
  }

  /** With no request on its way there is nothing to pull. */
  lemma PullIdle(c: Conn, n: nat, request: Bytes, unsent: Bytes, read: Bytes)
    requires InSend(c, request, unsent, read)
    requires Answering(c, request, unsent, read) || !(c.server.ReadLen? || c.server.ReadBody?)
    ensures PullStep(c, n) == c
  {
    assert c.toServer == [] && c.server.ReadLen? ==> [] + c.toServer[..0] == [] && c.toServer[0..] == [];
  }

  /** What the server does with a complete length. */
  lemma LenComplete(request: Bytes, got: Bytes, rest: Bytes, unsent: Bytes)
    requires Fits(request) && |got| == 4 && got + (rest + unsent) == Frame(request)
    ensures
      match AfterLen(got)
      case ReadBody(need, got') => got' == [] && 0 < need <= MAX_FRAME && Le32(need) + [] + rest + unsent == Frame(request)
      case Handling(q) => q == request && rest == [] && unsent == []
      case Stopped => true
      case _ => false
  {
    FramePrefix(request, got, rest + unsent);
    assert got + [] + rest + unsent == got + (rest + unsent);
  }

  lemma PullLenKeeps(c: Conn, n: nat, request: Bytes, unsent: Bytes, read: Bytes)
    requires Fits(request) && Asking(c, request, unsent, read) && c.server.ReadLen?
    ensures Asking(PullStep(c, n), request, unsent, read)
  {
    var got := c.server.got;
    var k := Min(Min(n, |c.toServer|), 4 - |got|);
    var got', rest := got + c.toServer[..k], c.toServer[k..];
    assert got' + (rest + unsent) == got + c.toServer + unsent;
    if |got'| == 4 {
      LenComplete(request, got', rest, unsent);
    } else {
      assert got' + rest + unsent == got' + (rest + unsent);
    }
  }

  lemma PullBodyKeeps(c: Conn, n: nat, request: Bytes, unsent: Bytes, read: Bytes)
    requires Fits(request) && Asking(c, request, unsent, read) && c.server.ReadBody?
    ensures Asking(PullStep(c, n), request, unsent, read)
  {
    var need, got := c.server.need, c.server.got;
    var k := Min(Min(n, |c.toServer|), need - |got|);
    var got', rest := got + c.toServer[..k], c.toServer[k..];
    assert Le32(need) + got' + rest + unsent == Le32(need) + got + c.toServer + unsent;
    BodyPart(request, need, got', rest, unsent);
  }

  /** Once the announced number of bytes is there, the body is the request and nothing follows it. */
  lemma BodyPart(request: Bytes, need: nat, got: Bytes, rest: Bytes, unsent: Bytes)
    requires Fits(request) && |got| <= need <= MAX_FRAME
    requires Le32(need) + got + rest + unsent == Frame(request)
    ensures |got| == need ==> got == request && rest == [] && unsent == []
  {
    var head := Le32(need);
    assert head + (got + rest + unsent) == head + got + rest + unsent;
    FramePrefix(request, head, got + rest + unsent);
    Le32RoundTrip(need);
    assert |got| == need ==> rest + unsent == [];
  }

  lemma PushKeeps(c: Conn, n: nat, request: Bytes, unsent: Bytes, read: Bytes)
    requires InSend(c, request, unsent, read)
    ensures InSend(PushStep(c, n), request, unsent, read)
  {
    if c.server.Replying? && !c.broken {
      var frame, back := Frame(c.handled[|c.returned|].response.value), c.server.unsent;
      var k := Min(n, |back|);
      assert read + (c.toClient + back[..k]) + back[k..] == read + c.toClient + back;
      assert read + (c.toClient + back[..k]) <= frame;
    }
  }

  lemma ReplyKeeps(c: Conn, response: Option<Bytes>, request: Bytes, unsent: Bytes, read: Bytes)
    requires InSend(c, request, unsent, read)
    requires response.Some? ==> Fits(response.value)
    ensures InSend(ReplyStep(c, response), request, unsent, read)
  {
  }

  lemma ServerKeepsInSend(c: Conn, move: ServerMove, request: Bytes, unsent: Bytes, read: Bytes)
    requires InSend(c, request, unsent, read) && Sized(AtServer(0, move))
    ensures InSend(ServerStep(c, move), request, unsent, read)
  {
    match move
    case Pull(n) => PullKeeps(c, n, request, unsent, read);
    case Reply(response) => ReplyKeeps(c, response, request, unsent, read);
    case Push(n) => PushKeeps(c, n, request, unsent, read);
    case Break =>
    case Stop =>
  }

  lemma ServerKeepsBoundary(c: Conn, move: ServerMove)
    requires AtBoundary(c)
    ensures AtBoundary(ServerStep(c, move))
  {
  }

  lemma ServerKeepsAligned(c: Conn, move: ServerMove, client: Client)
    requires Aligned(c, client) && Sized(AtServer(0, move))
    ensures Aligned(ServerStep(c, move), client)
  {
    match client
    case Idle => ServerKeepsBoundary(c, move);
    case Writing(request, unsent) => ServerKeepsInSend(c, move, request, unsent, []);
    case AwaitLen(request, got) => ServerKeepsInSend(c, move, request, [], got);
    case AwaitBody(request, need, got) => ServerKeepsInSend(c, move, request, [], Le32(need) + got);
  }

  lemma ServerKeepsAnswers(c: Conn, move: ServerMove)
    requires Answers(c)
    ensures Answers(ServerStep(c, move))
  {
  }

  lemma ServerKeepsValid(l: Link, i: nat, move: ServerMove)
    requires Valid(l) && Sized(AtServer(i, move))
    ensures Valid(Step(l, AtServer(i, move)))
  {
    if i < |l.conns| {
      ServerKeepsAnswers(l.conns[i], move);
      if l.current == Some(i) {
        ServerKeepsAligned(l.conns[i], move, l.client);
      }
    }
  }
}
