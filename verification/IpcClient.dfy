/** `IpcClient::send` as the program writes it, and what the JSON codec adds to alignment. */
module IpcClient {
  import opened Base
  import opened Framing
  import opened IpcLink
  import opened IpcAlignment

  /** The outcomes of `send`; the last two keep the stream although they are errors. */
  datatype SendResult<Response> =
    | Answer(response: Response)
    | NotConnected
    | Dropped                 // write error, read error, oversized response or timeout
    | NotSerialised
    | NotParsed(body: Bytes)

  /** Everything that can happen while `send` holds the stream. */
  predicate DuringSend(e: Event) {
    !e.Connect? && !e.Start?
  }

  /** The parsed response, or the error that reports why it does not parse. */
  function Parsed<Response>(decode: Bytes -> Option<Response>, body: Bytes): SendResult<Response> {
    match decode(body)
    case Some(response) => Answer(response)
    case None => NotParsed(body)
  }

  class Client {
    /** The stream option behind the mutex. */
    var stream: Option<nat>

    /** The connections, with what is in flight on them and the daemon at the other end. */
    var link: Link

    ghost predicate Ready()
      reads this
    {
      WellFormed(link) && link.client.Idle? && link.current == stream
    }

    constructor ()
      ensures Ready() && link == EMPTY && Valid(link)
    {
      stream, link := None, EMPTY;
    }

    /**
     One call of `send` under one schedule of network and server events; when the
     schedule ends before the response is complete, a timeout fires.  The stream is
     given up exactly when there is no complete response to a request that was
     written.  On a valid link, with messages that fit, a complete response is the
     server's answer to this request and nothing is left on the stream; whether it
     parses makes no difference.
     */
    method Send<Response>(
      serialised: Option<Bytes>, decode: Bytes -> Option<Response>, connectOk: bool, schedule: seq<Event>)
      returns (r: SendResult<Response>)
      requires Ready()
      requires forall i :: 0 <= i < |schedule| ==> DuringSend(schedule[i])
      modifies this
      ensures Ready()
      ensures r.NotConnected? || r.Dropped? <==> stream.None?
      ensures r.NotConnected? ==> link == old(link)
      ensures r.NotSerialised? ==>
                serialised.None? && link.conns == old(link.conns) + if old(stream).Some? then [] else [NEW_CONN]
      ensures r.Answer? || r.NotParsed? ==>
                serialised.Some? && exists body :: r == Parsed(decode, body) && Returned(link, serialised.value, body)
      ensures Valid(old(link)) && serialised.None? ==> Valid(link)
      ensures serialised.Some? && Proper(old(link), serialised.value, schedule) ==>
                && Valid(link)
                && (stream.Some? ==>
                      exists body :: r == Parsed(decode, body) && AnsweredBy(Current(link), serialised.value, body))
    {
      if stream.None? {
        if !connectOk {
          return NotConnected;
        }
        ConnectKeeps(link);
        link := Step(link, Connect);
        stream := link.current;
      }
      if serialised.None? {
        return NotSerialised;
      }
      var request := serialised.value;
      ghost var proper := Proper(link, request, schedule);
      var body := Transact(request, schedule, proper);
      if body.None? {
        return Dropped;
      }
      r := Parsed(decode, body.value);
    }

    /** The request is written and the response read; on any failure the stream is given up. */
    method Transact(request: Bytes, schedule: seq<Event>, ghost proper: bool) returns (response: Option<Bytes>)
      requires Ready() && stream.Some? && (proper ==> Proper(link, request, schedule))
      requires forall i :: 0 <= i < |schedule| ==> DuringSend(schedule[i])
      modifies this
      ensures Ready() && (response.None? <==> stream.None?) && (proper ==> Valid(link))
      ensures response.Some? ==> Returned(link, request, response.value)
      ensures response.Some? && proper ==> AnsweredBy(Current(link), request, response.value)
    {
      StartProper(link, request, schedule, proper);
      link := Step(link, Start(request));
      var ok, i := WriteAll(request, schedule, proper);
      if !ok {
        link, stream := Drop(link), None;
        return None;
      }
      var length;
      ok, i, length := ReadLength(request, schedule, i, proper);
      if !ok {
        link, stream := Drop(link), None;
        return None;
      }
      var need := FromLe32(length);
      if need > MAX_FRAME {
        stream := None;
        return None;
      }
      var body := [];
      if need > 0 {
        ok, i, body := ReadExact(request, need, schedule, i, proper);
        if !ok {
          link, stream := Drop(link), None;
          return None;
        }
      }
      if proper {
        ReturnedIsAnswer(link, request, body);
      }
      response := Some(body);
    }

    /** `write_all` of the length and the request; false on an error. */
    method WriteAll(request: Bytes, schedule: seq<Event>, ghost proper: bool) returns (ok: bool, i: nat)
      requires forall j :: 0 <= j < |schedule| ==> DuringSend(schedule[j])
      requires Sending(link, stream, schedule, proper) && link.client == Writing(request, Frame(request))
      modifies this`link
      ensures i <= |schedule| && Sending(link, stream, schedule, proper)
      ensures if ok then link.client == AwaitLen(request, []) else link.client.Writing?
    {
      var unsent := Frame(request);
      i := 0;
      while unsent != [] && i < |schedule|
        invariant i <= |schedule| && Sending(link, stream, schedule, proper)
        invariant link.client == if unsent == [] then AwaitLen(request, []) else Writing(request, unsent)
      {
        var e := schedule[i];
        if e.Fail? {
          return false, i;
        }
        if e.Write? {
          unsent := unsent[Min(e.n, |unsent|)..];
        }
        SendingStep(link, stream, schedule, i, proper);
        link := Step(link, e);
        i := i + 1;
      }
      ok := unsent == [];
    }

    /** `read_exact` of the four length bytes; false on an error, at the end of the stream or after 30 seconds. */
    method ReadLength(request: Bytes, schedule: seq<Event>, from: nat, ghost proper: bool)
      returns (ok: bool, i: nat, length: Bytes)
      requires from <= |schedule| && forall j :: 0 <= j < |schedule| ==> DuringSend(schedule[j])
      requires Sending(link, stream, schedule, proper) && link.client == AwaitLen(request, [])
      modifies this`link
      ensures i <= |schedule|
      ensures !ok ==> Sending(link, stream, schedule, proper) && link.client.AwaitLen?
      ensures ok ==> |length| == 4 && LengthDone(link, stream, request, FromLe32(length)) && (proper ==> Valid(link))
    {
      i, length := from, [];
      while i < |schedule|
        invariant i <= |schedule| && |length| < 4
        invariant Sending(link, stream, schedule, proper) && link.client == AwaitLen(request, length)
      {
        var e := schedule[i];
        if e.Fail? {
          return false, i, length;
        }
        if e.Read? {
          length := length + Arriving(link, e.n, 4 - |length|);
        }
        SendingStep(link, stream, schedule, i, proper);
        link := Step(link, e);
        i := i + 1;
        if |length| == 4 {
          return true, i, length;
        }
      }
      ok := false;
    }

    /** `read_exact` of the response. */
    method ReadExact(request: Bytes, need: nat, schedule: seq<Event>, from: nat, ghost proper: bool)
      returns (ok: bool, i: nat, body: Bytes)
      requires from <= |schedule| && forall j :: 0 <= j < |schedule| ==> DuringSend(schedule[j])
      requires Sending(link, stream, schedule, proper) && link.client == AwaitBody(request, need, []) && need > 0
      modifies this`link
      ensures i <= |schedule|
      ensures !ok ==> Sending(link, stream, schedule, proper) && link.client.AwaitBody?
      ensures ok ==> link.current == stream && Returned(link, request, body) && (proper ==> Valid(link))
    {
      i, body := from, [];
      while i < |schedule|
        invariant i <= |schedule| && |body| < need
        invariant Sending(link, stream, schedule, proper) && link.client == AwaitBody(request, need, body)
      {
        var e := schedule[i];
        if e.Fail? {
          return false, i, body;
        }
        if e.Read? {
          body := body + Arriving(link, e.n, need - |body|);
        }
        SendingStep(link, stream, schedule, i, proper);
        link := Step(link, e);
        i := i + 1;
        if |body| == need {
          return true, i, body;
        }
      }
      ok := false;
    }
  }

  /** `send` is under way on the stream; on a proper link the account of every byte holds. */
  predicate Sending(l: Link, stream: Option<nat>, schedule: seq<Event>, proper: bool) {
    && WellFormed(l) && !l.client.Idle? && l.current == stream
    && (proper ==> Valid(l) && forall j :: 0 <= j < |schedule| ==> Sized(schedule[j]))
  }

  /** The bytes that one read of at most n bytes, with room for `room`, takes off the stream. */
  function Arriving(l: Link, n: nat, room: nat): Bytes
    requires Connected(l)
  {
    Current(l).toClient[..Min(Min(n, |Current(l).toClient|), room)]
  }

  /** The whole response `body` to `request` was read, and the stream is kept. */
  predicate Returned(l: Link, request: Bytes, body: Bytes) {
    l.client.Idle? && Connected(l) && JustReturned(Current(l), Exchange(request, Some(body)))
  }

  /** The length is read: the stream is dropped, the response is empty, or its bytes come next. */
  predicate LengthDone(l: Link, stream: Option<nat>, request: Bytes, need: nat) {
    && WellFormed(l)
    && if need > MAX_FRAME then l.client.Idle? && l.current.None?
       else if need == 0 then l.current == stream && Returned(l, request, [])
       else l.current == stream && l.client == AwaitBody(request, need, [])
  }

  /** The last thing handled on the connection is this request, answered by `body`; nothing is left on it. */
  predicate AnsweredBy(c: Conn, request: Bytes, body: Bytes) {
    AtBoundary(c) && |c.handled| > 0 && c.handled[|c.handled| - 1] == Exchange(request, Some(body))
  }

  lemma ReturnedIsAnswer(l: Link, request: Bytes, body: Bytes)
    requires Valid(l) && Returned(l, request, body)
    ensures AnsweredBy(Current(l), request, body)
  {
  }

  lemma ConnectKeeps(l: Link)
    requires WellFormed(l) && l.client.Idle? && l.current.None?
    ensures
      var t := Step(l, Connect);
      && WellFormed(t) && t.client.Idle? && t.current.Some? && t.conns == l.conns + [NEW_CONN]
      && (Valid(l) ==> Valid(t))
  {
    if Valid(l) {
      ConnectKeepsValid(l);
    }
  }

  lemma SendingStep(l: Link, stream: Option<nat>, schedule: seq<Event>, i: nat, proper: bool)
    requires Sending(l, stream, schedule, proper) && i < |schedule|
    ensures WellFormed(Step(l, schedule[i])) && (proper ==> Valid(Step(l, schedule[i])))
  {
    if proper {
      ValidStep(l, schedule[i]);
    }
  }

  /** `x` is what `send` returned last on this connection. */
  predicate JustReturned(c: Conn, x: Exchange) {
    |c.returned| > 0 && c.returned[|c.returned| - 1] == x
  }

  /** A valid link, a request that fits, and a schedule in which every response fits. */
  predicate Proper(l: Link, request: Bytes, schedule: seq<Event>) {
    Valid(l) && Fits(request) && forall j :: 0 <= j < |schedule| ==> Sized(schedule[j])
  }

  lemma StartProper(l: Link, request: Bytes, schedule: seq<Event>, proper: bool)
    requires WellFormed(l) && l.client.Idle? && l.current.Some? && (proper ==> Proper(l, request, schedule))
    ensures
      var t := Step(l, Start(request));
      && t.client == Writing(request, Frame(request))
      && Sending(t, l.current, schedule, proper)
  {
    if proper {
      StartKeepsValid(l, request);
    }
  }

  /**
   With any JSON codec that decodes what it encoded, the request the server
   decoded for a returned response is the request that `send` was given.
   */
  lemma DecodedRequestIsTheOneSent<Request(!new)>(
    encode: Request -> Bytes, decode: Bytes -> Option<Request>, events: seq<Event>, i: nat, j: nat, request: Request)
    requires forall r :: decode(encode(r)) == Some(r)
    requires forall e :: e in events ==> Sized(e)
    requires i < |Run(EMPTY, events).conns| && j < |Run(EMPTY, events).conns[i].returned|
    requires Run(EMPTY, events).conns[i].returned[j].request == encode(request)
    ensures
      var c := Run(EMPTY, events).conns[i];
      && j < |c.handled| && decode(c.handled[j].request) == Some(request)
      && c.handled[j].response == c.returned[j].response
  {
    AlignedRun(events);
  }
}
