/** Every step of the client keeps the link aligned, and what that means for every run. */
module IpcAlignment {
  import opened Base
  import opened Framing
  import opened IpcLink

  // ---- Client steps ----

  lemma StartKeepsValid(l: Link, request: Bytes)
    requires Valid(l) && Fits(request)
    ensures Valid(Step(l, Start(request)))
  {
    if l.client.Idle? && Connected(l) {
      assert [] + [] + Frame(request) == Frame(request);
    }
  }

  lemma WriteKeepsValid(l: Link, n: nat)
    requires Valid(l)
    ensures Valid(Step(l, Write(n)))
  {
    if Connected(l) && l.client.Writing? {
      var c, unsent := Current(l), l.client.unsent;
      var k := Min(n, |unsent|);
      var c' := c.(toServer := c.toServer + unsent[..k]);
      assert InSend(c', l.client.request, unsent[k..], []) by {
        assert c.server.ReadLen? ==>
            c.server.got + c'.toServer + unsent[k..] == c.server.got + c.toServer + unsent;
        assert c.server.ReadBody? ==>
            Le32(c.server.need) + c.server.got + c'.toServer + unsent[k..] ==
            Le32(c.server.need) + c.server.got + c.toServer + unsent;
      }
      assert k == |unsent| ==> unsent[k..] == [];
    }
  }

  /** Moving bytes from the stream into the client's buffer. */
  lemma ReadKeepsInSend(c: Conn, request: Bytes, read: Bytes, k: nat)
    requires InSend(c, request, [], read) && 0 < k <= |c.toClient|
    ensures InSend(c.(toClient := c.toClient[k..]), request, [], read + c.toClient[..k])
    ensures Answering(c, request, [], read)
    ensures c.handled[|c.returned|].response.Some?
    ensures read + c.toClient[..k] <= Frame(c.handled[|c.returned|].response.value)
  {
    var c' := c.(toClient := c.toClient[k..]);
    assert read + c.toClient[..k] + c'.toClient == read + c.toClient;
  }

  /** Once the whole response frame is read, nothing is left and the exchange is complete. */
  lemma CompleteIsBoundary(c: Conn, request: Bytes, read: Bytes)
    requires Answering(c, request, [], read) && c.handled[|c.returned|].response.Some?
    requires |read| == |Frame(c.handled[|c.returned|].response.value)|
    ensures read == Frame(c.handled[|c.returned|].response.value)
    ensures AtBoundary(c.(returned := c.returned + [Exchange(request, c.handled[|c.returned|].response)]))
  {
    var frame := Frame(c.handled[|c.returned|].response.value);
    assert read + c.toClient == frame;
    assert c.handled == c.handled[..|c.returned|] + [c.handled[|c.returned|]];
  }

  /** Receiving part of the length, or all of it. */
  lemma ReadLenAligned(c: Conn, request: Bytes, old': Bytes, k: nat)
    requires InSend(c, request, [], old') && 0 < k <= |c.toClient| && |old'| + k <= 4
    ensures
      var c', got := c.(toClient := c.toClient[k..]), old' + c.toClient[..k];
      && (|got| < 4 ==> Aligned(c', AwaitLen(request, got)))
      && (|got| == 4 && 0 < FromLe32(got) <= MAX_FRAME ==> Aligned(c', AwaitBody(request, FromLe32(got), [])))
      && (|got| == 4 && FromLe32(got) == 0 ==>
            AtBoundary(c'.(returned := c'.returned + [Exchange(request, Some([]))])))
  {
    var c', got := c.(toClient := c.toClient[k..]), old' + c.toClient[..k];
    ReadKeepsInSend(c, request, old', k);
    if |got| == 4 {
      var response := c.handled[|c.returned|].response.value;
      assert got + [] == got;
      FramePrefix(response, got, []);
      if |response| == 0 {
        CompleteIsBoundary(c', request, got);
      }
    }
  }

  /** A read of nothing changes nothing. */
  lemma ReadNothing(l: Link, n: nat)
    requires Connected(l) && (n == 0 || Current(l).toClient == [])
    ensures Step(l, Read(n)) == l
  {
    var toClient := Current(l).toClient;
    assert toClient[..0] == [] && toClient[0..] == toClient;
    assert l.client.AwaitLen? ==> l.client.got + [] == l.client.got;
    assert l.client.AwaitBody? ==> l.client.got + [] == l.client.got;
    assert l.conns[l.current.value := Current(l)] == l.conns;
  }

  /** Only the current connection and the client change. */
  lemma UpdateKeepsValid(l: Link, c: Conn, client: Client)
    requires Valid(l) && Connected(l) && Answers(c) && Aligned(c, client)
    ensures Valid(WithCurrent(l, c, client))
  {
  }

  lemma DropKeepsValid(l: Link, c: Conn)
    requires Valid(l) && Connected(l) && Answers(c)
    ensures Valid(Drop(WithCurrent(l, c, Idle)))
  {
  }

  lemma ReadLenKeepsValid(l: Link, n: nat)
    requires Valid(l) && Connected(l) && l.client.AwaitLen?
    ensures Valid(Step(l, Read(n)))
  {
    var c, request := Current(l), l.client.request;
    var k := Min(Min(n, |c.toClient|), 4 - |l.client.got|);
    if k == 0 {
      ReadNothing(l, n);
      return;
    }
    ReadLenAligned(c, request, l.client.got, k);
    var c', got := c.(toClient := c.toClient[k..]), l.client.got + c.toClient[..k];
    if |got| < 4 {
      UpdateKeepsValid(l, c', AwaitLen(request, got));
    } else if FromLe32(got) > MAX_FRAME {
      DropKeepsValid(l, c');
    } else if FromLe32(got) == 0 {
      UpdateKeepsValid(l, c'.(returned := c'.returned + [Exchange(request, Some([]))]), Idle);
    } else {
      UpdateKeepsValid(l, c', AwaitBody(request, FromLe32(got), []));
    }
  }

  /** Receiving part of the body, or all of it. */
  lemma ReadBodyAligned(c: Conn, request: Bytes, need: nat, old': Bytes, k: nat)
    requires need <= MAX_FRAME && InSend(c, request, [], Le32(need) + old')
    requires 0 < k <= |c.toClient| && |old'| + k <= need
    ensures
      var c', got := c.(toClient := c.toClient[k..]), old' + c.toClient[..k];
      && (|got| < need ==> Aligned(c', AwaitBody(request, need, got)))
      && (|got| == need ==> AtBoundary(c'.(returned := c'.returned + [Exchange(request, Some(got))])))
  {
    var c', got := c.(toClient := c.toClient[k..]), old' + c.toClient[..k];
    ReadKeepsInSend(c, request, Le32(need) + old', k);
    assert Le32(need) + old' + c.toClient[..k] == Le32(need) + got;
    var response := c.handled[|c.returned|].response.value;
    FramePrefix(response, Le32(need), got);
    Le32RoundTrip(need);
    if |got| == need {
      CompleteIsBoundary(c', request, Le32(need) + got);
    }
  }

  lemma ReadBodyKeepsValid(l: Link, n: nat)
    requires Valid(l) && Connected(l) && l.client.AwaitBody?
    ensures Valid(Step(l, Read(n)))
  {
    var c, request, need := Current(l), l.client.request, l.client.need;
    var k := Min(Min(n, |c.toClient|), need - |l.client.got|);
    if k == 0 {
      ReadNothing(l, n);
      return;
    }
    ReadBodyAligned(c, request, need, l.client.got, k);
    var c', got := c.(toClient := c.toClient[k..]), l.client.got + c.toClient[..k];
    if |got| < need {
      UpdateKeepsValid(l, c', AwaitBody(request, need, got));
    } else {
      UpdateKeepsValid(l, c'.(returned := c'.returned + [Exchange(request, Some(got))]), Idle);
    }
  }

  lemma ConnectKeepsValid(l: Link)
    requires Valid(l)
    ensures Valid(Step(l, Connect))
  {
  }

  lemma ValidStep(l: Link, e: Event)
    requires Valid(l) && Sized(e)
    ensures Valid(Step(l, e))
  {
    match e
    case Connect => ConnectKeepsValid(l);
    case Start(request) => StartKeepsValid(l, request);
    case Write(n) => WriteKeepsValid(l, n);
    case Read(n) =>
      if Connected(l) && l.client.AwaitLen? {
        ReadLenKeepsValid(l, n);
      } else if Connected(l) && l.client.AwaitBody? {
        ReadBodyKeepsValid(l, n);
      }
    case Fail =>
    case AtServer(i, move) => ServerKeepsValid(l, i, move);
  }

  lemma {:induction false} ValidRun(events: seq<Event>)
    requires forall e :: e in events ==> Sized(e)
    ensures Valid(Run(EMPTY, events))
  {
    if events != [] {
      ValidRun(events[..|events| - 1]);
      ValidStep(Run(EMPTY, events[..|events| - 1]), events[|events| - 1]);
    }
  }

  /**
   Whenever no `send` is running and a stream is kept, both directions are empty and
   the server is between frames; and on every connection, kept or dropped, each
   response that `send` returned is the one the server gave to that very request.
   */
  predicate InStep(l: Link) {
    && (l.client.Idle? && l.current.Some? ==> Connected(l) && AtBoundary(Current(l)))
    && (forall i, j :: 0 <= i < |l.conns| && 0 <= j < |l.conns[i].returned| ==>
          j < |l.conns[i].handled| && l.conns[i].returned[j] == l.conns[i].handled[j])
  }

  /**
   IPC alignment, for every run of sends with partial I/O, errors, timeouts,
   oversized frames and reconnects, as long as the messages fit.
   */
  lemma AlignedRun(events: seq<Event>)
    requires forall e :: e in events ==> Sized(e)
    ensures InStep(Run(EMPTY, events))
  {
    ValidRun(events);
  }
}
