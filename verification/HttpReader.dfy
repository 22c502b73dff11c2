/**
 Reading an HTTP request in pieces (`handle_connection`, file/server.rs).  `chunks`
 are what successive reads return; the stream ends after the last one.  The value of
 the Content-Length header is a function of the header bytes.
 */
module HttpReader {
  import opened Base

  type Bytes = seq<byte>

  const HEADER_LIMIT: nat := 64 * 1024
  const BLANK_LINE: Bytes := [13, 10, 13, 10]

  predicate BlankAt(buf: Bytes, i: nat) {
    i + 4 <= |buf| && buf[i..i + 4] == BLANK_LINE
  }

  /** First position of the blank line. */
  function FindHeaderEnd(buf: Bytes): (r: Option<nat>)
    ensures r.Some? ==> BlankAt(buf, r.value) && forall j :: 0 <= j < r.value ==> !BlankAt(buf, j)
    ensures r.None? ==> forall j: nat :: !BlankAt(buf, j)
  {
    Search(buf, 0)
  }

  function Search(buf: Bytes, from: nat): (r: Option<nat>)
    requires from <= |buf|
    ensures r.Some? ==> from <= r.value && BlankAt(buf, r.value) && forall j :: from <= j < r.value ==> !BlankAt(buf, j)
    ensures r.None? ==> forall j :: from <= j ==> !BlankAt(buf, j)
    decreases |buf| - from
  {
    if BlankAt(buf, from) then Some(from)
    else if from == |buf| then None
    else Search(buf, from + 1)
  }

  /** Carriage return, newline, carriage return, newline. */
  predicate BlankLineAt(buf: Bytes, i: nat) {
    i + 3 < |buf| && buf[i] == 13 && buf[i + 1] == 10 && buf[i + 2] == 13 && buf[i + 3] == 10
  }

  lemma HeaderEndIff(buf: Bytes, p: nat)
    ensures FindHeaderEnd(buf) == Some(p) <==> BlankLineAt(buf, p) && forall j: nat :: j < p ==> !BlankLineAt(buf, j)
  {
    forall j: nat
      ensures BlankAt(buf, j) <==> BlankLineAt(buf, j)
    {
      if j + 4 <= |buf| {
        assert buf[j..j + 4] == [buf[j], buf[j + 1], buf[j + 2], buf[j + 3]];
      }
    }
  }

  datatype HeaderRead = Aborted | Headers(end: nat, buf: Bytes, rest: seq<Bytes>)

  /** The first loop: accumulate until the blank line is there; give up past 64 KiB without it. */
  function ReadHeader(buf: Bytes, chunks: seq<Bytes>): HeaderRead
    decreases |chunks|
  {
    if chunks == [] then Aborted
    else
      var more := buf + chunks[0];
      match FindHeaderEnd(more)
      case Some(pos) => Headers(pos, more, chunks[1..])
      case None => if |more| > HEADER_LIMIT then Aborted else ReadHeader(more, chunks[1..])
  }

  /** The second loop: read until Content-Length bytes are there or the stream ends. */
  function ReadBody(body: Bytes, need: nat, chunks: seq<Bytes>): Bytes
    decreases |chunks|
  {
    if |body| >= need || chunks == [] then body else ReadBody(body + chunks[0], need, chunks[1..])
  }

  datatype Request = Request(headerEnd: nat, header: Bytes, body: Bytes)

  function Handle(chunks: seq<Bytes>, contentLength: Bytes -> nat): Option<Request> {
    match ReadHeader([], chunks)
    case Aborted => None
    case Headers(end, buf, rest) =>
      if end == 0 || end + 4 > |buf| then None      // no request line
      else Some(Finish(buf, rest, contentLength, end))
  }

  method HandleReads(chunks: seq<Bytes>, contentLength: Bytes -> nat) returns (r: Option<Request>)
    ensures r == Handle(chunks, contentLength)
  {
    var buf: Bytes := [];
    var i := 0;
    var end: Option<nat> := None;
    while end.None?
      invariant 0 <= i <= |chunks|
      invariant end.None? ==> ReadHeader(buf, chunks[i..]) == ReadHeader([], chunks)
      invariant end.Some? ==> BlankAt(buf, end.value) && ReadHeader([], chunks) == Headers(end.value, buf, chunks[i..])
      decreases end.None?, |chunks| - i
    {
      if i == |chunks| {
        return None;
      }
      assert chunks[i..][1..] == chunks[i + 1..];
      buf := buf + chunks[i];
      i := i + 1;
      end := FindHeaderEnd(buf);
      if end.None? && |buf| > HEADER_LIMIT {
        return None;
      }
    }
    if end.value == 0 {
      return None;
    }
    var header := buf[..end.value];
    var need := contentLength(header);
    var body := buf[end.value + 4..];
    ghost var start, rest := body, chunks[i..];
    while |body| < need && i < |chunks|
      invariant 0 <= i <= |chunks|
      invariant ReadBody(body, need, chunks[i..]) == ReadBody(start, need, rest)
      decreases |chunks| - i
    {
      assert chunks[i..][1..] == chunks[i + 1..];
      body := body + chunks[i];
      i := i + 1;
    }
    r := Some(Request(end.value, header, body));
  }

  // ---- Independence of the chunking ----

  function Concat(chunks: seq<Bytes>): Bytes {
    if chunks == [] then [] else chunks[0] + Concat(chunks[1..])
  }

  predicate Splits(chunks: seq<Bytes>, request: Bytes) {
    Concat(chunks) == request && forall i :: 0 <= i < |chunks| ==> chunks[i] != []
  }

  /** The blank line is found in a prefix exactly when the prefix reaches past its end. */
  lemma FindInPrefix(request: Bytes, buf: Bytes, p: nat)
    requires buf <= request && FindHeaderEnd(request) == Some(p)
    ensures FindHeaderEnd(buf) == if p + 4 <= |buf| then Some(p) else None
  {
    var r := FindHeaderEnd(buf);
    if p + 4 <= |buf| {
      assert buf[p..p + 4] == request[p..p + 4];
      assert BlankAt(buf, p);
    }
    if r.Some? {
      assert buf[r.value..r.value + 4] == request[r.value..r.value + 4];
      assert BlankAt(request, r.value);
    }
  }

  lemma {:induction false} HeaderFound(request: Bytes, buf: Bytes, chunks: seq<Bytes>, p: nat)
    requires FindHeaderEnd(request) == Some(p) && p + 3 <= HEADER_LIMIT
    requires buf + Concat(chunks) == request && |buf| < p + 4
    requires forall i :: 0 <= i < |chunks| ==> chunks[i] != []
    ensures
      var r := ReadHeader(buf, chunks);
      r.Headers? && r.end == p && p + 4 <= |r.buf| && r.buf + Concat(r.rest) == request
      && (forall i :: 0 <= i < |r.rest| ==> r.rest[i] != [])
    decreases |chunks|
  {
    if chunks != [] {
      var more := buf + chunks[0];
      assert more + Concat(chunks[1..]) == request;
      assert more <= request;
      FindInPrefix(request, more, p);
      if |more| < p + 4 {
        HeaderFound(request, more, chunks[1..], p);
      }
    }
  }

  lemma {:induction false} BodyComplete(body: Bytes, need: nat, chunks: seq<Bytes>)
    requires |body + Concat(chunks)| <= need
    requires forall i :: 0 <= i < |chunks| ==> chunks[i] != []
    ensures ReadBody(body, need, chunks) == body + Concat(chunks)
    decreases |chunks|
  {
    if chunks != [] {
      assert body + chunks[0] + Concat(chunks[1..]) == body + Concat(chunks);
      BodyComplete(body + chunks[0], need, chunks[1..]);
    } else {
      assert body + Concat(chunks) == body;
    }
  }

  lemma BodyAfterHeader(buf: Bytes, rest: seq<Bytes>, request: Bytes, p: nat, need: nat)
    requires buf + Concat(rest) == request && p + 4 <= |buf| && |request| - (p + 4) <= need
    requires forall i :: 0 <= i < |rest| ==> rest[i] != []
    ensures buf[..p] == request[..p] && ReadBody(buf[p + 4..], need, rest) == request[p + 4..]
  {
    assert buf[p + 4..] + Concat(rest) == request[p + 4..];
    BodyComplete(buf[p + 4..], need, rest);
  }

  /** The request as one piece: an empty header section is not answered. */
  function Whole(request: Bytes, p: nat): Option<Request>
    requires p + 4 <= |request|
  {
    if p == 0 then None else Some(Request(p, request[..p], request[p + 4..]))
  }

  /**
   However a request is cut into reads, the handler finds the same header and the
   body is exactly the bytes after the blank line.
   */
  lemma ChunkingIndependent(request: Bytes, chunks: seq<Bytes>, contentLength: Bytes -> nat, p: nat)
    requires Splits(chunks, request) && FindHeaderEnd(request) == Some(p)
    requires p + 3 <= HEADER_LIMIT && (p == 0 || |request| - (p + 4) <= contentLength(request[..p]))
    ensures Handle(chunks, contentLength) == Whole(request, p)
  {
    assert [] + Concat(chunks) == request;
    HeaderFound(request, [], chunks, p);
    var r := ReadHeader([], chunks);
    if p > 0 {
      WholeAfterHeader(r.buf, r.rest, request, contentLength, p);
    }
  }

  /** What is made of the buffer and the later reads once the header is found. */
  function Finish(buf: Bytes, rest: seq<Bytes>, contentLength: Bytes -> nat, p: nat): Request
    requires p + 4 <= |buf|
  {
    Request(p, buf[..p], ReadBody(buf[p + 4..], contentLength(buf[..p]), rest))
  }

  lemma WholeAfterHeader(buf: Bytes, rest: seq<Bytes>, request: Bytes, contentLength: Bytes -> nat, p: nat)
    requires 0 < p && p + 4 <= |buf| && buf + Concat(rest) == request
    requires |request| - (p + 4) <= contentLength(request[..p]) && forall i :: 0 <= i < |rest| ==> rest[i] != []
    ensures Some(Finish(buf, rest, contentLength, p)) == Whole(request, p)
  {
    BodyAfterHeader(buf, rest, request, p, contentLength(request[..p]));
  }

  // ---- The conditions are exact: reading byte by byte ----

  function Singles(request: Bytes): seq<Bytes> {
    if request == [] then [] else [[request[0]]] + Singles(request[1..])
  }

  lemma {:induction false} SinglesSplit(request: Bytes)
    ensures Splits(Singles(request), request)
  {
    if request != [] {
      SinglesSplit(request[1..]);
    }
  }

  /** Byte by byte, the header is found at the earliest moment, or the limit is hit on the way. */
  lemma {:induction false} SinglesHeader(request: Bytes, k: nat, p: nat)
    requires FindHeaderEnd(request) == Some(p) && k < p + 4 && k <= HEADER_LIMIT
    ensures ReadHeader(request[..k], Singles(request[k..])) ==
            if p + 3 <= HEADER_LIMIT then Headers(p, request[..p + 4], Singles(request[p + 4..])) else Aborted
    decreases p + 4 - k
  {
    var more := request[..k + 1];
    assert request[..k] + [request[k]] == more;
    assert request[k..][1..] == request[k + 1..];
    FindInPrefix(request, more, p);
    if k + 1 < p + 4 && k + 1 <= HEADER_LIMIT {
      SinglesHeader(request, k + 1, p);
    }
  }

  lemma {:induction false} SinglesBody(body: Bytes, need: nat, rest: Bytes)
    requires |body| <= need <= |body| + |rest|
    ensures ReadBody(body, need, Singles(rest)) == body + rest[..need - |body|]
    decreases |rest|
  {
    if |body| < need {
      SinglesBody(body + [rest[0]], need, rest[1..]);
      assert body + [rest[0]] + rest[1..][..need - |body| - 1] == body + rest[..need - |body|];
    }
  }

  /** Without a blank line the stream ends, or the limit is passed, before a request is there. */
  lemma {:induction false} NoHeaderFound(request: Bytes, buf: Bytes, chunks: seq<Bytes>)
    requires FindHeaderEnd(request).None? && buf + Concat(chunks) == request
    ensures ReadHeader(buf, chunks) == Aborted
    decreases |chunks|
  {
    if chunks != [] {
      var more := buf + chunks[0];
      assert more + Concat(chunks[1..]) == request;
      if FindHeaderEnd(more).Some? {
        var p := FindHeaderEnd(more).value;
        assert request[p..p + 4] == more[p..p + 4];
        assert BlankAt(request, p);
      }
      NoHeaderFound(request, more, chunks[1..]);
    }
  }

  /** The request as one piece, None when there is no header section to answer. */
  function Unsplit(request: Bytes): Option<Request> {
    match FindHeaderEnd(request)
    case None => None
    case Some(p) => Whole(request, p)
  }

  /** No header section, or one that ends within the limit with at most Content-Length bytes behind it. */
  predicate ReadsWhole(request: Bytes, contentLength: Bytes -> nat) {
    match FindHeaderEnd(request)
    case None => true
    case Some(p) => p + 3 <= 65_536 && (p == 0 || |request| - (p + 4) <= contentLength(request[..p]))
  }

  /** Every byte stream is read the same way under every chunking exactly under that condition. */
  lemma ChunkingIndependentIff(request: Bytes, contentLength: Bytes -> nat)
    ensures
      (forall chunks :: Splits(chunks, request) ==> Handle(chunks, contentLength) == Unsplit(request))
      <==> ReadsWhole(request, contentLength)
  {
    match FindHeaderEnd(request)
    case Some(p) => ChunkingWithHeader(request, contentLength, p);
    case None =>
      forall chunks | Splits(chunks, request)
        ensures Handle(chunks, contentLength) == None
      {
        assert [] + Concat(chunks) == request;
        NoHeaderFound(request, [], chunks);
      }
  }

  lemma ChunkingWithHeader(request: Bytes, contentLength: Bytes -> nat, p: nat)
    requires FindHeaderEnd(request) == Some(p)
    ensures
      (forall chunks :: Splits(chunks, request) ==> Handle(chunks, contentLength) == Whole(request, p))
      <==> p + 3 <= HEADER_LIMIT && (p == 0 || |request| - (p + 4) <= contentLength(request[..p]))
  {
    var need, rest := contentLength(request[..p]), request[p + 4..];
    if p + 3 <= HEADER_LIMIT && (p == 0 || |rest| <= need) {
      forall chunks | Splits(chunks, request)
        ensures Handle(chunks, contentLength) == Whole(request, p)
      {
        ChunkingIndependent(request, chunks, contentLength, p);
      }
    } else {
      SinglesSplit(request);
      SinglesHeader(request, 0, p);
      assert request[..0] == [] && request[0..] == request;
      if p + 3 <= HEADER_LIMIT {
        assert request[..p + 4][..p] == request[..p] && request[..p + 4][p + 4..] == [];
        SinglesBody([], need, rest);
      }
    }
  }
}
