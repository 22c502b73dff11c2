/**
 Length-prefixed framing of the daemon's IPC: a little-endian u32 length and the
 body (daemon/client.rs, daemon/mod.rs).
 */
module Framing {
  import opened Base

  const MAX_FRAME: int := 10 * 1024 * 1024

  function Le32(n: u32): (b: seq<byte>)
    ensures |b| == 4
  {
    [n % 0x100, n / 0x100 % 0x100, n / 0x1_0000 % 0x100, n / 0x100_0000]
  }

  function FromLe32(b: seq<byte>): u32
    requires |b| == 4
  {
    b[0] + 0x100 * (b[1] as int) + 0x1_0000 * (b[2] as int) + 0x100_0000 * (b[3] as int)
  }

  lemma Le32RoundTrip(n: u32)
    ensures FromLe32(Le32(n)) == n
  {
    var q := n / 0x100;
    assert n / 0x1_0000 == q / 0x100 && n / 0x100_0000 == q / 0x1_0000;
  }

  /** What both sides write; `len() as u32` drops the high bits of an enormous length. */
  function Frame(message: seq<byte>): seq<byte> {
    Le32(Announced(message)) + message
  }

  /** Four bytes, the least significant first, and then the message. */
  lemma FrameIsLittleEndian(message: seq<byte>)
    requires |message| < 0x1_0000_0000
    ensures
      var f := Frame(message);
      && |f| == 4 + |message| && f[4..] == message
      && f[0] as int + 256 * f[1] as int + 65_536 * f[2] as int + 16_777_216 * f[3] as int == |message|
  {
    Le32RoundTrip(|message|);
    assert Frame(message)[..4] == Le32(|message|);
  }

  /** The length written in front of a message. */
  function Announced(message: seq<byte>): (n: u32)
    ensures n <= |message|
  {
    |message| % 0x1_0000_0000
  }

  /** The announced length is the real one, or large enough for the reader to refuse it. */
  predicate Fits(message: seq<byte>) {
    |message| < 0x1_0000_0000 || Announced(message) > MAX_FRAME
  }

  /** Any prefix of a frame that is at least four bytes long starts with the announced length. */
  lemma FramePrefix(message: seq<byte>, head: seq<byte>, tail: seq<byte>)
    requires |head| == 4 && head + tail <= Frame(message)
    ensures head == Le32(Announced(message)) && FromLe32(head) == Announced(message) && tail <= message
    ensures head + tail == Frame(message) ==> tail == message
  {
    assert head == (head + tail)[..4] == Frame(message)[..4] == Le32(Announced(message));
    Le32RoundTrip(Announced(message));
    assert tail == (head + tail)[4..];
    assert Frame(message)[4..] == message;
  }

  datatype ReadResult = Got(message: seq<byte>, rest: seq<byte>) | TooLarge | Truncated

  /** One round of the reader on the bytes of the stream. */
  function ReadFrame(stream: seq<byte>): (r: ReadResult)
    ensures r.Got? ==> |r.rest| + 4 + |r.message| == |stream| && |r.message| <= MAX_FRAME
  {
    if |stream| < 4 then Truncated
    else
      var n := FromLe32(stream[..4]);
      if n > MAX_FRAME then TooLarge
      else if |stream| < 4 + n then Truncated
      else Got(stream[4..4 + n], stream[4 + n..])
  }

  /** The messages the connection loop reads before it stops. */
  function ReadAll(stream: seq<byte>): seq<seq<byte>>
    decreases |stream|
  {
    match ReadFrame(stream)
    case Got(message, rest) => [message] + ReadAll(rest)
    case _ => []
  }

  method ReadLoop(stream: seq<byte>) returns (messages: seq<seq<byte>>)
    ensures messages == ReadAll(stream)
  {
    messages := [];
    var unread := stream;
    while |unread| >= 4
      invariant messages + ReadAll(unread) == ReadAll(stream)
      decreases |unread|
    {
      var n := FromLe32(unread[..4]);
      if n > MAX_FRAME || |unread| < 4 + n {
        return;
      }
      ReadAllNext(messages, unread, n);
      messages := messages + [unread[4..4 + n]];
      unread := unread[4 + n..];
    }
  }

  lemma ReadAllNext(messages: seq<seq<byte>>, unread: seq<byte>, n: nat)
    requires |unread| >= 4 && n == FromLe32(unread[..4]) && n <= MAX_FRAME && |unread| >= 4 + n
    ensures messages + ReadAll(unread) == messages + [unread[4..4 + n]] + ReadAll(unread[4 + n..])
  {
    assert ReadFrame(unread) == Got(unread[4..4 + n], unread[4 + n..]);
  }

  function FrameAll(messages: seq<seq<byte>>): seq<byte> {
    if messages == [] then [] else Frame(messages[0]) + FrameAll(messages[1..])
  }

  /** Reading what was framed gives the message back, with more bytes after it or not. */
  lemma ReadFramed(message: seq<byte>, rest: seq<byte>)
    requires |message| <= MAX_FRAME
    ensures ReadFrame(Frame(message) + rest) == Got(message, rest)
  {
    var stream := Frame(message) + rest;
    assert stream[..4] == Le32(|message|);
    Le32RoundTrip(|message|);
    assert stream[4..4 + |message|] == message;
    assert stream[4 + |message|..] == rest;
  }

  lemma ReadAllFramed(message: seq<byte>, rest: seq<byte>)
    requires |message| <= MAX_FRAME
    ensures ReadAll(Frame(message) + rest) == [message] + ReadAll(rest)
  {
    ReadFramed(message, rest);
  }

  /** Messages within the limit survive the wire: the same sequence comes out. */
  lemma {:induction false} FramingRoundTrip(messages: seq<seq<byte>>)
    requires forall m :: m in messages ==> |m| <= MAX_FRAME
    ensures ReadAll(FrameAll(messages)) == messages
  {
    if messages != [] {
      FramingRoundTrip(messages[1..]);
      ReadAllFramed(messages[0], FrameAll(messages[1..]));
    }
  }

  /** Cutting any byte stream short only loses messages at the end. */
  lemma {:induction false} TruncationGivesPrefix(stream: seq<byte>, cut: seq<byte>)
    requires cut <= stream
    ensures ReadAll(cut) <= ReadAll(stream)
    decreases |cut|
  {
    if ReadFrame(cut).Got? {
      var n := |ReadFrame(cut).message|;
      SameFrame(stream, cut);
      TruncationGivesPrefix(stream[4 + n..], cut[4 + n..]);
    }
  }

  /** A whole frame at the front of the shorter stream is at the front of the longer one. */
  lemma SameFrame(stream: seq<byte>, cut: seq<byte>)
    requires cut <= stream && ReadFrame(cut).Got?
    ensures
      var n := |ReadFrame(cut).message|;
      ReadFrame(cut) == Got(cut[4..4 + n], cut[4 + n..])
      && ReadFrame(stream) == Got(cut[4..4 + n], stream[4 + n..]) && cut[4 + n..] <= stream[4 + n..]
  {
    var n := FromLe32(cut[..4]);
    assert cut[..4] == stream[..4] && cut[4..4 + n] == stream[4..4 + n];
  }

  /** One message is read back exactly, with nothing left over, only up to the limit. */
  lemma FrameReadsBackIff(message: seq<byte>)
    ensures ReadFrame(Frame(message)) == Got(message, []) <==> |message| <= 10_485_760
  {
    if |message| <= MAX_FRAME {
      ReadFramed(message, []);
      assert Frame(message) + [] == Frame(message);
    }
  }

  /** A message that does not fit, and only such a one, is cut short and leaves bytes behind. */
  lemma BytesLeftIff(message: seq<byte>)
    ensures ReadFrame(Frame(message)).Got? && ReadFrame(Frame(message)).rest != [] <==> !Fits(message)
  {
    assert Frame(message)[..4] == Le32(Announced(message));
    Le32RoundTrip(Announced(message));
  }
}
