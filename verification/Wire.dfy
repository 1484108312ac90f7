/**
 Length-prefixed framing (wire.py:21-56, rust/mdp2p-node/src/codec.rs:43-65). A stream is the bytes still
 to be read; the transport hands them out in chunks of any size.
 */
module Wire {
  import opened Text
  import opened Wrappers

  const WRITE_CHUNK_SIZE := 32 * 1024
  const MAX_FRAME := 0x1_0000_0000

  // ---- Frames

  // `struct.pack("!I", n)`
  function Header(n: nat): (h: bytes)
    requires n < MAX_FRAME
    ensures |h| == 4
  {
    [n / 256 / 256 / 256, n / 256 / 256 % 256, n / 256 % 256, n % 256]
  }

  function Length(h: bytes): nat
    requires |h| == 4
  {
    ((h[0] * 256 + h[1] as int) * 256 + h[2] as int) * 256 + h[3] as int
  }

  lemma HeaderRoundTrip(n: nat)
    requires n < MAX_FRAME
    ensures Length(Header(n)) == n
    ensures var h := Header(n); h[0] as int * 0x100_0000 + h[1] as int * 0x1_0000 + h[2] as int * 0x100 + h[3] == n
  {
  }

  function Frame(payload: bytes): bytes
    requires |payload| < MAX_FRAME
  {
    Header(|payload|) + payload
  }

  // What a receiver gets from a stream, and what it leaves unread.
  function Receive(data: bytes, max: nat): (Option<bytes>, bytes)
  {
    if |data| < 4 then (None, [])
    else
      var n, rest := Length(data[..4]), data[4..];
      if n > max then (None, rest)
      else if |rest| < n then (None, [])
      else (Some(rest[..n]), rest[n..])
  }

  // ---- Streams

  class Stream {
    var data: bytes
    // The sizes of the writes made so far.
    ghost var writes: seq<nat>

    constructor (data: bytes)
      ensures this.data == data && writes == []
    {
      this.data := data;
      writes := [];
    }

    // At least one byte and at most n, however the transport cuts them; nothing at the end of the stream.
    method Read(n: nat) returns (chunk: bytes)
      requires n > 0
      modifies this`data
      ensures |chunk| <= n && chunk <= old(data) && data == old(data)[|chunk|..]
      ensures chunk == [] <==> old(data) == []
    {
      var most := if n < |data| then n else |data|;
      if most == 0 {
        return [];
      }
      var k :| 1 <= k <= most;
      chunk := data[..k];
      data := data[k..];
    }

    method Write(chunk: bytes)
      modifies this
      ensures data == old(data) + chunk && writes == old(writes) + [|chunk|]
    {
      data := data + chunk;
      writes := writes + [|chunk|];
    }
  }

  method ReadExact(stream: Stream, n: nat) returns (r: Option<bytes>)
    modifies stream`data
    ensures |old(stream.data)| >= n ==> r == Some(old(stream.data)[..n]) && stream.data == old(stream.data)[n..]
    ensures |old(stream.data)| < n ==> r == None && stream.data == []
  {
    var buf: bytes := [];
    while |buf| < n
      invariant |buf| <= n && buf + stream.data == old(stream.data)
      decreases n - |buf|
    {
      var chunk := stream.Read(n - |buf|);
      if chunk == [] {
        return None;
      }
      buf := buf + chunk;
    }
    r := Some(buf);
  }

  // Python: slices of at most 32 KiB. A payload over the limit, or over what the header can hold, raises
  // before anything is written.
  method SendFramed(stream: Stream, payload: bytes, max: nat) returns (sent: bool)
    modifies stream
    ensures sent <==> |payload| <= max && |payload| < MAX_FRAME
    ensures sent ==> stream.data == old(stream.data) + Frame(payload)
    ensures !sent ==> stream.data == old(stream.data) && stream.writes == old(stream.writes)
    ensures old(stream.writes) <= stream.writes
    ensures forall i | |old(stream.writes)| <= i < |stream.writes| :: stream.writes[i] <= 32_768
  {
    if |payload| > max || |payload| >= MAX_FRAME {
      return false;
    }
    var frame := Frame(payload);
    var start := 0;
    while start < |frame|
      invariant 0 <= start <= |frame| && stream.data == old(stream.data) + frame[..start]
      invariant old(stream.writes) <= stream.writes
      invariant forall i | |old(stream.writes)| <= i < |stream.writes| :: stream.writes[i] <= WRITE_CHUNK_SIZE
      decreases |frame| - start
    {
      var end := if start + WRITE_CHUNK_SIZE < |frame| then start + WRITE_CHUNK_SIZE else |frame|;
      stream.Write(frame[start..end]);
      assert frame[..end] == frame[..start] + frame[start..end];
      start := end;
    }
    assert frame[..|frame|] == frame;
    sent := true;
  }

  // Rust: header and payload in one write each; the layers below split them.
  method WriteFrame(stream: Stream, payload: bytes) returns (sent: bool)
    modifies stream
    ensures sent <==> |payload| < MAX_FRAME
    ensures stream.data == old(stream.data) + if sent then Frame(payload) else []
  {
    if |payload| >= MAX_FRAME {
      assert old(stream.data) + [] == old(stream.data);
      return false;
    }
    stream.Write(Header(|payload|));
    stream.Write(payload);
    assert old(stream.data) + Header(|payload|) + payload == old(stream.data) + Frame(payload);
    sent := true;
  }

  // Both programs read alike; what Python answers with None is an error in Rust.
  method ReceiveFramed(stream: Stream, max: nat) returns (r: Option<bytes>)
    modifies stream`data
    ensures (r, stream.data) == Receive(old(stream.data), max)
  {
    var header := ReadExact(stream, 4);
    if header.None? {
      return None;
    }
    var length := Length(header.value);
    if length > max {
      return None;
    }
    r := ReadExact(stream, length);
  }

  // ---- However it is cut, a frame arrives whole

  lemma FramedParts(payload: bytes, rest: bytes)
    requires |payload| < MAX_FRAME
    ensures var data := Frame(payload) + rest;
      |data| >= 4 && Length(data[..4]) == |payload| && data[4..] == payload + rest
  {
    var data := Frame(payload) + rest;
    assert data[..4] == Header(|payload|);
    HeaderRoundTrip(|payload|);
  }

  // Within the limit the receiver gets exactly the payload and leaves what follows; over the limit it
  // gives up having read the four bytes of the header only.
  lemma FramingRoundTrip(payload: bytes, rest: bytes, max: nat)
    requires |payload| < MAX_FRAME
    ensures Receive(Frame(payload) + rest, max) ==
      if |payload| <= max then (Some(payload), rest) else (None, payload + rest)
  {
    FramedParts(payload, rest);
    assert (payload + rest)[..|payload|] == payload && (payload + rest)[|payload|..] == rest;
  }

  predicate Sendable(payloads: seq<bytes>) { forall p | p in payloads :: |p| < MAX_FRAME }

  function Frames(payloads: seq<bytes>): bytes
    requires Sendable(payloads)
  {
    if payloads == [] then [] else Frame(payloads[0]) + Frames(payloads[1..])
  }

  // The first n frames of a stream, one after the other; None as soon as one does not arrive.
  function ReceiveMany(data: bytes, max: nat, n: nat): (Option<seq<bytes>>, bytes)
  {
    if n == 0 then (Some([]), data)
    else
      var (first, rest) := Receive(data, max);
      if first.None? then (None, rest)
      else
        var (more, unread) := ReceiveMany(rest, max, n - 1);
        (if more.None? then None else Some([first.value] + more.value), unread)
  }

  lemma FirstOfMany(data: bytes, max: nat, n: nat, p: bytes, more: bytes, ps: seq<bytes>, unread: bytes)
    requires Receive(data, max) == (Some(p), more) && ReceiveMany(more, max, n) == (Some(ps), unread)
    ensures ReceiveMany(data, max, n + 1) == (Some([p] + ps), unread)
  {
    hide Receive;
  }

  lemma FramesUnfold(payloads: seq<bytes>, rest: bytes)
    requires payloads != [] && Sendable(payloads)
    ensures payloads[0] in payloads && (forall p | p in payloads[1..] :: p in payloads)
    ensures |payloads[0]| < MAX_FRAME && Sendable(payloads[1..])
    ensures Frames(payloads) + rest == Frame(payloads[0]) + (Frames(payloads[1..]) + rest)
  {
    hide Frame;
  }

  lemma NoFrames(rest: bytes, max: nat)
    ensures ReceiveMany(Frames([]) + rest, max, 0) == (Some([]), rest)
  {
    assert Frames([]) + rest == rest;
  }

  // Any number of messages sent back to back stay apart.
  lemma {:induction false} FramesStayApart(payloads: seq<bytes>, rest: bytes, max: nat)
    requires Sendable(payloads) && forall p | p in payloads :: |p| <= max
    ensures ReceiveMany(Frames(payloads) + rest, max, |payloads|) == (Some(payloads), rest)
  {
    hide Receive;
    hide Frame;
    hide Frames;
    hide ReceiveMany;
    if payloads == [] {
      NoFrames(rest, max);
    } else {
      FramesUnfold(payloads, rest);
      var p, more := payloads[0], Frames(payloads[1..]) + rest;
      FramingRoundTrip(p, more, max);
      FramesStayApart(payloads[1..], rest, max);
      FirstOfMany(Frame(p) + more, max, |payloads| - 1, p, more, payloads[1..], rest);
      assert payloads == [p] + payloads[1..];
    }
  }

  // A connection that breaks before the end of a frame never yields a shorter message.
  lemma BrokenFrameIsNoFrame(payload: bytes, k: nat, max: nat)
    requires |payload| < MAX_FRAME && k < |Frame(payload)|
    ensures Receive(Frame(payload)[..k], max).0 == None
  {
    var data := Frame(payload)[..k];
    if k >= 4 {
      assert data[..4] == Header(|payload|);
      HeaderRoundTrip(|payload|);
    }
  }
}
