/** Bolt chunked framing: 2-byte big-endian lengths, a zero length ends the message. */
module Chunk {
  import opened Wrappers
  import opened BigEndian

  const MAX_CHUNK_BODY: nat := 0xFFFF

  /** How a frame at the head of a stream reads: whole, over the limit at some chunk header, or cut off by the end. */
  datatype Frame =
    | Whole(body: seq<byte>, rest: seq<byte>)
    | OverLimit(len: nat, rest: seq<byte>)
    | Cut

  /** Read a frame from a chunk boundary, `body` being what earlier chunks carried. */
  function ReadFrame(body: seq<byte>, stream: seq<byte>, limit: nat): Frame
    decreases |stream|, 1
  {
    if |stream| < 2 then Cut else FromLength(body, Get16(stream), stream[2..], limit)
  }

  function FromLength(body: seq<byte>, len: nat, stream: seq<byte>, limit: nat): Frame
    decreases |stream|, 3
  {
    if len == 0 then Whole(body, stream)
    else if |body| + len > limit then OverLimit(|body| + len, stream)
    else FromChunk(body, len, stream, limit)
  }

  function FromChunk(body: seq<byte>, len: nat, stream: seq<byte>, limit: nat): Frame
    decreases |stream|, 2
  {
    if |stream| < len then Cut else ReadFrame(body + stream[..len], stream[len..], limit)
  }

  /** One chunk of a frame. */
  lemma FrameStep(body: seq<byte>, stream: seq<byte>, limit: nat)
    requires |stream| >= 2
    ensures var len := Get16(stream);
            ReadFrame(body, stream, limit)
            == if len == 0 then Whole(body, stream[2..])
               else if |body| + len > limit then OverLimit(|body| + len, stream[2..])
               else if |stream| < 2 + len then Cut
               else ReadFrame(body + stream[2..2 + len], stream[2 + len..], limit)
  {
    var len := Get16(stream);
    assert ReadFrame(body, stream, limit) == FromLength(body, len, stream[2..], limit);
    if 0 < len && |body| + len <= limit && 2 + len <= |stream| {
      assert ReadFrame(body, stream, limit) == FromChunk(body, len, stream[2..], limit);
      assert stream[2..][..len] == stream[2..2 + len] && stream[2..][len..] == stream[2 + len..];
    }
  }

  /** Where the stream stands after the frame, if the frame ends. */
  function AfterFrame(stream: seq<byte>): Option<seq<byte>>
    decreases |stream|
  {
    if |stream| < 2 then None else
      var len := Get16(stream);
      if len == 0 then Some(stream[2..]) else if |stream| < 2 + len then None else AfterFrame(stream[2 + len..])
  }

  /** Skip the rest of a chunk, then the rest of the frame. */
  function AfterChunk(len: nat, stream: seq<byte>): Option<seq<byte>> {
    if |stream| < len then None else AfterFrame(stream[len..])
  }

  // ---- the sequential reader ----

  /** All the bytes the peer will ever send, less those already read. */
  class Transport {
    var input: seq<byte>

    constructor (bytes: seq<byte>)
      ensures input == bytes
    {
      input := bytes;
    }

    method ReadExact(n: nat) returns (r: Option<seq<byte>>)
      modifies this
      ensures |old(input)| >= n ==> r == Some(old(input)[..n]) && input == old(input)[n..]
      ensures |old(input)| < n ==> r.None?
    {
      if |input| < n {
        input := [];
        return None;
      }
      r := Some(input[..n]);
      input := input[n..];
    }
  }

  datatype ReadError = UnexpectedEof | TooLarge(len: nat, max: nat)

  /** Read one message in a single uninterrupted future. */
  method ReadMessage(t: Transport, limit: nat) returns (r: Result<seq<byte>, ReadError>)
    modifies t
    ensures match ReadFrame([], old(t.input), limit)
            case Whole(body, rest) => r == Ok(body) && t.input == rest
            case OverLimit(len, rest) => r == Err(TooLarge(len, limit)) && t.input == rest
            case Cut => r == Err(UnexpectedEof)
  {
    var body: seq<byte> := [];
    while true
      invariant ReadFrame(body, t.input, limit) == ReadFrame([], old(t.input), limit)
      decreases |t.input|
    {
      ghost var stream := t.input;
      if |stream| >= 2 {
        FrameStep(body, stream, limit);
      }
      var header := t.ReadExact(2);
      if header.None? {
        return Err(UnexpectedEof);
      }
      var len := Get16(header.value);
      if len == 0 {
        return Ok(body);
      }
      if |body| + len > limit {
        return Err(TooLarge(|body| + len, limit));
      }
      var chunk := t.ReadExact(len);
      if chunk.None? {
        return Err(UnexpectedEof);
      }
      assert chunk.value == stream[2..2 + len] && t.input == stream[2 + len..];
      body := body + chunk.value;
    }
  }

  // ---- the writer ----

  function Clamp(size: nat): (n: nat)
    ensures 1 <= n <= MAX_CHUNK_BODY
    ensures 1 <= size <= 0xFFFF ==> n == size
    ensures size > 0xFFFF ==> n == 0xFFFF
  {
    if size < 1 then 1 else if size > MAX_CHUNK_BODY then MAX_CHUNK_BODY else size
  }

  function Chunked(body: seq<byte>, size: nat): seq<byte>
    requires 1 <= size <= MAX_CHUNK_BODY
    decreases |body|
  {
    if body == [] then [0, 0] else
      var n := if |body| <= size then |body| else size;
      U16(n) + body[..n] + Chunked(body[n..], size)
  }

  method WriteMessageChunked(body: seq<byte>, chunkSize: nat) returns (out: seq<byte>)
    ensures out == Chunked(body, Clamp(chunkSize))
  {
    var size := Clamp(chunkSize);
    out := [];
    var offset := 0;
    while offset < |body|
      invariant 0 <= offset <= |body|
      invariant out + Chunked(body[offset..], size) == Chunked(body, size)
    {
      var end := if offset + size <= |body| then offset + size else |body|;
      ChunkedStep(out, body, offset, end, size);
      out := out + (U16(end - offset) + body[offset..end]);
      offset := end;
    }
    assert body[offset..] == [];
    out := out + [0, 0];
  }

  lemma ChunkedStep(out: seq<byte>, body: seq<byte>, offset: nat, end: nat, size: nat)
    requires 1 <= size <= MAX_CHUNK_BODY && offset < |body|
    requires end == if offset + size <= |body| then offset + size else |body|
    ensures out + Chunked(body[offset..], size) == (out + (U16(end - offset) + body[offset..end])) + Chunked(body[end..], size)
  {
    var rest := body[offset..];
    assert rest[..end - offset] == body[offset..end] && rest[end - offset..] == body[end..];
    assert Chunked(rest, size) == (U16(end - offset) + body[offset..end]) + Chunked(body[end..], size);
  }

  lemma ChunkHead(n: nat, piece: seq<byte>, tail: seq<byte>)
    requires n == |piece| && n <= 0xFFFF
    ensures var stream := U16(n) + piece + tail;
            |stream| >= 2 + n && Get16(stream) == n && stream[2..] == piece + tail && stream[2 + n..] == tail
  {
  }

  /** The first chunk of a written body, as a stream. */
  lemma ChunkedHead(body: seq<byte>, size: nat, tail: seq<byte>) returns (n: nat)
    requires 1 <= size <= MAX_CHUNK_BODY
    ensures var stream := Chunked(body, size) + tail;
            && n <= |body| && |stream| >= 2 + n && Get16(stream) == n && (n == 0 <==> body == [])
            && stream[2..2 + n] == body[..n]
            && stream[2 + n..] == if n == 0 then tail else Chunked(body[n..], size) + tail
  {
    n := if |body| <= size then |body| else size;
    if n > 0 {
      var rest := Chunked(body[n..], size) + tail;
      var stream := Chunked(body, size) + tail;
      assert stream == U16(n) + body[..n] + rest;
      ChunkHead(n, body[..n], rest);
      assert stream[2..2 + n] == stream[2..][..n];
    }
  }

  /**
   Whatever the chunk size, a written body reads back whole and leaves the stream at the next frame, unless it exceeds
   the limit, in which case it is rejected.
   */
  lemma {:induction false} WrittenReadsBack(acc: seq<byte>, body: seq<byte>, size: nat, tail: seq<byte>, limit: nat)
    requires 1 <= size <= MAX_CHUNK_BODY && |acc| <= limit
    ensures var frame := ReadFrame(acc, Chunked(body, size) + tail, limit);
            if |acc| + |body| <= limit then frame == Whole(acc + body, tail) else frame.OverLimit?
    decreases |body|
  {
    hide ReadFrame, Get16, Chunked;
    var n := ChunkedHead(body, size, tail);
    FrameStep(acc, Chunked(body, size) + tail, limit);
    if n == 0 {
      assert acc + body == acc;
    } else if |acc| + n <= limit {
      WrittenReadsBack(acc + body[..n], body[n..], size, tail, limit);
      assert (acc + body[..n]) + body[n..] == acc + body;
    }
  }

  /** Skipping a written frame, whatever its size, leads to the next one. */
  lemma {:induction false} WrittenSkips(body: seq<byte>, size: nat, tail: seq<byte>)
    requires 1 <= size <= MAX_CHUNK_BODY
    ensures AfterFrame(Chunked(body, size) + tail) == Some(tail)
    decreases |body|
  {
    hide Get16, Chunked;
    var n := ChunkedHead(body, size, tail);
    if n > 0 {
      WrittenSkips(body[n..], size, tail);
    }
  }

  // ---- chunks on the wire ----

  function Joined(pieces: seq<seq<byte>>): seq<byte> {
    if pieces == [] then [] else pieces[0] + Joined(pieces[1..])
  }

  /** Pieces of 1 to 65535 bytes, each behind its length in two bytes, the high one first, and a zero length at the end. */
  function OnWire(pieces: seq<seq<byte>>): seq<byte>
    requires AreChunks(pieces)
  {
    if pieces == [] then [0, 0]
    else [|pieces[0]| / 0x100, |pieces[0]| % 0x100] + pieces[0] + OnWire(pieces[1..])
  }

  predicate AreChunks(pieces: seq<seq<byte>>) {
    forall i | 0 <= i < |pieces| :: 1 <= |pieces[i]| <= 0xFFFF
  }

  lemma FirstChunk(piece: seq<byte>, more: seq<byte>, tail: seq<byte>)
    requires |piece| <= 0xFFFF
    ensures var (n, stream) := (|piece|, (U16(|piece|) + piece + more) + tail);
            |stream| >= 2 + n && Get16(stream) == n && stream[2..2 + n] == piece && stream[2 + n..] == more + tail
  {
    hide Get16, U16;
    var n, stream := |piece|, (U16(|piece|) + piece + more) + tail;
    assert stream == U16(n) + piece + (more + tail);
    ChunkHead(n, piece, more + tail);
    assert stream[2..2 + n] == stream[2..][..n];
  }

  lemma OnWireStep(pieces: seq<seq<byte>>, tail: seq<byte>)
    requires AreChunks(pieces) && pieces != []
    ensures var (n, stream) := (|pieces[0]|, OnWire(pieces) + tail);
            && |stream| >= 2 + n && Get16(stream) == n
            && stream[2..2 + n] == pieces[0] && stream[2 + n..] == OnWire(pieces[1..]) + tail
  {
    hide Get16, U16, OnWire;
    OnWireHead(pieces);
    FirstChunk(pieces[0], OnWire(pieces[1..]), tail);
  }

  lemma OnWireHead(pieces: seq<seq<byte>>)
    requires AreChunks(pieces) && pieces != []
    ensures OnWire(pieces) == U16(|pieces[0]|) + pieces[0] + OnWire(pieces[1..])
  {
  }

  /** Any chunks, however cut, read as the bytes they carry, unless these exceed the limit. */
  lemma {:induction false} ChunksAreRead(acc: seq<byte>, pieces: seq<seq<byte>>, tail: seq<byte>, limit: nat)
    requires AreChunks(pieces) && |acc| <= limit
    ensures var frame := ReadFrame(acc, OnWire(pieces) + tail, limit);
            if |acc + Joined(pieces)| <= limit then frame == Whole(acc + Joined(pieces), tail) else frame.OverLimit?
    decreases |pieces|
  {
    if pieces == [] {
      FrameStep(acc, OnWire(pieces) + tail, limit);
      assert acc + Joined(pieces) == acc;
    } else {
      hide ReadFrame, Get16, OnWire;
      OnWireStep(pieces, tail);
      FrameStep(acc, OnWire(pieces) + tail, limit);
      if |acc| + |pieces[0]| <= limit {
        ChunksAreRead(acc + pieces[0], pieces[1..], tail, limit);
        assert (acc + pieces[0]) + Joined(pieces[1..]) == acc + Joined(pieces);
      }
    }
  }

  /** And whatever reads as a message is such chunks. */
  lemma {:induction false} WholeIsChunks(acc: seq<byte>, stream: seq<byte>, limit: nat) returns (pieces: seq<seq<byte>>)
    requires ReadFrame(acc, stream, limit).Whole?
    ensures AreChunks(pieces)
    ensures var frame := ReadFrame(acc, stream, limit);
            stream == OnWire(pieces) + frame.rest && frame.body == acc + Joined(pieces)
    decreases |stream|
  {
    hide ReadFrame, OnWire, Get16;
    Readable(acc, stream, limit);
    FrameStep(acc, stream, limit);
    var n := Get16(stream);
    if n == 0 {
      pieces := [];
      assert acc + Joined([]) == acc;
    } else {
      var piece := stream[2..2 + n];
      var more := WholeIsChunks(acc + piece, stream[2 + n..], limit);
      pieces := [piece] + more;
      assert pieces[1..] == more;
      assert (acc + piece) + Joined(more) == acc + Joined(pieces);
    }
    OnWireIs(stream, pieces, ReadFrame(acc, stream, limit).rest);
  }

  lemma Readable(acc: seq<byte>, stream: seq<byte>, limit: nat)
    requires ReadFrame(acc, stream, limit).Whole?
    ensures |stream| >= 2
  {
  }

  lemma LengthBytes(stream: seq<byte>)
    requires |stream| >= 2
    ensures stream[..2] == [Get16(stream) / 0x100, Get16(stream) % 0x100]
  {
  }

  lemma OnWireIs(stream: seq<byte>, pieces: seq<seq<byte>>, rest: seq<byte>)
    requires |stream| >= 2 && AreChunks(pieces)
    requires pieces == [] ==> Get16(stream) == 0 && stream[2..] == rest
    requires pieces != [] ==>
               var n := |pieces[0]|;
               Get16(stream) == n && |stream| >= 2 + n && stream[2..2 + n] == pieces[0]
               && stream[2 + n..] == OnWire(pieces[1..]) + rest
    ensures stream == OnWire(pieces) + rest
  {
    hide Get16;
    LengthBytes(stream);
    if pieces == [] {
      assert stream == [0, 0] + rest;
    } else {
      var n := |pieces[0]|;
      assert stream == stream[..2] + stream[2..2 + n] + stream[2 + n..];
      assert OnWire(pieces) + rest == [n / 0x100, n % 0x100] + pieces[0] + (OnWire(pieces[1..]) + rest);
    }
  }

  /** The writer cuts the body into chunks of the asked size; only the last may be shorter. */
  lemma {:induction false} WrittenIsChunks(body: seq<byte>, size: nat) returns (pieces: seq<seq<byte>>)
    requires 1 <= size <= MAX_CHUNK_BODY
    ensures AreChunks(pieces) && Chunked(body, size) == OnWire(pieces) && Joined(pieces) == body
    ensures forall i | 0 <= i < |pieces| :: |pieces[i]| <= size && (i < |pieces| - 1 ==> |pieces[i]| == size)
    ensures body == [] ==> pieces == []
    decreases |body|
  {
    if body == [] {
      pieces := [];
    } else {
      var n := if |body| <= size then |body| else size;
      var more := WrittenIsChunks(body[n..], size);
      pieces := [body[..n]] + more;
      assert pieces[1..] == more;
      assert body[..n] + body[n..] == body;
    }
  }
}
