/**
 The cancellation-safe chunk reader of a session.

 A poll may be dropped at any read; every byte already taken off the transport stays in the reader, so the next poll
 resumes where the last one stopped. `Meaning` is the frame the reader and the unread bytes add up to, and it is what
 the sequential reader would have answered.
 */
module MessageReader {
  import opened Wrappers
  import opened BigEndian
  import opened Chunk
  import Budget
  import opened SharedBudget
  import PackStreamResults

  /** A read that may return any number of bytes, end of stream, an I/O error or deadline, or never: the future is dropped. */
  datatype ReadOutcome = Data(bytes: seq<byte>) | End | Failed | Dropped

  /** One read of at most `cap` bytes; nothing is consumed unless it is returned. */
  method ReadSome(t: Transport, cap: nat) returns (r: ReadOutcome)
    requires cap > 0
    modifies t
    ensures r.Data? ==> 0 < |r.bytes| <= cap && r.bytes + t.input == old(t.input)
    ensures r.End? ==> old(t.input) == []
    ensures !r.Data? ==> t.input == old(t.input)
  {
    var what: nat := *;
    if what == 0 {
      return Dropped;
    } else if what == 1 {
      return Failed;
    } else if |t.input| == 0 {
      return End;
    }
    var limit := if cap <= |t.input| then cap else |t.input|;
    var n: nat :| 1 <= n <= limit;
    r := Data(t.input[..n]);
    t.input := t.input[n..];
  }

  /** How one poll of the reader ends. */
  datatype Poll =
    | Ready(body: seq<byte>, lease: nat)
    | TooLong(len: nat)
    | OverBudget(error: Budget.BudgetError)
    | AtEnd
    | IoFailed
    | Pending

  class StatefulMessageReader {
    ghost const me: nat            // which session of the shared budget this is
    var header: seq<byte>          // the bytes of the next chunk header read so far
    var pending: Option<nat>       // a chunk length whose body has not been admitted yet
    var chunkLen: nat              // the size of the chunk being read, 0 when there is none
    var chunk: seq<byte>           // the part of it that has arrived
    var message: seq<byte>         // the chunks before it
    var complete: bool             // the terminator has been read
    var lease: nat                 // budget units held for this frame
    var oversized: nat             // body bytes left unread behind a rejected chunk header

    ghost predicate Valid()
      reads this
    {
      && |header| < 2
      && chunkLen <= MAX_CHUNK_BODY
      && (if chunkLen == 0 then chunk == [] else |chunk| < chunkLen)
      && (pending.Some? ==> pending.value <= MAX_CHUNK_BODY && header == [] && chunkLen == 0)
      && (chunkLen > 0 ==> header == [])
      && (complete ==> header == [] && pending.None? && chunkLen == 0)
      && (oversized > 0 ==> !complete && header == [] && pending.None? && chunkLen == 0)
      && (lease > 0 ==> |message| + chunkLen > Budget.CONTROL_FRAME_MAX_BYTES)
    }

    /** The shared budget knows what this reader holds. */
    ghost predicate Linked(budget: MessageMemoryBudget?)
      reads this, budget
    {
      budget != null ==> budget.Valid() && budget.Holds(me, lease) && |message| + chunkLen <= budget.maxLen
    }

    ghost predicate Idle()
      reads this
    {
      header == [] && pending.None? && chunkLen == 0 && message == [] && !complete && lease == 0 && oversized == 0
    }

    constructor (ghost me: nat)
      ensures Valid() && Idle() && this.me == me
    {
      this.me := me;
      header, pending, chunkLen, chunk, message, complete, lease, oversized := [], None, 0, [], [], false, 0, 0;
    }

    /** The frame that what has been read and what is still unread amount to. */
    ghost function Meaning(input: seq<byte>, limit: nat): Frame
      reads this
    {
      if complete then Whole(message, input)
      else if chunkLen > 0 then FromChunk(message, chunkLen, chunk + input, limit)
      else if pending.Some? then FromLength(message, pending.value, input, limit)
      else ReadFrame(message, header + input, limit)
    }

    /** Where the stream stands after the frame being read. */
    ghost function FrameEnd(input: seq<byte>): Option<seq<byte>>
      reads this
    {
      if complete then Some(input)
      else if oversized > 0 then AfterChunk(oversized, input)
      else if chunkLen > 0 then AfterChunk(chunkLen, chunk + input)
      else if pending.Some? then (if pending.value == 0 then Some(input) else AfterChunk(pending.value, input))
      else AfterFrame(header + input)
    }

    /** The units in this reader's hands and in the semaphore. */
    ghost function Units(budget: MessageMemoryBudget?): nat
      reads this, budget
    {
      lease + if budget == null then 0 else budget.available
    }

    /** Read the rest of a chunk header. */
    method ReadHeader(t: Transport) returns (stop: Option<Poll>)
      requires Valid() && !complete && oversized == 0 && pending.None? && chunkLen == 0
      modifies this, t
      ensures Valid() && !complete && oversized == 0 && chunkLen == 0
      ensures message == old(message) && lease == old(lease)
      ensures forall limit :: Meaning(t.input, limit) == old(Meaning(t.input, limit))
      ensures FrameEnd(t.input) == old(FrameEnd(t.input))
      ensures stop.None? ==> pending.Some? && |t.input| < |old(t.input)|
      ensures stop.Some? ==> stop.value in {AtEnd, IoFailed, Pending}
      ensures stop == Some(AtEnd) ==> t.input == [] && pending.None?
    {
      ghost var stream := header + t.input;
      while |header| < 2
        invariant |header| <= 2 && header + t.input == stream
        invariant !complete && oversized == 0 && pending.None? && chunkLen == 0 && chunk == []
        invariant message == old(message) && lease == old(lease)
        invariant |t.input| <= |old(t.input)| && (|header| == 2 ==> |t.input| < |old(t.input)|)
        decreases 2 - |header|
      {
        var read := ReadSome(t, 2 - |header|);
        match read
        case Dropped => return Some(Pending);
        case Failed => return Some(IoFailed);
        case End => return Some(AtEnd);
        case Data(bytes) => header := header + bytes;
      }
      assert stream[..2] == header && stream[2..] == t.input;
      HeaderRead(stream, header, t.input);
      pending := Some(Get16(header));
      header := [];
      assert forall limit :: ReadFrame(message, stream, limit) == FromLength(message, Get16(stream), t.input, limit);
      stop := None;
    }

    /** Read the rest of the chunk and append it to the message. */
    method FillChunk(t: Transport) returns (stop: Option<Poll>)
      requires Valid() && chunkLen > 0 && !complete && oversized == 0
      modifies this, t
      ensures Valid() && !complete && oversized == 0
      ensures lease == old(lease) && |message| + chunkLen == old(|message| + chunkLen)
      ensures forall limit :: Meaning(t.input, limit) == old(Meaning(t.input, limit))
      ensures FrameEnd(t.input) == old(FrameEnd(t.input))
      ensures stop.None? ==> |t.input| < |old(t.input)| && chunkLen == 0 && pending.None?
      ensures stop.Some? ==> stop.value in {AtEnd, IoFailed, Pending}
      ensures stop == Some(AtEnd) ==> t.input == [] && chunkLen > 0
    {
      ghost var stream := chunk + t.input;
      while |chunk| < chunkLen
        invariant |chunk| <= chunkLen == old(chunkLen) && chunk + t.input == stream
        invariant !complete && oversized == 0 && pending.None? && header == []
        invariant message == old(message) && lease == old(lease)
        invariant |t.input| <= |old(t.input)| && (|chunk| == chunkLen ==> |t.input| < |old(t.input)|)
        decreases chunkLen - |chunk|
      {
        var read := ReadSome(t, chunkLen - |chunk|);
        match read
        case Dropped => return Some(Pending);
        case Failed => return Some(IoFailed);
        case End => return Some(AtEnd);
        case Data(bytes) => chunk := chunk + bytes;
      }
      assert stream[..chunkLen] == chunk && stream[chunkLen..] == t.input;
      message := message + chunk;
      chunk, chunkLen := [], 0;
      assert [] + t.input == t.input;
      stop := None;
    }

    /** Act on a chunk length: end of message, rejection, or a chunk to read. */
    method AdmitChunk(limit: nat, budget: MessageMemoryBudget?) returns (stop: Option<Poll>)
      requires Valid() && !complete && oversized == 0 && pending.Some?
      requires Linked(budget) && (budget != null ==> limit <= budget.maxLen)
      modifies this, budget
      ensures Valid() && Linked(budget) && pending.None? && message == old(message)
      ensures budget != null ==>
                var wire := old(|message| + pending.value);
                budget.system == if old(pending) == Some(0) || wire > limit || wire <= Budget.CONTROL_FRAME_MAX_BYTES
                                 then old(budget.system) else Act(old(budget.system), GrowFrame(me, wire))
      ensures Units(budget) == old(Units(budget))
      ensures forall input :: FrameEnd(input) == old(FrameEnd(input))
      ensures stop.None? ==> oversized == 0 && (complete || chunkLen > 0)
      ensures stop.None? ==> forall input :: Meaning(input, limit) == old(Meaning(input, limit))
      ensures stop.Some? ==> oversized > 0 && chunkLen == 0
      ensures stop.Some? ==> stop.value.TooLong? || (stop.value.OverBudget? && budget != null)
      ensures stop.Some? && stop.value.TooLong? ==> forall input :: old(Meaning(input, limit)) == Chunk.OverLimit(stop.value.len, input)
    {
      hide Act, Framed, Run, Budget.Upgrade;
      var len := pending.value;
      if len == 0 {
        pending, complete := None, true;
        return None;
      }
      var nextLen := |message| + len;
      if nextLen > limit {
        pending, oversized := None, len;
        return Some(TooLong(nextLen));
      }
      if nextLen > Budget.CONTROL_FRAME_MAX_BYTES && budget != null {
        var lease', outcome := budget.Ensure(me, lease, nextLen, false);
        lease := lease';
        if outcome.Err? {
          pending, oversized := None, len;
          return Some(OverBudget(outcome.error));
        }
      }
      pending, chunkLen, chunk := None, len, [];
      assert forall input: seq<byte> :: [] + input == input;
      stop := None;
    }

    /** Hand on a complete message, upgrading its lease unless it is a small pressure-relief frame. */
    method TakeMessage(budget: MessageMemoryBudget?) returns (r: Poll)
      requires Valid() && complete && oversized == 0 && Linked(budget)
      modifies this, budget
      ensures Valid() && Linked(budget)
      ensures budget != null ==>
                budget.system == if NeedsLease(old(message)) then Act(old(budget.system), Deliver(me, |old(message)|))
                                 else old(budget.system)
      ensures budget != null ==>
                budget.system.messages == old(budget.system.messages)
                + if r.Ready? && NeedsLease(r.body) then [Message(|r.body|, r.lease)] else []
      ensures r.Ready? ==> Idle() && r.body == old(message) && r.lease + Units(budget) == old(Units(budget))
      ensures r.Ready? && budget != null && NeedsLease(r.body) ==>
                Budget.Needed(budget.capacity, |r.body|, true).Some?
                && r.lease >= Budget.Needed(budget.capacity, |r.body|, true).value
      ensures !r.Ready? ==> r.OverBudget? && budget != null && complete && message == old(message) && oversized == 0
      ensures !r.Ready? ==> Units(budget) == old(Units(budget))
    {
      hide Act, Framed, Run;
      if NeedsLease(message) && budget != null {
        var lease', outcome := budget.Ensure(me, lease, |message|, true);
        lease := lease';
        if outcome.Err? {
          return OverBudget(outcome.error);
        }
      }
      complete := false;
      r := Ready(message, lease);
      message, lease := [], 0;
    }

    /** Read the next chunk header and act on it. */
    method NextChunk(t: Transport, limit: nat, budget: MessageMemoryBudget?) returns (stop: Option<Poll>)
      requires Valid() && oversized == 0 && !complete && chunkLen == 0
      requires Linked(budget) && (budget != null ==> limit <= budget.maxLen)
      modifies this, t, budget
      ensures Valid() && Linked(budget) && (stop.None? ==> |t.input| <= |old(t.input)|)
      ensures Units(budget) == old(Units(budget)) && FrameEnd(t.input) == old(FrameEnd(t.input))
      ensures budget != null ==>
                OnlyMine(old(budget.system), budget.system, me) && budget.system.messages == old(budget.system.messages)
      ensures stop.None? ==>
                oversized == 0 && (complete || chunkLen > 0) && Meaning(t.input, limit) == old(Meaning(t.input, limit))
      ensures stop.Some? ==>
                match stop.value
                case Ready(_, _) => false
                case TooLong(len) => old(Meaning(t.input, limit)) == Chunk.OverLimit(len, t.input) && oversized > 0
                case OverBudget(_) => budget != null && oversized > 0
                case AtEnd => old(Meaning(t.input, limit)) == Cut && oversized == 0
                case IoFailed => Meaning(t.input, limit) == old(Meaning(t.input, limit)) && oversized == 0
                case Pending => Meaning(t.input, limit) == old(Meaning(t.input, limit)) && oversized == 0
    {
      hide ReadFrame, FromLength, FromChunk, AfterFrame, AfterChunk, NeedsLease, Act, Framed, Run;
      if pending.None? {
        stop := ReadHeader(t);
        if stop.Some? {
          EndIsCut(header, 0, [], message, limit);
          return;
        }
      }
      if budget != null {
        ActIsMine(budget.system, GrowFrame(me, |message| + pending.value), me);
      }
      stop := AdmitChunk(limit, budget);
    }

    /** Poll the reader once. */
    method ReadMessage(t: Transport, limit: nat, budget: MessageMemoryBudget?) returns (r: Poll)
      requires Valid() && oversized == 0
      requires Linked(budget) && (budget != null ==> limit <= budget.maxLen)
      modifies this, t, budget
      ensures Valid() && Linked(budget)
      ensures budget != null ==> OnlyMine(old(budget.system), budget.system, me)
      ensures budget != null ==>
                budget.system.messages == old(budget.system.messages)
                + if r.Ready? && NeedsLease(r.body) then [Message(|r.body|, r.lease)] else []
      ensures r.Ready? ==> Idle() && r.lease + Units(budget) == old(Units(budget))
      ensures !r.Ready? ==> Units(budget) == old(Units(budget)) && FrameEnd(t.input) == old(FrameEnd(t.input))
      ensures match r
              case Ready(body, _) => old(Meaning(t.input, limit)) == Whole(body, t.input)
                                     && old(FrameEnd(t.input)) == Some(t.input)
              case TooLong(len) => old(Meaning(t.input, limit)) == Chunk.OverLimit(len, t.input) && oversized > 0
              case OverBudget(_) => budget != null && (complete || oversized > 0)
              case AtEnd => old(Meaning(t.input, limit)) == Cut && oversized == 0
              case IoFailed => Meaning(t.input, limit) == old(Meaning(t.input, limit)) && oversized == 0
              case Pending => Meaning(t.input, limit) == old(Meaning(t.input, limit)) && oversized == 0
      ensures r.Ready? && budget != null && NeedsLease(r.body) ==>
                Budget.Needed(budget.capacity, |r.body|, true).Some?
                && r.lease >= Budget.Needed(budget.capacity, |r.body|, true).value
    {
      hide ReadFrame, FromLength, FromChunk, AfterFrame, AfterChunk, NeedsLease, Budget.Needed, Act, Framed, Run;
      while true
        invariant Valid() && oversized == 0 && Linked(budget)
        invariant budget != null ==>
                    OnlyMine(old(budget.system), budget.system, me) && budget.system.messages == old(budget.system.messages)
        invariant Units(budget) == old(Units(budget))
        invariant FrameEnd(t.input) == old(FrameEnd(t.input))
        invariant Meaning(t.input, limit) == old(Meaning(t.input, limit))
        decreases |t.input|, if complete then 0 else 1
      {
        if complete {
          if budget != null {
            ActIsMine(budget.system, Deliver(me, |message|), me);
          }
          r := TakeMessage(budget);
          return;
        }
        if chunkLen == 0 {
          var stop := NextChunk(t, limit, budget);
          if stop.Some? {
            return stop.value;
          }
        }
        if !complete {
          var stop := FillChunk(t);
          if stop.Some? {
            EndIsCut([], chunkLen, chunk, message, limit);
            return stop.value;
          }
        }
      }
    }

    /** Give back every buffer and permit; the framing cursor stays. */
    method ReleaseBuffered(budget: MessageMemoryBudget?)
      requires Valid() && Linked(budget)
      modifies this, budget
      ensures Linked(budget)
      ensures budget != null ==> budget.system == Act(old(budget.system), DropFrame(me))
      ensures header == old(header) && pending == old(pending) && complete == old(complete) && oversized == old(oversized)
      ensures message == [] && chunkLen == 0 && chunk == [] && lease == 0
      ensures budget != null ==> budget.available == old(budget.available + lease)
    {
      if budget != null {
        budget.Release(me, lease);
      }
      message, chunkLen, chunk, lease := [], 0, [], 0;
    }

    /** After a rejection: release everything, then skip the rest of the frame with a fixed scratch buffer. */
    method DiscardOversized(t: Transport, budget: MessageMemoryBudget?) returns (ok: bool)
      requires Valid() && (complete || oversized > 0) && Linked(budget)
      modifies this, t, budget
      ensures Linked(budget)
      ensures budget != null ==> budget.system == Act(old(budget.system), DropFrame(me))
      ensures ok <==> old(FrameEnd(t.input)).Some?
      ensures ok ==> Valid() && Idle() && old(FrameEnd(t.input)) == Some(t.input)
      ensures lease == 0 && (budget != null ==> budget.available == old(budget.available + lease))
    {
      hide Act, Framed, Run;
      var alreadyComplete := complete;
      complete := false;
      ReleaseBuffered(budget);
      header, pending := [], None;
      if alreadyComplete {
        oversized := 0;
        return true;
      }
      var remaining: nat := oversized;
      oversized := 0;
      while true
        invariant lease == 0 && (budget != null ==> budget.available == old(budget.available + lease))
        invariant Valid() && Idle() && Linked(budget)
        invariant budget != null ==> budget.system == Act(old(budget.system), DropFrame(me))
        invariant AfterChunk(remaining, t.input) == old(FrameEnd(t.input))
        decreases |t.input|
      {
        var skipped := SkipBytes(t, remaining);
        if !skipped {
          return false;
        }
        ghost var stream := t.input;
        var h := t.ReadExact(2);
        if h.None? {
          return false;
        }
        HeaderRead(stream, h.value, t.input);
        remaining := Get16(h.value);
        if remaining == 0 {
          return true;
        }
      }
    }
  }

  /** Read and drop bytes, at most 8 KiB at a time. */
  method SkipBytes(t: Transport, count: nat) returns (ok: bool)
    modifies t
    ensures ok <==> |old(t.input)| >= count
    ensures ok ==> t.input == old(t.input)[count..]
  {
    var remaining: nat := count;
    ghost var stream := t.input;
    while remaining > 0
      invariant remaining <= count
      invariant |t.input| == |stream| - (count - remaining)
      invariant t.input == stream[count - remaining..]
    {
      var take := if remaining <= 8 * 1024 then remaining else 8 * 1024;
      var chunk := t.ReadExact(take);
      if chunk.None? {
        return false;
      }
      remaining := remaining - take;
    }
    ok := true;
  }

  // ---- refinement of the sequential reader ----

  /** The first n bodies that n calls of the sequential reader return, and the stream they leave; None if one fails. */
  function Sequential(stream: seq<byte>, limit: nat, n: nat): Option<(seq<seq<byte>>, seq<byte>)>
    decreases n
  {
    if n == 0 then Some(([], stream)) else
      match Sequential(stream, limit, n - 1)
      case None => None
      case Some((bodies, rest)) =>
        match ReadFrame([], rest, limit)
        case Whole(body, after) => Some((bodies + [body], after))
        case _ => None
  }

  /**
   Any number of polls, each split, interrupted or dropped anywhere: the bodies delivered are exactly those of the
   sequential reader, and so is a rejection or an end of stream; when the polls run out, what the reader has kept and
   what is unread still mean the sequential reader's next frame.
   */
  method PollMany(reader: StatefulMessageReader, t: Transport, limit: nat, polls: nat)
    returns (bodies: seq<seq<byte>>, last: Poll, ghost rest: seq<byte>)
    requires reader.Valid() && reader.Idle()
    modifies reader, t
    ensures reader.Valid()
    ensures Sequential(old(t.input), limit, |bodies|) == Some((bodies, rest))
    ensures match last
            case TooLong(len) => ReadFrame([], rest, limit) == Chunk.OverLimit(len, t.input)
            case AtEnd => ReadFrame([], rest, limit) == Cut
            case Pending => ReadFrame([], rest, limit) == reader.Meaning(t.input, limit)
            case IoFailed => ReadFrame([], rest, limit) == reader.Meaning(t.input, limit)
            case Ready(_, _) => reader.Idle() && rest == t.input
            case OverBudget(_) => false
  {
    hide ReadFrame, FromLength, FromChunk, AfterFrame, AfterChunk;
    bodies, last, rest := [], Pending, t.input;
    assert [] + t.input == t.input;
    for i := 0 to polls
      invariant reader.Valid() && reader.oversized == 0
      invariant Sequential(old(t.input), limit, |bodies|) == Some((bodies, rest))
      invariant ReadFrame([], rest, limit) == reader.Meaning(t.input, limit)
      invariant last.Pending? || (last.Ready? && reader.Idle() && rest == t.input)
    {
      last := reader.ReadMessage(t, limit, null);
      match last
      case Ready(body, _) =>
        bodies, rest := bodies + [body], t.input;
        assert bodies[..|bodies| - 1] + [body] == bodies;
        assert [] + t.input == t.input;
      case Pending =>
      case _ => return;
    }
  }

  /** Between the two, session `me` has acted and the others have not. */
  ghost predicate OnlyMine(s: System, s': System, me: nat) {
    |s'.framers| == |s.framers| && forall j | 0 <= j < |s.framers| && j != me :: s'.framers[j] == s.framers[j]
  }

  lemma ActIsMine(s: System, a: Action, me: nat)
    requires a.GrowFrame? || a.Deliver? || a.DropFrame? ==> a.session == me
    ensures OnlyMine(s, Act(s, a), me)
    ensures a.GrowFrame? || a.DropFrame? ==> Act(s, a).messages == s.messages
  {
    hide Budget.Upgrade;
  }

  /** A frame that may not leave the framer without a decode lease. */
  predicate NeedsLease(body: seq<byte>) {
    !(|body| <= Budget.CONTROL_FRAME_MAX_BYTES && PackStreamResults.IsPressureRelief(body))
  }

  /** Nothing left to read in the middle of a header or of a chunk. */
  lemma EndIsCut(header: seq<byte>, chunkLen: nat, chunk: seq<byte>, message: seq<byte>, limit: nat)
    requires |header| < 2 && (chunkLen > 0 ==> |chunk| < chunkLen)
    ensures ReadFrame(message, header + [], limit) == Cut
    ensures chunkLen > 0 ==> FromChunk(message, chunkLen, chunk + [], limit) == Cut
  {
  }

  lemma HeaderRead(stream: seq<byte>, header: seq<byte>, rest: seq<byte>)
    requires |header| == 2 && stream == header + rest
    ensures Get16(stream) == Get16(header) && stream[2..] == rest
    ensures AfterFrame(stream) == if Get16(header) == 0 then Some(rest) else AfterChunk(Get16(header), rest)
  {
  }
}
