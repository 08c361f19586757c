/**
 The per-connection state machine.

 What the client sends is a script; what the backend answers, whether a write reaches the socket and what is pipelined
 during a statement are left open, so every claim holds for all of them.
 */
module Session {
  import opened Wrappers
  import opened Streaming
  import opened Protocol

  const MAX_PREFETCHED_MESSAGES: nat := 16

  // ---- the backend ----

  /** `txOpen` is the explicit transaction that pins the writer. Rolling back closes it, whatever it answers. */
  class Backend {
    var txOpen: bool
    ghost var log: seq<Event>

    constructor ()
      ensures !txOpen && log == []
    {
      txOpen, log := false, [];
    }

    method BeginTx() returns (ok: bool)
      modifies this
      ensures txOpen == (ok || old(txOpen))
      ensures log == old(log) + [Began(ok)]
    {
      ok := *;
      txOpen := ok || txOpen;
      log := log + [Began(ok)];
    }

    /** A statement; one that fails inside a transaction may or may not have discarded it. */
    method Execute(insideTx: bool) returns (r: Option<RunOutcome>)
      modifies this
      ensures txOpen ==> old(txOpen)
      ensures !insideTx ==> txOpen == old(txOpen)
      ensures log == old(log) + [Ran(r)]
    {
      var ok: bool := *;
      var outcome: RunOutcome := *;
      if insideTx && !ok {
        var stays: bool := *;
        txOpen := txOpen && stays;
      }
      r := if ok then Some(outcome) else None;
      log := log + [Ran(r)];
    }

    /** A failed commit may leave the transaction open. */
    method CommitTx() returns (ok: bool)
      modifies this
      ensures txOpen ==> !ok && old(txOpen)
      ensures log == old(log) + [Committed(ok)]
    {
      ok := *;
      var stays: bool := *;
      txOpen := txOpen && !ok && stays;
      log := log + [Committed(ok)];
    }

    method RollbackTx() returns (ok: bool)
      modifies this
      ensures !txOpen && log == old(log) + [RolledBack(ok)]
    {
      ok := *;
      txOpen := false;
      log := log + [RolledBack(ok)];
    }

    method Authenticate() returns (ok: bool)
      modifies this`log
      ensures log == old(log) + [LoginChecked(ok)]
    {
      ok := *;
      log := log + [LoginChecked(ok)];
    }

    method LogOff()
      modifies this`log
      ensures log == old(log) + [LoggedOff]
    {
      log := log + [LoggedOff];
    }
  }

  function TotalLen(queue: seq<nat>): nat {
    if queue == [] then 0 else queue[0] + TotalLen(queue[1..])
  }

  lemma {:induction false} TotalLenConcat(a: seq<nat>, b: seq<nat>)
    ensures TotalLen(a + b) == TotalLen(a) + TotalLen(b)
  {
    if a == [] {
      assert a + b == b;
    } else {
      TotalLenConcat(a[1..], b);
      assert (a + b)[1..] == a[1..] + b;
    }
  }

  /** What reaches the reader while a statement runs. */
  datatype Arrival = Piped(len: nat) | TransportError

  function Lens(arrivals: seq<Arrival>): (lens: seq<nat>)
    ensures |lens| == |arrivals|
  {
    seq(|arrivals|, i requires 0 <= i < |arrivals| => if arrivals[i].Piped? then arrivals[i].len else 0)
  }

  /** All of it can be queued behind what is queued already. */
  ghost predicate Queueable(queue: seq<nat>, arrivals: seq<Arrival>, maxBytes: nat) {
    && (forall i | 0 <= i < |arrivals| :: arrivals[i].Piped?)
    && |queue| + |arrivals| <= 16
    && TotalLen(queue + Lens(arrivals)) <= maxBytes
  }

  lemma LensStep(queue: seq<nat>, arrivals: seq<Arrival>, i: nat)
    requires i < |arrivals| && arrivals[i].Piped?
    ensures queue + Lens(arrivals[..i + 1]) == (queue + Lens(arrivals[..i])) + [arrivals[i].len]
    ensures TotalLen(queue + Lens(arrivals[..i + 1])) == TotalLen(queue + Lens(arrivals[..i])) + arrivals[i].len
    ensures TotalLen(queue + Lens(arrivals[..i + 1])) <= TotalLen(queue + Lens(arrivals))
  {
    TotalLenConcat(queue + Lens(arrivals[..i]), [arrivals[i].len]);
    assert TotalLen([arrivals[i].len]) == arrivals[i].len;
    var rest := Lens(arrivals)[i + 1..];
    assert queue + Lens(arrivals) == (queue + Lens(arrivals[..i + 1])) + rest;
    TotalLenConcat(queue + Lens(arrivals[..i + 1]), rest);
  }

  class Session {
    const backend: Backend
    const v5: bool
    const postAuthMessageBytes: nat
    var state: State
    var authenticated: bool
    var rows: seq<Row>
    var fields: seq<string>
    var isLast: seq<bool>
    var counters: map<string, int>
    var retained: bool
    var prefetched: seq<nat>        // the lengths of the messages pipelined during a statement
    var prefetchedBytes: nat
    var sent: seq<Response>         // what reached the socket

    ghost predicate BuffersEmpty()
      reads this`rows, this`fields, this`isLast, this`counters, this`retained
    {
      rows == [] && fields == [] && isLast == [] && counters == map[] && !retained
    }

    /** An open transaction is one the state machine knows about. */
    ghost predicate TxKnown()
      reads this`state, backend`txOpen
    {
      backend.txOpen ==> InTransaction(state)
    }

    /** Working states are authenticated states, and the backend has only worked for authenticated clients. */
    ghost predicate AuthKnown()
      reads this`state, this`authenticated, backend`log
    {
      && (state in {Ready, State.Streaming, TxReady, TxStreaming} ==> authenticated)
      && (state in {Connected, Authentication} ==> !authenticated)
      && authenticated == LoggedIn(backend.log)
      && Gated(backend.log)
    }

    ghost predicate ColumnsMarked()
      reads this`fields, this`isLast
    {
      MarksLast(fields, isLast)
    }

    /** Result buffers belong to a stream; GOODBYE leaves them to the connection's end. */
    ghost predicate BuffersOwned()
      reads this`state, this`rows, this`fields, this`isLast, this`counters, this`retained
    {
      (!IsStreaming(state) && state != Defunct ==> BuffersEmpty()) && ColumnsMarked()
    }

    /** The pipeline queue is counted and bounded. */
    ghost predicate QueueCounted()
      reads this`prefetched, this`prefetchedBytes
    {
      prefetchedBytes == TotalLen(prefetched) <= postAuthMessageBytes && |prefetched| <= MAX_PREFETCHED_MESSAGES
    }

    ghost predicate Valid()
      reads this, backend
    {
      TxKnown() && AuthKnown() && BuffersOwned() && QueueCounted()
    }

    /** Between requests the session is in a transaction exactly when the backend's record has one open. */
    ghost predicate Settled()
      reads this, backend
    {
      Valid() && (InTransaction(state) <==> OpenTx(backend.log))
    }

    constructor (backend: Backend, v5: bool, postAuthMessageBytes: nat)
      requires !backend.txOpen && backend.log == []
      ensures Settled() && this.backend == backend && this.v5 == v5 && state == Connected && sent == []
    {
      this.backend, this.v5, this.postAuthMessageBytes := backend, v5, postAuthMessageBytes;
      state, authenticated := Connected, false;
      rows, fields, isLast, counters, retained := [], [], [], map[], false;
      prefetched, prefetchedBytes, sent := [], 0, [];
    }

    /** A write either reaches the socket or fails the connection. */
    method Write(r: Response) returns (ok: bool)
      modifies this`sent
      ensures sent == if ok then old(sent) + [r] else old(sent)
    {
      ok := *;
      if ok {
        sent := sent + [r];
      }
    }

    method ClearBuffers()
      modifies this`rows, this`fields, this`isLast, this`counters, this`retained
      ensures BuffersEmpty()
    {
      rows, fields, isLast, counters, retained := [], [], [], map[], false;
    }

    ghost function Held(): Buffers
      reads this`rows, this`fields, this`counters
    {
      Buffers(rows, fields, counters)
    }

    /** This request was answered as the protocol asks. */
    twostate predicate AnsweredTo(req: Request)
      reads this, backend
    {
      && old(backend.log) <= backend.log && old(sent) <= sent
      && Served(old(state), old(authenticated), v5, req, old(Held()), backend.log[|old(backend.log)|..],
                state, Held(), sent[|old(sent)|..])
    }

    /** Enter FAILED: release the buffers, roll back first if a transaction is open, then answer. */
    method FailRequest() returns (ok: bool)
      requires Valid()
      modifies this, backend
      ensures Valid() && !backend.txOpen && state == Failed && authenticated == old(authenticated)
      ensures Held() == NO_BUFFERS && (OpenTx(backend.log) ==> old(OpenTx(backend.log) && !InTransaction(state)))
      ensures sent == old(sent) + if ok then [Failure] else []
      ensures old(backend.log) <= backend.log
      ensures IsRollback(old(InTransaction(state)), backend.log[|old(backend.log)|..])
    {
      hide Gated, LoggedIn, OpenTx, TotalLen;
      var wasInTx := InTransaction(state);
      ClearBuffers();
      if wasInTx {
        var _ := Rollback();
      }
      state := Failed;
      ok := Write(Failure);
    }

    /** A roll-back, whatever it answers. */
    method Rollback() returns (ok: bool)
      requires AuthKnown()
      modifies backend
      ensures AuthKnown() && !backend.txOpen && !OpenTx(backend.log)
      ensures backend.log == old(backend.log) + [RolledBack(ok)]
    {
      hide Gated, LoggedIn, OpenTx;
      ghost var log := backend.log;
      ok := backend.RollbackTx();
      LogStep(log, RolledBack(ok));
    }

    /** Roll back whatever the connection may still hold. */
    method RollbackIfOpen()
      requires Valid()
      modifies backend
      ensures Valid() && !backend.txOpen
      ensures old(backend.log) <= backend.log
      ensures IsRollback(InTransaction(state) || state == Failed, backend.log[|old(backend.log)|..])
    {
      hide Gated, LoggedIn, OpenTx, TotalLen;
      if InTransaction(state) || state == Failed {
        var _ := Rollback();
      }
    }

    // ---- statements and their pipeline ----

    /**
     While a statement runs, messages the client pipelines are queued, up to a count and a byte total. Whatever cannot
     be queued empties the queue and ends the connection.
     */
    method Prefetch(arrivals: seq<Arrival>) returns (ok: bool)
      requires QueueCounted()
      modifies this`prefetched, this`prefetchedBytes
      ensures QueueCounted()
      ensures ok <==> Queueable(old(prefetched), arrivals, postAuthMessageBytes)
      ensures prefetched == if ok then old(prefetched) + Lens(arrivals) else []
    {
      hide TotalLen, Lens;
      ghost var queue := prefetched;
      assert arrivals[..0] == [] && queue + Lens([]) == queue;
      for i := 0 to |arrivals|
        invariant QueueCounted()
        invariant prefetched == queue + Lens(arrivals[..i])
        invariant forall j | 0 <= j < i :: arrivals[j].Piped?
      {
        match arrivals[i]
        case TransportError =>
          DropQueue();
          return false;
        case Piped(len) =>
          LensStep(queue, arrivals, i);
          var next := prefetchedBytes + len;
          if |prefetched| >= MAX_PREFETCHED_MESSAGES || next > postAuthMessageBytes {
            DropQueue();
            return false;
          }
          prefetchedBytes, prefetched := next, prefetched + [len];
      }
      assert arrivals[..|arrivals|] == arrivals;
      ok := true;
    }

    method DropQueue()
      modifies this`prefetched, this`prefetchedBytes
      ensures QueueCounted() && prefetched == []
    {
      prefetched, prefetchedBytes := [], 0;
    }

    /** Take the next pipelined message. */
    method PopPrefetched() returns (len: Option<nat>)
      requires QueueCounted()
      modifies this`prefetched, this`prefetchedBytes
      ensures QueueCounted()
      ensures old(prefetched) == [] ==> len.None? && prefetched == []
      ensures old(prefetched) != [] ==> len == Some(old(prefetched)[0]) && prefetched == old(prefetched)[1..]
    {
      if prefetched == [] {
        return None;
      }
      len := Some(prefetched[0]);
      prefetchedBytes := prefetchedBytes - prefetched[0];
      prefetched := prefetched[1..];
    }

    /** Run a statement and collect what is pipelined meanwhile; None if the connection broke. */
    method RunBackend(insideTx: bool) returns (r: Option<Option<RunOutcome>>)
      requires TxKnown() && AuthKnown() && QueueCounted() && state == (if insideTx then TxReady else Ready)
      modifies this`prefetched, this`prefetchedBytes, backend
      ensures TxKnown() && AuthKnown() && QueueCounted()
      ensures old(backend.log) <= backend.log
      ensures r.Some? ==> backend.log == old(backend.log) + [Ran(r.value)]
    {
      hide Gated, LoggedIn, OpenTx, TotalLen, Queueable;
      ghost var log := backend.log;
      var result := backend.Execute(insideTx);
      LogStep(log, Ran(result));
      var arrivals: seq<Arrival> := *;
      var pipelined := Prefetch(arrivals);
      r := if pipelined then Some(result) else None;
    }

    /** Announce the columns, then keep the rows for PULL. */
    method OpenStream(outcome: RunOutcome, insideTx: bool) returns (ok: bool)
      requires BuffersOwned() && TxKnown() && AuthKnown() && state == (if insideTx then TxReady else Ready)
      modifies this`sent, this`fields, this`isLast, this`rows, this`retained, this`counters, this`state
      ensures BuffersOwned() && TxKnown() && AuthKnown()
      ensures ok ==> state == (if insideTx then TxStreaming else State.Streaming)
      ensures ok ==> sent == old(sent) + [FieldNames(outcome.fields)]
      ensures ok ==> Held() == Buffers(outcome.rows, outcome.fields, outcome.counters)
      ensures !ok ==> state == old(state)
    {
      hide Gated, LoggedIn, OpenTx;
      ok := Write(FieldNames(outcome.fields));
      if ok {
        var last := LastOccurrences(outcome.fields);
        fields, isLast, rows, retained := outcome.fields, last, outcome.rows, true;
        state := if insideTx then TxStreaming else State.Streaming;
        counters := outcome.counters;
      }
    }

    /** RUN: a statement the backend accepts streams exactly its outcome; one it refuses fails the request. */
    method ExecuteRun(insideTx: bool) returns (ok: bool)
      requires Valid() && state == (if insideTx then TxReady else Ready)
      modifies this, backend
      ensures Valid() && authenticated && old(backend.log) <= backend.log
      ensures ok ==> AnsweredTo(RunQuery)
    {
      hide Gated, LoggedIn, OpenTx, TotalLen, Answer, Served;
      ghost var s, held, log := state, Held(), backend.log;
      var result := RunBackend(insideTx);
      if result.None? {
        return false;
      }
      if result.value.None? {
        ok := FailCall(RunQuery, Ran(None), log);
        return;
      }
      ok := OpenStream(result.value.value, insideTx);
      if ok {
        RunIsServed(s, v5, held, result.value.value);
        NewsIs(log, Ran(result.value));
        SentIs(old(sent), FieldNames(result.value.value.fields));
      }
    }

    /** The backend refused the call it has just answered. */
    method FailCall(req: Request, ghost e: Event, ghost before: seq<Event>) returns (ok: bool)
      requires Valid() && backend.log == before + [e]
      requires CallOf(state, v5, req) != NoCall && Answers(e, CallOf(state, v5, req)) && !IsSuccess(e)
      modifies this, backend
      ensures Valid() && !backend.txOpen && state == Failed && authenticated == old(authenticated)
      ensures before + [e] <= backend.log
      ensures ok ==> sent == old(sent) + [Failure]
      ensures ok ==> Served(old(state), old(authenticated), v5, req, old(Held()), backend.log[|before|..],
                            state, Held(), sent[|old(sent)|..])
    {
      hide Gated, LoggedIn, OpenTx, TotalLen, CallOf, Answers, IsSuccess, Served;
      ok := FailRequest();
      ghost var news := backend.log[|before| + 1..];
      assert backend.log[|before|..] == [e] + news;
      RefusedIsServed(old(state), old(authenticated), v5, req, old(Held()), e, news);
      if ok {
        SentIs(old(sent), Failure);
      }
    }

    /** SUCCESS and the next state if the backend agreed, FAILURE and FAILED if it did not. */
    twostate predicate Concluded(agreed: bool, next: State)
      reads this
    {
      if agreed then state == next && sent == old(sent) + [Success]
      else state == Failed && sent == old(sent) + [Failure]
    }

    /** COMMIT: SUCCESS exactly when the backend committed. */
    method CommitRequest() returns (ok: bool)
      requires Valid() && state == TxReady
      modifies this, backend
      ensures Valid() && authenticated && old(backend.log) < backend.log
      ensures backend.log[|old(backend.log)|].Committed?
      ensures ok ==> AnsweredTo(Commit) && Concluded(backend.log[|old(backend.log)|].ok, Ready)
    {
      hide Gated, LoggedIn, OpenTx, TotalLen, Answer, Served;
      ghost var held, log := Held(), backend.log;
      var committed := backend.CommitTx();
      LogStep(log, Committed(committed));
      if !committed {
        ok := FailCall(Commit, Committed(false), log);
        return;
      }
      state := Ready;
      ok := Write(Success);
      if ok {
        PlainIsServed(TxReady, authenticated, v5, Commit, held, Committed(true), Ready);
        NewsIs(log, Committed(true));
        SentIs(old(sent), Success);
      }
    }

    /** Take rows off the front, sending each as a record if it was pulled. */
    method SendRows(take: nat, isPull: bool) returns (ok: bool)
      requires take <= |rows| && ColumnsMarked()
      modifies this`rows, this`sent
      ensures ok ==> rows == old(rows)[take..]
      ensures ok ==> sent == old(sent) + if isPull then Records(old(rows)[..take], fields) else []
    {
      hide Records, Projected;
      ghost var all := rows;
      ok := true;
      assert Records(all[..0], fields) == [];
      for i := 0 to take
        invariant rows == all[i..]
        invariant sent == old(sent) + if isPull then Records(all[..i], fields) else []
      {
        var row := rows[0];
        rows := rows[1..];
        if isPull {
          var values := ProjectByMove(row, fields, isLast);
          ok := Write(Record(values));
          if !ok {
            return;
          }
          assert all[..i + 1] == all[..i] + [row];
          RecordsConcat(all[..i], [row], fields);
          assert Records([row], fields) == [Record(values)];
        }
      }
      ok := true;
    }

    /** PULL and DISCARD: send or drop the demanded rows, then say whether more are left or close the stream. */
    method FetchRequest(d: Demand) returns (ok: bool)
      requires Valid() && IsStreaming(state)
      modifies this
      ensures Valid() && authenticated
      ensures ok ==> AnsweredTo(Fetch(d))
    {
      hide Gated, LoggedIn, OpenTx, TotalLen, Records, Served;
      ghost var s, held := state, Held();
      var take := Take(|rows|, d.n);
      FetchIsServed(s, v5, held, d);
      ok := SendRows(take, d.isPull);
      if !ok {
        return;
      }
      if rows != [] {
        ok := Write(HasMore);
      } else {
        ok := CloseStream();
      }
      if ok {
        assert sent == old(sent) + Answer(held.rows, held.fields, held.counters, d);
        assert sent[|old(sent)|..] == Answer(held.rows, held.fields, held.counters, d);
        assert backend.log[|old(backend.log)|..] == [];
      }
    }

    /** The closing summary returns the connection to the state the statement came from. */
    method CloseStream() returns (ok: bool)
      requires IsStreaming(state) && TxKnown() && AuthKnown() && BuffersOwned()
      modifies this`state, this`sent, this`rows, this`fields, this`isLast, this`counters, this`retained
      ensures TxKnown() && AuthKnown() && BuffersOwned() && BuffersEmpty()
      ensures state == if old(state) == TxStreaming then TxReady else Ready
      ensures ok ==> sent == old(sent) + [Summary(old(counters))]
    {
      hide Gated, LoggedIn, OpenTx;
      var summary := counters;
      state := if state == TxStreaming then TxReady else Ready;
      ClearBuffers();
      ok := Write(Summary(summary));
    }

    // ---- requests ----

    /** A request its state has no place for. */
    method Refuse(req: Request) returns (ok: bool)
      requires Valid() && Unexpected(state, authenticated, req)
      modifies this, backend
      ensures Valid() && !backend.txOpen && state == Failed && authenticated == old(authenticated)
      ensures old(backend.log) <= backend.log
      ensures ok ==> AnsweredTo(req)
    {
      hide Gated, LoggedIn, OpenTx, TotalLen, Unexpected, Served;
      ok := FailRequest();
      UnexpectedIsServed(old(state), old(authenticated), v5, req, old(Held()), backend.log[|old(backend.log)|..]);
      if ok {
        SentIs(old(sent), Failure);
      }
    }

    /** Answer SUCCESS to a request that needs no backend. */
    method Acknowledge(req: Request, next: State) returns (ok: bool)
      requires Valid() && !IsStreaming(state) && !IsStreaming(next) && state !in {Negotiation, Failed, Defunct}
      requires InTransaction(next) == InTransaction(state) && next !in {Failed, Defunct}
      requires next == Ready ==> authenticated
      requires next in {Connected, Authentication} ==> !authenticated
      requires CallOf(state, v5, req) == NoCall && req != Goodbye && !(req == Reset && authenticated)
      requires Next(state, authenticated, v5, 0, req, []) == next && !req.Fetch? && !req.RunQuery?
      modifies this`state, this`sent
      ensures Valid() && state == next
      ensures ok ==> AnsweredTo(req)
    {
      hide Gated, LoggedIn, OpenTx, TotalLen, CallOf, Next, Served;
      ghost var s, held := state, Held();
      state := next;
      ok := Write(Success);
      if ok {
        AcknowledgedIsServed(s, authenticated, v5, req, held, next);
        SentIs(old(sent), Success);
        assert backend.log[|old(backend.log)|..] == [];
      }
    }

    /** Authenticate, from HELLO before Bolt 5 or from LOGON: READY exactly on success. */
    method LoginRequest(req: Request) returns (ok: bool)
      requires Valid() && state in {Connected, Authentication} && CallOf(state, v5, req) == LoginCall
      modifies this, backend
      ensures Valid() && (authenticated <==> state == Ready) && old(backend.log) < backend.log
      ensures backend.log[|old(backend.log)|].LoginChecked?
      ensures ok ==> AnsweredTo(req) && Concluded(backend.log[|old(backend.log)|].ok, Ready)
    {
      hide Gated, LoggedIn, OpenTx, TotalLen, Answer, Served;
      ghost var s, held, log := state, Held(), backend.log;
      var accepted := backend.Authenticate();
      LogStep(log, LoginChecked(accepted));
      if !accepted {
        ok := FailCall(req, LoginChecked(false), log);
        return;
      }
      authenticated, state := true, Ready;
      ok := Write(Success);
      if ok {
        PlainIsServed(s, false, v5, req, held, LoginChecked(true), Ready);
        NewsIs(log, LoginChecked(true));
        SentIs(old(sent), Success);
      }
    }

    method HandleLogin(req: Request) returns (ok: bool)
      requires Valid() && state in {Connected, Authentication} && req != Goodbye
      modifies this, backend
      ensures Valid() && (authenticated <==> state == Ready) && old(backend.log) <= backend.log
      ensures ok ==> AnsweredTo(req)
    {
      hide Gated, LoggedIn, OpenTx, TotalLen, Served, BuffersOwned, QueueCounted;
      if !(if state == Connected then req == Hello else req == Logon) {
        ok := Refuse(req);
      } else if state == Connected && v5 {
        ok := Acknowledge(req, Authentication);
      } else {
        ok := LoginRequest(req);
      }
    }

    method BeginRequest() returns (ok: bool)
      requires Valid() && state == Ready
      modifies this, backend
      ensures Valid() && authenticated && old(backend.log) < backend.log
      ensures backend.log[|old(backend.log)|].Began?
      ensures ok ==> AnsweredTo(Begin) && Concluded(backend.log[|old(backend.log)|].ok, TxReady)
    {
      hide Gated, LoggedIn, OpenTx, TotalLen, Answer, Served;
      ghost var held, log := Held(), backend.log;
      var begun := backend.BeginTx();
      LogStep(log, Began(begun));
      if !begun {
        ok := FailCall(Begin, Began(false), log);
        return;
      }
      state := TxReady;
      ok := Write(Success);
      if ok {
        PlainIsServed(Ready, authenticated, v5, Begin, held, Began(true), TxReady);
        NewsIs(log, Began(true));
        SentIs(old(sent), Success);
      }
    }

    method LogoffRequest() returns (ok: bool)
      requires Valid() && state == Ready
      modifies this, backend
      ensures Valid() && !authenticated && state == Authentication && old(backend.log) <= backend.log
      ensures ok ==> AnsweredTo(Logoff)
    {
      hide Gated, LoggedIn, OpenTx, TotalLen, Answer, Served;
      ghost var held, log := Held(), backend.log;
      LogStep(log, LoggedOff);
      backend.LogOff();
      authenticated, state := false, Authentication;
      ok := Write(Success);
      if ok {
        PlainIsServed(Ready, true, v5, Logoff, held, LoggedOff, Authentication);
        NewsIs(log, LoggedOff);
        SentIs(old(sent), Success);
      }
    }

    method HandleReady(req: Request) returns (ok: bool)
      requires Valid() && state == Ready && req !in {Goodbye, Reset}
      modifies this, backend
      ensures Valid() && authenticated == (req != Logoff) && old(backend.log) <= backend.log
      ensures ok ==> AnsweredTo(req)
    {
      hide Gated, LoggedIn, OpenTx, TotalLen, Served, BuffersOwned, QueueCounted;
      if req == RunQuery {
        ok := ExecuteRun(false);
      } else if req == Begin {
        ok := BeginRequest();
      } else if req == Logoff {
        ok := LogoffRequest();
      } else if req == Route || req == Telemetry {
        ok := Acknowledge(req, Ready);
      } else {
        ok := Refuse(req);
      }
    }

    method RollbackRequest() returns (ok: bool)
      requires Valid() && state == TxReady
      modifies this, backend
      ensures Valid() && authenticated && old(backend.log) < backend.log
      ensures backend.log[|old(backend.log)|].RolledBack?
      ensures ok ==> AnsweredTo(Request.Rollback) && Concluded(backend.log[|old(backend.log)|].ok, Ready)
    {
      hide Gated, LoggedIn, OpenTx, TotalLen, Answer, Served;
      ghost var held, log := Held(), backend.log;
      var rolledBack := Rollback();
      if !rolledBack {
        ok := FailCall(Request.Rollback, RolledBack(false), log);
        return;
      }
      state := Ready;
      ok := Write(Success);
      if ok {
        PlainIsServed(TxReady, authenticated, v5, Request.Rollback, held, RolledBack(true), Ready);
        NewsIs(log, RolledBack(true));
        SentIs(old(sent), Success);
      }
    }

    method HandleTxReady(req: Request) returns (ok: bool)
      requires Valid() && state == TxReady && req !in {Goodbye, Reset}
      modifies this, backend
      ensures Valid() && authenticated && old(backend.log) <= backend.log
      ensures ok ==> AnsweredTo(req)
    {
      hide Gated, LoggedIn, OpenTx, TotalLen, Served, BuffersOwned, QueueCounted;
      if req == RunQuery {
        ok := ExecuteRun(true);
      } else if req == Commit {
        ok := CommitRequest();
      } else if req == Request.Rollback {
        ok := RollbackRequest();
      } else {
        ok := Refuse(req);
      }
    }

    method HandleStreaming(req: Request) returns (ok: bool)
      requires Valid() && IsStreaming(state) && req !in {Goodbye, Reset}
      modifies this, backend
      ensures Valid() && authenticated && old(backend.log) <= backend.log
      ensures ok ==> AnsweredTo(req)
    {
      hide Gated, LoggedIn, OpenTx, TotalLen, Served, BuffersOwned, QueueCounted;
      if req.Fetch? {
        ok := FetchRequest(req.demand);
      } else {
        ok := Refuse(req);
      }
    }

    /** RESET recovers an authenticated session. */
    method HandleReset() returns (ok: bool)
      requires Valid() && authenticated
      modifies this, backend
      ensures Valid() && !backend.txOpen && BuffersEmpty() && state == Ready && authenticated
      ensures old(backend.log) <= backend.log
      ensures ok ==> AnsweredTo(Reset)
    {
      hide Gated, LoggedIn, OpenTx, TotalLen, Answer;
      RollbackIfOpen();
      ClearBuffers();
      state := Ready;
      ok := Write(Success);
      if ok {
        SentIs(old(sent), Success);
      }
    }

    /** GOODBYE ends any session; what it holds stays as it is. */
    method HandleGoodbye()
      requires Valid()
      modifies this`state, backend
      ensures Valid() && !backend.txOpen && state == Defunct
      ensures unchanged(this`rows, this`fields, this`isLast, this`counters, this`retained)
      ensures old(backend.log) <= backend.log
      ensures AnsweredTo(Goodbye)
    {
      hide Gated, LoggedIn, OpenTx, TotalLen, Answer;
      RollbackIfOpen();
      state := Defunct;
      assert sent[|old(sent)|..] == [];
    }

    /** After a failure, and outside the negotiated states, everything else is ignored. */
    method Ignore(req: Request) returns (ok: bool)
      requires Valid() && state in {Negotiation, Failed, Defunct} && req != Goodbye && !(req == Reset && authenticated)
      modifies this`sent
      ensures Valid()
      ensures ok ==> AnsweredTo(req)
    {
      hide Gated, LoggedIn, OpenTx, TotalLen, Answer;
      ok := Write(Ignored);
      if ok {
        SentIs(old(sent), Ignored);
        assert backend.log[|old(backend.log)|..] == [];
      }
    }

    /**
     Handle one request. If the answer can be written, the calls made on the backend, the new state, the buffers and
     the messages sent are what the protocol gives for the backend's answers; if it cannot, the session is consistent.
     */
    method Handle(req: Request) returns (ok: bool)
      requires Settled()
      modifies this, backend
      ensures Valid() && old(backend.log) <= backend.log
      ensures ok ==> AnsweredTo(req) && Settled() && state == StateOf(old(state), backend.log, sent[|old(sent)|..])
      ensures req == Goodbye ==> ok && !backend.txOpen
    {
      hide Gated, LoggedIn, OpenTx, TotalLen, Served, StateOf, BuffersOwned, QueueCounted;
      ok := Dispatch(req);
      if ok {
        ghost var news := backend.log[|old(backend.log)|..];
        assert backend.log == old(backend.log) + news;
        StateIsTold(old(state), old(authenticated), v5, req, old(Held()), old(backend.log), news,
                    state, Held(), sent[|old(sent)|..]);
      }
    }

    /** The handler of the request's state; RESET and GOODBYE are handled in every state. */
    method Dispatch(req: Request) returns (ok: bool)
      requires Valid()
      modifies this, backend
      ensures Valid() && old(backend.log) <= backend.log
      ensures ok ==> AnsweredTo(req)
      ensures req == Goodbye ==> ok && !backend.txOpen
    {
      hide Gated, LoggedIn, OpenTx, TotalLen, Served, BuffersOwned, QueueCounted;
      if req == Reset && authenticated {
        ok := HandleReset();
        return;
      }
      if req == Goodbye {
        HandleGoodbye();
        return true;
      }
      match state
      case Connected => ok := HandleLogin(req);
      case Authentication => ok := HandleLogin(req);
      case Ready => ok := HandleReady(req);
      case Streaming => ok := HandleStreaming(req);
      case TxStreaming => ok := HandleStreaming(req);
      case TxReady => ok := HandleTxReady(req);
      case _ => ok := Ignore(req);
    }

    // ---- whole runs ----

    /** Any run of PULL and DISCARD on one stream answers what the run as a whole should. */
    method ServeDemands(demands: seq<Demand>) returns (ok: bool)
      requires Valid() && IsStreaming(state)
      modifies this
      ensures Valid()
      ensures ok ==> sent == old(sent) + AnswerAll(old(rows), old(fields), old(counters), demands)
      ensures ok && !Closes(|old(rows)|, demands) ==> state == old(state)
      ensures ok && Closes(|old(rows)|, demands) ==>
                Held() == NO_BUFFERS && state == if old(state) == TxStreaming then TxReady else Ready
      decreases |demands|
    {
      hide Gated, LoggedIn, OpenTx, TotalLen, Answer, BuffersOwned, QueueCounted, Served, Take;
      if demands == [] {
        return true;
      }
      ghost var s, held, before := state, Held(), sent;
      ok := FetchRequest(demands[0]);
      if ok {
        FetchServed(s, authenticated, v5, held, demands[0], backend.log[|old(backend.log)|..], state, Held(), sent[|before|..]);
        assert sent == before + Answer(held.rows, held.fields, held.counters, demands[0]);
        if IsStreaming(state) {
          ok := ServeDemands(demands[1..]);
        }
      }
    }

    /**
     One turn of the connection loop; `done` when the connection ends. Nothing is read while a pipelined message waits,
     so a read outcome has no effect then.
     */
    method Step(turn: Turn) returns (done: bool)
      requires Settled()
      modifies this, backend
      ensures Valid() && if done then !backend.txOpen else Settled()
      ensures turn == LifetimeExceeded ==>
                if old(InTransaction(state)) then FailedBy(done) else !done && unchanged(this, backend)
      ensures turn.ReadOutcome? ==>
                if old(prefetched) == [] then ReadEnded(turn.outcome, done) else !done && unchanged(this, backend)
      ensures turn.Message? && !done ==> AnsweredTo(turn.req) && turn.req != Goodbye && state != Defunct
      ensures turn == Malformed ==> FailedBy(done)
      ensures turn == AdmissionRefused ==>
                if authenticated then FailedBy(done) else !done && unchanged(this`state, this`sent, backend)
    {
      hide Gated, LoggedIn, OpenTx, TotalLen, BuffersOwned, Served, StateOf;
      match turn
      case LifetimeExceeded =>
        done := false;
        if InTransaction(state) {
          var ok := FailRequest();
          done := !ok;
        }
      case ReadOutcome(outcome) =>
        done := false;
        if prefetched == [] {
          done := EndOfRead(outcome);
        }
      case Message(req) =>
        var _ := PopPrefetched();
        var ok := Handle(req);
        if !ok {
          RollbackIfOpen();
        }
        done := !ok || req == Goodbye || state == Defunct;
      case AdmissionRefused =>
        var _ := PopPrefetched();
        done := false;
        if authenticated {
          var ok := FailRequest();
          done := !ok;
        }
      case Malformed =>
        var _ := PopPrefetched();
        var ok := FailRequest();
        done := !ok;
    }

    /** The session was failed; the connection goes on if FAILURE could be sent. */
    twostate predicate FailedBy(done: bool)
      reads this
    {
      state == Failed && Held() == NO_BUFFERS && sent == old(sent) + if done then [] else [Failure]
    }

    /** Idling ends a transaction or an unauthenticated connection, and nothing else; any other end is final. */
    twostate predicate ReadEnded(outcome: ReadFailure, done: bool)
      reads this, backend
    {
      match outcome
      case IdleTimeout => if old(InTransaction(state)) then FailedBy(done) else !done && unchanged(this, backend)
      case HandshakeTimeout => done == !authenticated && unchanged(this, backend)
      case _ => done
    }

    /** A read that gave no message. */
    method EndOfRead(outcome: ReadFailure) returns (done: bool)
      requires Settled()
      modifies this, backend
      ensures Valid() && if done then !backend.txOpen else Settled()
      ensures ReadEnded(outcome, done)
    {
      hide Gated, LoggedIn, OpenTx, TotalLen, BuffersOwned;
      match outcome
      case IdleTimeout =>
        if InTransaction(state) {
          var ok := FailRequest();
          return !ok;
        }
        done := false;
      case HandshakeTimeout =>
        done := !authenticated && !InTransaction(state);
      case Eof =>
        RollbackIfOpen();
        done := true;
      case FrameRejected =>
        RollbackIfOpen();
        if authenticated {
          var _ := Write(Failure);
        }
        done := true;
      case IoError =>
        RollbackIfOpen();
        done := true;
    }

    /**
     The connection loop over any script of the client, the transport and the clocks; a script that runs out is a closed
     socket. However it ends, no transaction is left open, and the backend only ever worked for an authenticated client.
     */
    method Serve(script: seq<Turn>)
      requires Settled()
      modifies this, backend
      ensures Valid() && !backend.txOpen
      ensures Gated(backend.log)
    {
      hide LoggedIn, OpenTx, TotalLen, BuffersOwned;
      for i := 0 to |script|
        invariant Settled()
      {
        var done := Step(script[i]);
        if done {
          return;
        }
      }
      RollbackIfOpen();
    }
  }

  lemma NewsIs(before: seq<Event>, e: Event)
    ensures (before + [e])[|before|..] == [e]
  {
  }

  lemma SentIs(before: seq<Response>, r: Response)
    ensures (before + [r])[|before|..] == [r]
  {
  }

  /** A session that has run a statement of one row and fetched nothing. */
  method OneRowStream(row: Row) returns (session: Session)
    ensures session.Valid() && session.state == State.Streaming && session.rows == [row]
    ensures fresh(session) && fresh(session.backend)
  {
    var backend := new Backend();
    session := new Session(backend, true, 0);
    hide Gated, LoggedIn, OpenTx;
    var outcome := RunOutcome([], [row], map[]);
    LogStep([], LoginChecked(true));
    LogStep([LoginChecked(true)], Ran(Some(outcome)));
    assert [] + [LoginChecked(true)] == [LoginChecked(true)];
    backend.log := [LoginChecked(true)] + [Ran(Some(outcome))];
    session.authenticated, session.state := true, State.Streaming;
    session.rows, session.retained := [row], true;
  }

  /** GOODBYE in the middle of a stream: the row that was not fetched is still held. */
  method RowSurvivesGoodbye(row: Row) returns (session: Session)
    ensures session.Valid() && session.state == Defunct && session.rows == [row]
  {
    session := OneRowStream(row);
    session.HandleGoodbye();
  }

  // ---- what a session meets ----

  /** Why a read gave no message. */
  datatype ReadFailure = IdleTimeout | HandshakeTimeout | Eof | FrameRejected | IoError

  /** What one turn of the loop meets: an expired transaction, a read without a message, or a message. */
  datatype Turn =
    | LifetimeExceeded
    | ReadOutcome(outcome: ReadFailure)
    | AdmissionRefused
    | Malformed
    | Message(req: Request)
}
