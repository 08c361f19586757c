/**
 The Bolt protocol of one connection: which request leads where, what it asks of the backend, what it answers and what
 it leaves buffered, as a function of the backend's answers.
 */
module Protocol {
  import opened Wrappers
  import opened Streaming

  datatype State =
    | Negotiation | Connected | Authentication | Ready | Streaming | TxReady | TxStreaming | Failed | Defunct

  datatype Request =
    | Hello | Logon | Logoff | Goodbye | Reset | RunQuery
    | Fetch(demand: Demand)   // PULL or DISCARD
    | Begin | Commit | Rollback | Route | Telemetry | Unknown

  predicate InTransaction(s: State) {
    s == TxReady || s == TxStreaming
  }

  predicate IsStreaming(s: State) {
    s == Streaming || s == TxStreaming
  }

  // ---- the backend seen from outside ----

  datatype RunOutcome = RunOutcome(fields: seq<string>, rows: seq<Row>, counters: map<string, int>)

  /** What the backend was asked, and what it answered. */
  datatype Event =
    | LoginChecked(ok: bool)
    | LoggedOff
    | Ran(outcome: Option<RunOutcome>)
    | Began(ok: bool)
    | Committed(ok: bool)
    | RolledBack(ok: bool)

  predicate IsWork(e: Event) {
    e.Ran? || e.Began? || e.Committed?
  }

  /** Whether an authentication succeeded since the last log-off. */
  predicate LoggedIn(log: seq<Event>) {
    log != [] && var e := log[|log| - 1];
                 if e == LoginChecked(true) then true else if e == LoggedOff then false else LoggedIn(log[..|log| - 1])
  }

  /** No statement, transaction or commit ever reached the backend outside an authenticated stretch. */
  predicate Gated(log: seq<Event>) {
    log == [] || (var e := log[|log| - 1];
                  Gated(log[..|log| - 1]) && (IsWork(e) ==> LoggedIn(log[..|log| - 1])))
  }

  /** Whether a transaction the backend began has been neither committed nor rolled back since. */
  predicate OpenTx(log: seq<Event>) {
    log != [] && var e := log[|log| - 1];
                 if e == Began(true) then true
                 else if e == Committed(true) || e.RolledBack? then false
                 else OpenTx(log[..|log| - 1])
  }

  lemma LogStep(log: seq<Event>, e: Event)
    ensures LoggedIn(log + [e])
            == if e == LoginChecked(true) then true else if e == LoggedOff then false else LoggedIn(log)
    ensures Gated(log + [e]) == (Gated(log) && (IsWork(e) ==> LoggedIn(log)))
    ensures OpenTx(log + [e])
            == if e == Began(true) then true else if e == Committed(true) || e.RolledBack? then false else OpenTx(log)
  {
  }

  // ---- the protocol ----

  /** The call a request makes on the backend. */
  datatype Call = NoCall | LoginCall | LogOffCall | RunCall | BeginCall | CommitCall | RollbackCall

  function CallOf(s: State, v5: bool, req: Request): Call {
    match (s, req)
    case (Connected, Hello) => if v5 then NoCall else LoginCall
    case (Authentication, Logon) => LoginCall
    case (Ready, RunQuery) => RunCall
    case (Ready, Begin) => BeginCall
    case (Ready, Logoff) => LogOffCall
    case (TxReady, RunQuery) => RunCall
    case (TxReady, Commit) => CommitCall
    case (TxReady, Rollback) => RollbackCall
    case _ => NoCall
  }

  predicate Answers(e: Event, c: Call) {
    match c
    case NoCall => false
    case LoginCall => e.LoginChecked?
    case LogOffCall => e.LoggedOff?
    case RunCall => e.Ran?
    case BeginCall => e.Began?
    case CommitCall => e.Committed?
    case RollbackCall => e.RolledBack?
  }

  predicate IsSuccess(e: Event) {
    match e
    case LoginChecked(ok) => ok
    case LoggedOff => true
    case Ran(outcome) => outcome.Some?
    case Began(ok) => ok
    case Committed(ok) => ok
    case RolledBack(ok) => ok
  }

  /** The exchange with the backend during one request: the call it makes, if any, and then a roll-back if one is due. */
  predicate Exchanged(c: Call, due: bool, news: seq<Event>) {
    if c == NoCall then IsRollback(due, news)
    else news != [] && Answers(news[0], c) && IsRollback(due, news[1..])
  }

  predicate IsRollback(due: bool, news: seq<Event>) {
    if due then |news| == 1 && news[0].RolledBack? else news == []
  }

  /** A failure inside a transaction rolls it back; RESET and GOODBYE also roll back after a failure. */
  predicate RollbackDue(s: State, authenticated: bool, req: Request, s': State) {
    if req == Goodbye || (req == Reset && authenticated) then InTransaction(s) || s == Failed
    else InTransaction(s) && s' == Failed
  }

  predicate Accepted(news: seq<Event>) {
    news != [] && IsSuccess(news[0])
  }

  /** The Bolt server state specification as a table, including authentication and failure. */
  function Next(s: State, authenticated: bool, v5: bool, rows: nat, req: Request, news: seq<Event>): State {
    if req == Goodbye then Defunct
    else if req == Reset && authenticated then Ready
    else match (s, req)
         case (Connected, Hello) => if v5 then Authentication else if Accepted(news) then Ready else Failed
         case (Authentication, Logon) => if Accepted(news) then Ready else Failed
         case (Ready, RunQuery) => if Accepted(news) then Streaming else Failed
         case (Ready, Begin) => if Accepted(news) then TxReady else Failed
         case (Ready, Logoff) => Authentication
         case (Ready, Route) => Ready
         case (Ready, Telemetry) => Ready
         case (Streaming, Fetch(d)) => if Take(rows, d.n) < rows then Streaming else Ready
         case (TxStreaming, Fetch(d)) => if Take(rows, d.n) < rows then TxStreaming else TxReady
         case (TxReady, RunQuery) => if Accepted(news) then TxStreaming else Failed
         case (TxReady, Commit) => if Accepted(news) then Ready else Failed
         case (TxReady, Rollback) => if Accepted(news) then Ready else Failed
         case (Negotiation, _) => Negotiation
         case (Defunct, _) => Defunct
         case _ => Failed
  }

  /** The rows of a result with their columns and counters. */
  datatype Buffers = Buffers(rows: seq<Row>, fields: seq<string>, counters: map<string, int>)

  const NO_BUFFERS := Buffers([], [], map[])

  function OutcomeOf(news: seq<Event>): Buffers {
    if news != [] && news[0].Ran? && news[0].outcome.Some? then
      var o := news[0].outcome.value;
      Buffers(o.rows, o.fields, o.counters)
    else NO_BUFFERS
  }

  /** What is sent for a request that takes the session from `s` to `s'`. */
  function Reply(s: State, s': State, req: Request, held: Buffers, news: seq<Event>): seq<Response> {
    if req == Goodbye then []
    else if s' == s && s in {Failed, Negotiation, Defunct} then [Ignored]
    else if s' == Failed then [Failure]
    else match req
         case RunQuery => [FieldNames(OutcomeOf(news).fields)]
         case Fetch(d) => Answer(held.rows, held.fields, held.counters, d)
         case _ => [Success]
  }

  /** The buffers it leaves: a statement fills them, a demand takes from the front, and GOODBYE keeps them. */
  function Left(s: State, s': State, req: Request, held: Buffers, news: seq<Event>): Buffers {
    if req == Goodbye || (s' == s && s in {Failed, Negotiation, Defunct}) then held
    else if !IsStreaming(s') then NO_BUFFERS
    else match req
         case RunQuery => OutcomeOf(news)
         case Fetch(d) => held.(rows := held.rows[Take(|held.rows|, d.n)..])
         case _ => held
  }

  /** All there is to say about one request that was answered. */
  ghost predicate Served(s: State, authenticated: bool, v5: bool, req: Request, held: Buffers, news: seq<Event>,
                         s': State, left: Buffers, replies: seq<Response>)
  {
    && Exchanged(if req == Goodbye || (req == Reset && authenticated) then NoCall else CallOf(s, v5, req),
                 RollbackDue(s, authenticated, req, s'), news)
    && s' == Next(s, authenticated, v5, |held.rows|, req, news)
    && left == Left(s, s', req, held, news)
    && replies == Reply(s, s', req, held, news)
  }

  /** A request its state has no place for. */
  predicate Unexpected(s: State, authenticated: bool, req: Request) {
    && s !in {Negotiation, Failed, Defunct}
    && req != Goodbye && !(req == Reset && authenticated)
    && match (s, req)
       case (Connected, Hello) => false
       case (Authentication, Logon) => false
       case (Ready, RunQuery) => false
       case (Ready, Begin) => false
       case (Ready, Logoff) => false
       case (Ready, Route) => false
       case (Ready, Telemetry) => false
       case (Streaming, Fetch(_)) => false
       case (TxStreaming, Fetch(_)) => false
       case (TxReady, RunQuery) => false
       case (TxReady, Commit) => false
       case (TxReady, Rollback) => false
       case _ => true
  }

  /** It fails, asks the backend nothing but a roll-back, and drops the buffers. */
  lemma UnexpectedIsServed(s: State, authenticated: bool, v5: bool, req: Request, held: Buffers, news: seq<Event>)
    requires Unexpected(s, authenticated, req) && IsRollback(InTransaction(s), news)
    ensures Served(s, authenticated, v5, req, held, news, Failed, NO_BUFFERS, [Failure])
  {
  }

  /** A refused call fails the request. */
  lemma RefusedIsServed(s: State, authenticated: bool, v5: bool, req: Request, held: Buffers, e: Event, news: seq<Event>)
    requires CallOf(s, v5, req) != NoCall && Answers(e, CallOf(s, v5, req)) && !IsSuccess(e)
    requires IsRollback(InTransaction(s), news)
    ensures Served(s, authenticated, v5, req, held, [e] + news, Failed, NO_BUFFERS, [Failure])
  {
    assert ([e] + news)[1..] == news;
  }

  /** A statement that was accepted is served by streaming its outcome. */
  lemma RunIsServed(s: State, v5: bool, held: Buffers, o: RunOutcome)
    requires s in {Ready, TxReady}
    ensures Served(s, true, v5, RunQuery, held, [Ran(Some(o))], if s == TxReady then TxStreaming else State.Streaming,
                   Buffers(o.rows, o.fields, o.counters), [FieldNames(o.fields)])
  {
  }

  /** Any other call that was accepted is served by SUCCESS. */
  lemma PlainIsServed(s: State, authenticated: bool, v5: bool, req: Request, held: Buffers, e: Event, s': State)
    requires CallOf(s, v5, req) !in {NoCall, RunCall} && Answers(e, CallOf(s, v5, req)) && IsSuccess(e)
    requires s' == Next(s, authenticated, v5, 0, req, [e])
    ensures Served(s, authenticated, v5, req, held, [e], s', NO_BUFFERS, [Success])
  {
  }

  /** A request that needs no call is served by SUCCESS, if it leads to a state without a stream. */
  lemma AcknowledgedIsServed(s: State, authenticated: bool, v5: bool, req: Request, held: Buffers, s': State)
    requires CallOf(s, v5, req) == NoCall && req != Goodbye && !(req == Reset && authenticated)
    requires !req.Fetch? && !req.RunQuery? && s !in {Negotiation, Failed, Defunct} && s' != Failed && !IsStreaming(s')
    requires s' == Next(s, authenticated, v5, 0, req, [])
    ensures Served(s, authenticated, v5, req, held, [], s', NO_BUFFERS, [Success])
  {
  }

  /** A demand is served without the backend. */
  lemma FetchIsServed(s: State, v5: bool, held: Buffers, d: Demand)
    requires IsStreaming(s)
    ensures var more := Take(|held.rows|, d.n) < |held.rows|;
            Served(s, true, v5, Fetch(d), held, [],
                   if more then s else if s == TxStreaming then TxReady else Ready,
                   if more then held.(rows := held.rows[Take(|held.rows|, d.n)..]) else NO_BUFFERS,
                   Answer(held.rows, held.fields, held.counters, d))
  {
    hide Answer;
  }

  /** And that is the only way. */
  lemma FetchServed(s: State, authenticated: bool, v5: bool, held: Buffers, d: Demand, news: seq<Event>,
                    s': State, left: Buffers, replies: seq<Response>)
    requires IsStreaming(s) && Served(s, authenticated, v5, Fetch(d), held, news, s', left, replies)
    ensures replies == Answer(held.rows, held.fields, held.counters, d)
    ensures Take(|held.rows|, d.n) < |held.rows| ==>
              s' == s && left == held.(rows := held.rows[Take(|held.rows|, d.n)..])
    ensures Take(|held.rows|, d.n) == |held.rows| ==>
              s' == (if s == TxStreaming then TxReady else Ready) && left == NO_BUFFERS
  {
    hide Answer;
  }

  /** A size smaller than what is left drops that many rows from the front; any other closes the stream. */
  lemma FetchLeaves(s: State, authenticated: bool, v5: bool, held: Buffers, d: Demand, news: seq<Event>,
                    s': State, left: Buffers, replies: seq<Response>)
    requires IsStreaming(s) && Served(s, authenticated, v5, Fetch(d), held, news, s', left, replies)
    ensures if 0 <= d.n < |held.rows| then s' == s && left == held.(rows := held.rows[d.n..])
            else s' == (if s == TxStreaming then TxReady else Ready) && left == NO_BUFFERS
  {
    hide Answer;
  }

  // ---- what the protocol promises a client ----

  /** Some records, then one message that closes the answer. */
  ghost predicate IsAnswer(replies: seq<Response>) {
    && replies != [] && !replies[|replies| - 1].Record?
    && forall i | 0 <= i < |replies| - 1 :: replies[i].Record?
  }

  /** Every request but GOODBYE gets records and one closing message. */
  lemma EveryRequestIsAnswered(s: State, authenticated: bool, v5: bool, req: Request, held: Buffers, news: seq<Event>,
                               s': State, left: Buffers, replies: seq<Response>)
    requires Served(s, authenticated, v5, req, held, news, s', left, replies) && req != Goodbye
    ensures IsAnswer(replies)
  {
  }

  /** The state a client can tell from the last answer, with the backend's own record of logins and transactions. */
  function StateOf(s: State, log: seq<Event>, replies: seq<Response>): State {
    if replies == [] then Defunct
    else match replies[|replies| - 1]
         case Failure => Failed
         case Ignored => s
         case FieldNames(_) => if OpenTx(log) then TxStreaming else State.Streaming
         case HasMore => if OpenTx(log) then TxStreaming else State.Streaming
         case _ => if OpenTx(log) then TxReady else if LoggedIn(log) then Ready else Authentication
  }

  /** What the session believes of the backend is what the backend's record says. */
  predicate Told(s: State, authenticated: bool, log: seq<Event>) {
    && (InTransaction(s) <==> OpenTx(log))
    && (authenticated <==> LoggedIn(log))
    && (s in {Ready, State.Streaming, TxReady, TxStreaming} ==> authenticated)
    && (s in {Connected, Authentication} ==> !authenticated)
  }

  /**
   After every answered request the session is in a transaction exactly when the backend's record has one open, and it
   is in the state the last answer and that record give.
   */
  lemma StateIsTold(s: State, authenticated: bool, v5: bool, req: Request, held: Buffers, log: seq<Event>, news: seq<Event>,
                    s': State, left: Buffers, replies: seq<Response>)
    requires Served(s, authenticated, v5, req, held, news, s', left, replies) && Told(s, authenticated, log)
    ensures InTransaction(s') <==> OpenTx(log + news)
    ensures s' == StateOf(s, log + news, replies)
  {
    hide OpenTx, LoggedIn, Answer, Records, IsRecordOf, Left, Served;
    RecordIsTold(s, authenticated, v5, req, held, log, news, s', left, replies);
    ServedParts(s, authenticated, v5, req, held, news, s', left, replies);
    if req.Fetch? {
      AnswerMeans(held.rows, held.fields, held.counters, req.demand);
    }
  }

  lemma ServedParts(s: State, authenticated: bool, v5: bool, req: Request, held: Buffers, news: seq<Event>,
                    s': State, left: Buffers, replies: seq<Response>)
    requires Served(s, authenticated, v5, req, held, news, s', left, replies)
    ensures s' == Next(s, authenticated, v5, |held.rows|, req, news) && replies == Reply(s, s', req, held, news)
  {
    hide Next, Reply, Left, Exchanged, RollbackDue, CallOf;
  }

  /** The new state agrees with the backend's record. */
  lemma RecordIsTold(s: State, authenticated: bool, v5: bool, req: Request, held: Buffers, log: seq<Event>, news: seq<Event>,
                     s': State, left: Buffers, replies: seq<Response>)
    requires Served(s, authenticated, v5, req, held, news, s', left, replies) && Told(s, authenticated, log)
    ensures InTransaction(s') <==> OpenTx(log + news)
    ensures s' in {Ready, State.Streaming, TxReady, TxStreaming} ==> LoggedIn(log + news)
    ensures s' in {Connected, Authentication} ==> !LoggedIn(log + news)
  {
    hide OpenTx, LoggedIn, Answer, Reply, Left;
    NewsTold(log, news);
    if news != [] {
      LogStep(log, news[0]);
    }
  }

  /** What the call of a request, and a roll-back after it, change in the backend's record. */
  lemma NewsTold(log: seq<Event>, news: seq<Event>)
    requires |news| <= 2 && (|news| == 2 ==> news[1].RolledBack?)
    ensures news == [] ==> log + news == log
    ensures news != [] ==> LoggedIn(log + news) == LoggedIn(log + [news[0]])
    ensures |news| == 1 ==> OpenTx(log + news) == OpenTx(log + [news[0]])
    ensures |news| == 2 ==> !OpenTx(log + news)
  {
    hide OpenTx, LoggedIn;
    if news == [] {
      assert log + news == log;
    } else if |news| == 1 {
      assert news == [news[0]];
    } else {
      LogStep(log + [news[0]], news[1]);
      assert log + news == log + [news[0]] + [news[1]];
    }
  }

  /** Each kind of call is made for one request in one kind of state, once, and only a roll-back follows it. */
  lemma CallsAreAskedFor(s: State, authenticated: bool, v5: bool, req: Request, held: Buffers, news: seq<Event>,
                         s': State, left: Buffers, replies: seq<Response>, i: nat)
    requires Served(s, authenticated, v5, req, held, news, s', left, replies) && i < |news| && !news[i].RolledBack?
    ensures i == 0
    ensures news[i].LoginChecked? <==> (s == Authentication && req == Logon) || (s == Connected && req == Hello)
    ensures news[i].LoggedOff? <==> s == Ready && req == Logoff
    ensures news[i].Ran? <==> s in {Ready, TxReady} && req == RunQuery
    ensures news[i].Began? <==> s == Ready && req == Begin
    ensures news[i].Committed? <==> s == TxReady && req == Commit
  {
    assert forall j | 1 <= j < |news| :: news[j] == news[1..][j - 1];
  }

  /** BEGIN, ROLLBACK and LOGON are answered SUCCESS exactly when the backend was asked and agreed. */
  lemma SuccessIsEarned(s: State, authenticated: bool, v5: bool, req: Request, held: Buffers, news: seq<Event>,
                        s': State, left: Buffers, replies: seq<Response>)
    requires Served(s, authenticated, v5, req, held, news, s', left, replies) && req in {Begin, Rollback, Logon}
    ensures replies == [Success]
            <==> s == (if req == Begin then Ready else if req == Rollback then TxReady else Authentication)
                 && news[..1] == [if req == Begin then Began(true)
                                  else if req == Rollback then RolledBack(true)
                                  else LoginChecked(true)]
  {
  }

  /** A failed session ignores everything but GOODBYE and, if it is authenticated, RESET. */
  lemma IgnoredExactlyWhen(s: State, authenticated: bool, v5: bool, req: Request, held: Buffers, news: seq<Event>,
                           s': State, left: Buffers, replies: seq<Response>)
    requires Served(s, authenticated, v5, req, held, news, s', left, replies)
    ensures replies == [Ignored]
            <==> s in {Failed, Negotiation, Defunct} && req != Goodbye && !(req == Reset && authenticated)
    ensures replies == [Ignored] ==> news == [] && left == held
  {
    if IsStreaming(s) && req.Fetch? {
      hide Answer;
      AnswerMeans(held.rows, held.fields, held.counters, req.demand);
    }
  }

  /** COMMIT is answered SUCCESS exactly when the backend was asked to commit and did. */
  lemma CommitIsHonest(s: State, authenticated: bool, v5: bool, held: Buffers, news: seq<Event>,
                       s': State, left: Buffers, replies: seq<Response>)
    requires Served(s, authenticated, v5, Commit, held, news, s', left, replies)
    ensures replies == [Success] <==> news != [] && news[0] == Committed(true)
  {
  }

  /** RUN streams exactly the rows and columns the backend returned, or fails. */
  lemma RunIsHonest(s: State, authenticated: bool, v5: bool, held: Buffers, news: seq<Event>,
                    s': State, left: Buffers, replies: seq<Response>)
    requires Served(s, authenticated, v5, RunQuery, held, news, s', left, replies)
    ensures IsStreaming(s') <==> exists o :: news != [] && news[0] == Ran(Some(o))
    ensures forall o | news != [] && news[0] == Ran(Some(o)) ::
              left == Buffers(o.rows, o.fields, o.counters) && replies == [FieldNames(o.fields)]
  {
  }

  /** READY, and with it every working state, is entered from outside only by a login the backend accepted. */
  lemma OnlyLoginOpens(s: State, authenticated: bool, v5: bool, req: Request, held: Buffers, news: seq<Event>,
                       s': State, left: Buffers, replies: seq<Response>)
    requires Served(s, authenticated, v5, req, held, news, s', left, replies)
    requires s in {Connected, Authentication} && !authenticated && s' !in {Authentication, Failed, Defunct}
    ensures s' == Ready && news != [] && news[0] == LoginChecked(true)
  {
  }
}
