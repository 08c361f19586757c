/** Rows of a result: column projection, and paging by PULL and DISCARD. */
module Streaming {
  import opened PackStream

  type Row = map<string, Value>

  /** One PULL or DISCARD; a negative size asks for everything left. */
  datatype Demand = Demand(isPull: bool, n: int)

  datatype Response =
    | Success
    | FieldNames(fields: seq<string>)
    | Record(values: seq<Value>)
    | HasMore
    | Summary(counters: map<string, int>)
    | Ignored
    | Failure

  function Lookup(row: Row, name: string): Value {
    if name in row then row[name] else Null
  }

  /** The record of a row by plain lookup of every column. */
  function Projected(row: Row, fields: seq<string>): (values: seq<Value>)
    ensures |values| == |fields|
  {
    seq(|fields|, i requires 0 <= i < |fields| => Lookup(row, fields[i]))
  }

  /** The marks are true for the final occurrence of each name. */
  ghost predicate MarksLast(fields: seq<string>, isLast: seq<bool>) {
    |isLast| == |fields| && forall i | 0 <= i < |fields| :: isLast[i] <==> fields[i] !in fields[i + 1..]
  }

  method LastOccurrences(fields: seq<string>) returns (isLast: seq<bool>)
    ensures MarksLast(fields, isLast)
  {
    var last: map<string, nat> := map[];
    for i := 0 to |fields|
      invariant forall j | 0 <= j < i :: fields[j] in last && j <= last[fields[j]] < i
      invariant forall name | name in last :: last[name] < i && fields[last[name]] == name
    {
      last := last[fields[i] := i];
    }
    isLast := seq(|fields|, i requires 0 <= i < |fields| && fields[i] in last => last[fields[i]] == i);
    forall i | 0 <= i < |fields| ensures isLast[i] <==> fields[i] !in fields[i + 1..] {
      var l := last[fields[i]];
      if l != i {
        assert fields[i + 1..][l - i - 1] == fields[i];
      }
      forall j | i < j < |fields| && fields[j] == fields[i] ensures l >= j {
      }
    }
  }

  lemma NotAgain(fields: seq<string>, isLast: seq<bool>, i: nat)
    requires MarksLast(fields, isLast) && i < |fields| && isLast[i]
    ensures forall j | i < j < |fields| :: fields[j] != fields[i]
  {
    assert forall j | i < j < |fields| :: fields[i + 1..][j - i - 1] == fields[j];
  }

  lemma LookupOther(row: Row, gone: string, name: string)
    requires name != gone
    ensures Lookup(row - {gone}, name) == Lookup(row, name)
  {
  }

  /** Build a record by moving each binding out of the row at the last use of its name and copying it before. */
  method ProjectByMove(row: Row, fields: seq<string>, isLast: seq<bool>) returns (values: seq<Value>)
    requires |isLast| == |fields| && MarksLast(fields, isLast)
    ensures values == Projected(row, fields)
  {
    hide Lookup, MarksLast;
    values := [];
    var bindings := row;
    for i := 0 to |fields|
      invariant |values| == i
      invariant forall j | 0 <= j < i :: values[j] == Lookup(row, fields[j])
      invariant forall j | i <= j < |fields| :: Lookup(bindings, fields[j]) == Lookup(row, fields[j])
    {
      values := values + [Lookup(bindings, fields[i])];
      if isLast[i] {
        NotAgain(fields, isLast, i);
        forall j | i + 1 <= j < |fields| ensures Lookup(bindings - {fields[i]}, fields[j]) == Lookup(row, fields[j]) {
          LookupOther(bindings, fields[i], fields[j]);
        }
        bindings := bindings - {fields[i]};
      }
    }
  }

  // ---- paging ----

  function Take(rows: nat, n: int): (take: nat)
    ensures take <= rows
  {
    if n < 0 || n > rows then rows else n
  }

  function Records(rows: seq<Row>, fields: seq<string>): (out: seq<Response>)
    ensures |out| == |rows|
    ensures forall i | 0 <= i < |rows| :: out[i] == Record(Projected(rows[i], fields))
  {
    seq(|rows|, i requires 0 <= i < |rows| => Record(Projected(rows[i], fields)))
  }

  /** What one demand answers on a stream of these rows. */
  function Answer(rows: seq<Row>, fields: seq<string>, counters: map<string, int>, d: Demand): seq<Response> {
    var take := Take(|rows|, d.n);
    (if d.isPull then Records(rows[..take], fields) else [])
    + [if take < |rows| then HasMore else Summary(counters)]
  }

  /**
   A PULL answers the first `n` rows, or all that are left if there are no more or `n` is negative, and a DISCARD none.
   A record holds the row's value of every column, and null where it has none. The closing message says whether rows
   are left.
   */
  lemma AnswerMeans(rows: seq<Row>, fields: seq<string>, counters: map<string, int>, d: Demand)
    ensures var out := Answer(rows, fields, counters, d);
            var all := d.n < 0 || |rows| <= d.n;
            && |out| == 1 + (if !d.isPull then 0 else if all then |rows| else d.n)
            && out[|out| - 1] == (if all then Summary(counters) else HasMore)
            && forall i | 0 <= i < |out| - 1 :: out[i].Record? && IsRecordOf(rows[i], fields, out[i].values)
  {
  }

  ghost predicate IsRecordOf(row: Row, fields: seq<string>, values: seq<Value>) {
    && |values| == |fields|
    && forall j | 0 <= j < |fields| ::
         if fields[j] in row then values[j] == row[fields[j]] else values[j] == Null
  }

  /** What a run of demands answers, up to the one that closes the stream. */
  function AnswerAll(rows: seq<Row>, fields: seq<string>, counters: map<string, int>, demands: seq<Demand>): seq<Response>
    decreases |demands|
  {
    if demands == [] then [] else
      var take := Take(|rows|, demands[0].n);
      Answer(rows, fields, counters, demands[0])
      + (if take == |rows| then [] else AnswerAll(rows[take..], fields, counters, demands[1..]))
  }

  /** How many rows a run of demands moves past. */
  function Passed(rows: nat, demands: seq<Demand>): (n: nat)
    ensures n <= rows
    decreases |demands|
  {
    if demands == [] then 0 else
      var take := Take(rows, demands[0].n);
      if take == rows then rows else take + Passed(rows - take, demands[1..])
  }

  /** Whether a run of demands closes the stream. */
  predicate Closes(rows: nat, demands: seq<Demand>)
    decreases |demands|
  {
    demands != [] && (Take(rows, demands[0].n) == rows || Closes(rows - Take(rows, demands[0].n), demands[1..]))
  }

  /** The rows that reach the client: for each PULL the next stretch, in order; a DISCARD skips its stretch. */
  function Delivered(rows: seq<Row>, demands: seq<Demand>): seq<Row>
    decreases |demands|
  {
    if demands == [] then [] else
      var take := Take(|rows|, demands[0].n);
      (if demands[0].isPull then rows[..take] else [])
      + (if take == |rows| then [] else Delivered(rows[take..], demands[1..]))
  }

  function OnlyRecords(out: seq<Response>): seq<Response> {
    if out == [] then [] else if out[0].Record? then [out[0]] + OnlyRecords(out[1..]) else OnlyRecords(out[1..])
  }

  function CountSummaries(out: seq<Response>): nat {
    if out == [] then 0 else (if out[0].Summary? then 1 else 0) + CountSummaries(out[1..])
  }

  lemma {:induction false} OnlyRecordsConcat(a: seq<Response>, b: seq<Response>)
    ensures OnlyRecords(a + b) == OnlyRecords(a) + OnlyRecords(b)
  {
    if a == [] {
      assert a + b == b;
    } else {
      OnlyRecordsConcat(a[1..], b);
      assert (a + b)[0] == a[0] && (a + b)[1..] == a[1..] + b;
      assert ([a[0]] + OnlyRecords(a[1..])) + OnlyRecords(b) == [a[0]] + (OnlyRecords(a[1..]) + OnlyRecords(b));
    }
  }

  lemma {:induction false} CountSummariesConcat(a: seq<Response>, b: seq<Response>)
    ensures CountSummaries(a + b) == CountSummaries(a) + CountSummaries(b)
  {
    if a == [] {
      assert a + b == b;
    } else {
      CountSummariesConcat(a[1..], b);
      assert (a + b)[0] == a[0] && (a + b)[1..] == a[1..] + b;
    }
  }

  lemma {:induction false} RecordsAreRecords(rows: seq<Row>, fields: seq<string>)
    ensures OnlyRecords(Records(rows, fields)) == Records(rows, fields)
    ensures CountSummaries(Records(rows, fields)) == 0
  {
    if rows != [] {
      RecordsAreRecords(rows[1..], fields);
      assert Records(rows, fields)[1..] == Records(rows[1..], fields);
      assert Records(rows, fields) == [Records(rows, fields)[0]] + Records(rows[1..], fields);
    }
  }

  lemma RecordsConcat(a: seq<Row>, b: seq<Row>, fields: seq<string>)
    ensures Records(a + b, fields) == Records(a, fields) + Records(b, fields)
  {
  }

  lemma AnswerRecords(rows: seq<Row>, fields: seq<string>, counters: map<string, int>, d: Demand)
    ensures OnlyRecords(Answer(rows, fields, counters, d))
            == Records(if d.isPull then rows[..Take(|rows|, d.n)] else [], fields)
    ensures CountSummaries(Answer(rows, fields, counters, d)) == if Take(|rows|, d.n) == |rows| then 1 else 0
  {
    var take := Take(|rows|, d.n);
    var sent := if d.isPull then Records(rows[..take], fields) else [];
    var tail := [if take < |rows| then HasMore else Summary(counters)];
    OnlyRecordsConcat(sent, tail);
    CountSummariesConcat(sent, tail);
    RecordsAreRecords(rows[..take], fields);
    assert tail[1..] == [];
    assert OnlyRecords(sent) + [] == OnlyRecords(sent);
  }

  /**
   For any sequence of PULL and DISCARD sizes: the RECORDs sent are exactly the delivered rows in order, the closing
   summary is sent once if the demands reach the end and never otherwise.
   */
  lemma {:induction false} PagingIsExact(rows: seq<Row>, fields: seq<string>, counters: map<string, int>, demands: seq<Demand>)
    ensures OnlyRecords(AnswerAll(rows, fields, counters, demands)) == Records(Delivered(rows, demands), fields)
    ensures CountSummaries(AnswerAll(rows, fields, counters, demands)) == if Closes(|rows|, demands) then 1 else 0
    decreases |demands|
  {
    if demands != [] {
      hide Answer, Records, OnlyRecords, CountSummaries, Take;
      var take := Take(|rows|, demands[0].n);
      AnswerRecords(rows, fields, counters, demands[0]);
      var mine := if demands[0].isPull then rows[..take] else [];
      if take < |rows| {
        PagingIsExact(rows[take..], fields, counters, demands[1..]);
        Joins(Answer(rows, fields, counters, demands[0]), AnswerAll(rows[take..], fields, counters, demands[1..]),
              mine, Delivered(rows[take..], demands[1..]), fields);
      } else {
        NoRecords(fields);
        Joins(Answer(rows, fields, counters, demands[0]), [], mine, [], fields);
      }
    }
  }

  lemma NoRecords(fields: seq<string>)
    ensures OnlyRecords([]) == Records([], fields) && CountSummaries([]) == 0
  {
  }

  lemma Joins(first: seq<Response>, more: seq<Response>, mine: seq<Row>, theirs: seq<Row>, fields: seq<string>)
    requires OnlyRecords(first) == Records(mine, fields) && OnlyRecords(more) == Records(theirs, fields)
    ensures OnlyRecords(first + more) == Records(mine + theirs, fields)
    ensures CountSummaries(first + more) == CountSummaries(first) + CountSummaries(more)
  {
    hide Records, OnlyRecords, CountSummaries;
    OnlyRecordsConcat(first, more);
    CountSummariesConcat(first, more);
    RecordsConcat(mine, theirs, fields);
  }

  lemma {:induction false} ClosingPassesAll(rows: nat, demands: seq<Demand>)
    requires Closes(rows, demands)
    ensures Passed(rows, demands) == rows
    decreases |demands|
  {
    var take := Take(rows, demands[0].n);
    if take < rows {
      ClosingPassesAll(rows - take, demands[1..]);
    }
  }

  lemma SplitAt(rows: seq<Row>, a: nat, b: nat)
    requires a + b <= |rows|
    ensures rows[..a] + rows[a..][..b] == rows[..a + b]
  {
  }

  lemma {:induction false} PullsDeliverPrefix(rows: seq<Row>, demands: seq<Demand>)
    requires forall i | 0 <= i < |demands| :: demands[i].isPull
    ensures Delivered(rows, demands) == rows[..Passed(|rows|, demands)]
    decreases |demands|
  {
    if demands != [] {
      hide Take;
      var take := Take(|rows|, demands[0].n);
      if take < |rows| {
        PullsDeliverPrefix(rows[take..], demands[1..]);
        SplitAt(rows, take, Passed(|rows| - take, demands[1..]));
      } else {
        assert rows[..take] + [] == rows[..take];
      }
    }
  }

  /** Paging with PULLs alone, in any sizes, delivers the rows it passes, none twice and none missing. */
  lemma PullsDeliverEverythingPassed(rows: seq<Row>, demands: seq<Demand>)
    requires forall i | 0 <= i < |demands| :: demands[i].isPull
    ensures Delivered(rows, demands) == rows[..Passed(|rows|, demands)]
    ensures Closes(|rows|, demands) ==> Delivered(rows, demands) == rows
  {
    hide Delivered, Passed, Closes;
    PullsDeliverPrefix(rows, demands);
    if Closes(|rows|, demands) {
      ClosingPassesAll(|rows|, demands);
      assert rows[..|rows|] == rows;
    }
  }
}
