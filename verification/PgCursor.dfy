/**
 The PostgreSQL connection: sql_fetch_row, bdb_sql_query, the cursor of
 bdb_big_sql_query, and bdb_start_transaction / bdb_end_transaction.
 */
module PgCursors {
  import opened CatalogTables

  // ------------------------------------------------------------ what is delivered

  /** A result handler may look at everything it was given; it answers true to stop. */
  type Handler<!Row> = seq<Row> -> bool

  /** The loop `while (row = fetch) if (handler(row)) break`, after `seen` was delivered. */
  function Deliver<Row>(seen: seq<Row>, rows: seq<Row>, stops: Handler<Row>): (all: seq<Row>)
    ensures seen <= all <= seen + rows
    ensures rows != [] ==> |all| > |seen|
    decreases |rows|
  {
    if rows == [] then seen
    else
      var seen' := seen + [rows[0]];
      assert seen' + rows[1..] == seen + rows;
      if stops(seen') then seen' else Deliver(seen', rows[1..], stops)
  }

  const FETCH := 100

  function Block<Row>(rows: seq<Row>): nat {
    if |rows| < FETCH then |rows| else FETCH
  }

  /** The cursor form: the same loop on blocks of 100 rows; a stop ends only its block. */
  function DeliverBlocks<Row>(seen: seq<Row>, rows: seq<Row>, stops: Handler<Row>): (all: seq<Row>)
    ensures seen <= all
    ensures rows != [] ==> |all| > |seen|
    decreases |rows|
  {
    if rows == [] then seen
    else DeliverBlocks(Deliver(seen, rows[..Block(rows)], stops), rows[Block(rows)..], stops)
  }

  /** The number of rows before the last block. */
  function BeforeLast(n: nat): int {
    (n - 1) / FETCH * FETCH
  }

  lemma BeforeLastIs(n: nat)
    ensures n <= FETCH ==> BeforeLast(n) <= 0
    ensures n > FETCH ==> BeforeLast(n) == FETCH + BeforeLast(n - FETCH) >= FETCH
  {
  }

  lemma {:induction false} DeliverSplit<Row>(seen: seq<Row>, a: seq<Row>, b: seq<Row>, stops: Handler<Row>)
    ensures var first := Deliver(seen, a, stops);
            Deliver(seen, a + b, stops) ==
            if first == seen + a && !(a != [] && stops(first)) then Deliver(first, b, stops) else first
    decreases |a|
  {
    if a == [] {
      assert a + b == b && seen + a == seen;
    } else {
      var seen' := seen + [a[0]];
      assert (a + b)[1..] == a[1..] + b;
      if !stops(seen') {
        DeliverSplit(seen', a[1..], b, stops);
        assert seen' + a[1..] == seen + a;
        if a[1..] == [] { assert Deliver(seen', a[1..], stops) == seen'; }
      } else {
        assert |a| == 1 ==> seen + a == seen';
      }
    }
  }

  /** The handler lets the first n rows pass. */
  ghost predicate Passes<Row(!new)>(seen: seq<Row>, rows: seq<Row>, n: int, stops: Handler<Row>)
    requires n <= |rows|
  {
    forall k :: 0 < k <= n ==> !stops(seen + rows[..k])
  }

  /** The plain loop gets to the end of `rows` and on exactly when the handler lets all pass. */
  lemma {:induction false} DeliveredWhole<Row(!new)>(seen: seq<Row>, rows: seq<Row>, stops: Handler<Row>)
    ensures Deliver(seen, rows, stops) == seen + rows && (rows != [] ==> !stops(seen + rows)) <==>
            Passes(seen, rows, |rows|, stops)
    decreases |rows|
  {
    if rows == [] {
      assert seen + rows == seen;
    } else {
      var seen' := seen + [rows[0]];
      assert rows[..1] == [rows[0]] && rows[..|rows|] == rows;
      if !stops(seen') {
        DeliveredWhole(seen', rows[1..], stops);
        assert seen' + rows[1..] == seen + rows;
        PassesShift(seen, rows[..1], rows[1..], |rows| - 1, stops);
        assert rows[..1] + rows[1..] == rows;
      }
    }
  }

  lemma PassesShift<Row(!new)>(seen: seq<Row>, a: seq<Row>, b: seq<Row>, n: nat, stops: Handler<Row>)
    requires n <= |b|
    ensures Passes(seen, a + b, |a| + n, stops) <==>
            Passes(seen, a + b, |a|, stops) && Passes(seen + a, b, n, stops)
  {
    forall k | 0 < k <= n ensures seen + a + b[..k] == seen + (a + b)[..|a| + k] {
      assert (a + b)[..|a| + k] == a + b[..k];
    }
    if Passes(seen, a + b, |a|, stops) && Passes(seen + a, b, n, stops) {
      forall k | 0 < k <= |a| + n ensures !stops(seen + (a + b)[..k]) {
        if k > |a| { assert !stops(seen + a + b[..k - |a|]); }
      }
    }
  }

  lemma PassesFront<Row(!new)>(seen: seq<Row>, a: seq<Row>, b: seq<Row>, stops: Handler<Row>)
    ensures Passes(seen, a + b, |a|, stops) <==> Passes(seen, a, |a|, stops)
  {
    forall k | 0 < k <= |a| ensures (a + b)[..k] == a[..k] { }
  }

  lemma SingleBlock<Row>(seen: seq<Row>, rows: seq<Row>, stops: Handler<Row>)
    requires |rows| <= FETCH
    ensures DeliverBlocks(seen, rows, stops) == Deliver(seen, rows, stops)
  {
    if rows != [] {
      assert rows[..Block(rows)] == rows;
      assert rows[Block(rows)..] == [];
    }
  }

  /** The cursor form delivers what the plain form does exactly when the handler lets all
      rows before the last block pass: one that stops earlier is called again for the next
      block. */
  lemma {:induction false} BlocksAgree<Row(!new)>(seen: seq<Row>, rows: seq<Row>, stops: Handler<Row>)
    ensures BeforeLast(|rows|) <= |rows|
    ensures DeliverBlocks(seen, rows, stops) == Deliver(seen, rows, stops) <==>
            Passes(seen, rows, BeforeLast(|rows|), stops)
    decreases |rows|
  {
    BeforeLastIs(|rows|);
    if |rows| <= FETCH {
      SingleBlock(seen, rows, stops);
    } else {
      var a, b := rows[..FETCH], rows[FETCH..];
      assert rows == a + b;
      var first := Deliver(seen, a, stops);
      DeliverSplit(seen, a, b, stops);
      assert DeliverBlocks(seen, rows, stops) == DeliverBlocks(first, b, stops);
      DeliveredWhole(seen, a, stops);
      PassesFront(seen, a, b, stops);
      BlocksAgree(first, b, stops);
      assert BeforeLast(|b|) >= 0;
      PassesShift(seen, a, b, BeforeLast(|b|), stops);
    }
  }

  /** The smallest case: 101 rows and a handler that stops at every row.  The plain query
      delivers one row, the cursor form two. */
  lemma StopEndsOnlyItsBlock<Row>(rows: seq<Row>)
    requires |rows| == 101
    ensures var always := (s: seq<Row>) => true;
            && Deliver([], rows, always) == [rows[0]]
            && DeliverBlocks([], rows, always) == [rows[0], rows[100]]
  {
    var always := (s: seq<Row>) => true;
    var rest := rows[FETCH..];
    assert rest == [rows[FETCH]] && rows[..FETCH][0] == rows[0];
    assert Deliver([], rows[..FETCH], always) == [rows[0]];
    assert DeliverBlocks([], rows, always) == DeliverBlocks([rows[0]], rest, always);
    SingleBlock([rows[0]], rest, always);
    assert Deliver([rows[0]], rest, always) == [rows[0]] + [rows[FETCH]];
  }

  /** A handler that never stops gets every row once, in order, from either form. */
  lemma {:induction false} EverythingDelivered<Row>(seen: seq<Row>, rows: seq<Row>, stops: Handler<Row>)
    requires forall s :: !stops(s)
    ensures Deliver(seen, rows, stops) == seen + rows
    decreases |rows|
  {
    if rows == [] {
      assert seen + rows == seen;
    } else {
      EverythingDelivered(seen + [rows[0]], rows[1..], stops);
      assert seen + [rows[0]] + rows[1..] == seen + rows;
    }
  }

  lemma {:induction false} BlocksDeliverEverything<Row>(seen: seq<Row>, rows: seq<Row>, stops: Handler<Row>)
    requires forall s :: !stops(s)
    ensures DeliverBlocks(seen, rows, stops) == seen + rows
    decreases |rows|
  {
    if rows == [] {
      assert seen + rows == seen;
    } else {
      var n := Block(rows);
      EverythingDelivered(seen, rows[..n], stops);
      BlocksDeliverEverything(seen + rows[..n], rows[n..], stops);
      assert seen + rows[..n] + rows[n..] == seen + rows;
    }
  }

  // ---------------------------------------------------------------- transactions

  datatype Command = Begin | Commit | Declare | Fetch | CloseCursor | Statement

  /** The server: whether a transaction is open, and whether all commands were in place.
      BEGIN inside a transaction and COMMIT outside draw a warning and go on, a cursor
      outside is an error. */
  datatype Server = Server(open: bool, clean: bool)

  function Obey(s: Server, c: Command): Server {
    match c
    case Begin => Server(true, s.clean && !s.open)
    case Commit => Server(false, s.clean && s.open)
    case Statement => s
    case _ => Server(s.open, s.clean && s.open)
  }

  function Replay(log: seq<Command>): Server {
    if log == [] then Server(false, true) else Obey(Replay(log[..|log| - 1]), log[|log| - 1])
  }

  lemma ReplaySnoc(log: seq<Command>, c: Command)
    ensures Replay(log + [c]) == Obey(Replay(log), c)
  {
  }

  /** What the server objects to: BEGIN inside a transaction, COMMIT and cursors outside. */
  lemma MisplacedCommands(log: seq<Command>)
    ensures Replay(log).open ==> && !Replay(log + [Begin]).clean
                                 && Replay(log + [Commit]) == Server(false, Replay(log).clean)
    ensures !Replay(log).open ==> && !Replay(log + [Commit]).clean && !Replay(log + [Declare]).clean
                                  && !Replay(log + [Fetch]).clean && !Replay(log + [CloseCursor]).clean
                                  && Replay(log + [Begin]) == Server(true, Replay(log).clean)
    ensures Replay(log + [Statement]) == Replay(log)
  {
    ReplaySnoc(log, Begin);
    ReplaySnoc(log, Commit);
    ReplaySnoc(log, Declare);
    ReplaySnoc(log, Fetch);
    ReplaySnoc(log, CloseCursor);
    ReplaySnoc(log, Statement);
  }

  const CLEAR: seq<Command> := [Begin, Statement, Statement, Statement, Commit]

  /** clear_cache sends its own BEGIN and COMMIT, whatever m_transaction says: that is well
      bracketed exactly when no transaction is open; either way none is open afterwards. */
  lemma ClearCacheBracketed(log: seq<Command>)
    ensures Replay(log + CLEAR) == Server(false, Replay(log).clean && !Replay(log).open)
  {
    var l1 := log + [Begin];
    var l2 := l1 + [Statement];
    var l3 := l2 + [Statement];
    var l4 := l3 + [Statement];
    ReplaySnoc(log, Begin);
    ReplaySnoc(l1, Statement);
    ReplaySnoc(l2, Statement);
    ReplaySnoc(l3, Statement);
    ReplaySnoc(l4, Commit);
    assert l4 + [Commit] == log + CLEAR;
  }

  const MAX_CHANGES := 25000

  datatype SessionOp<Row> = Start | End | Insert(records: nat) | ClearCache | BigQuery(rows: seq<Row>)

  /** The value of m_transaction after some calls. */
  function FlagAfter<Row>(allow: bool, flag: bool, ops: seq<SessionOp<Row>>): bool {
    if ops == [] then flag
    else
      var before := FlagAfter(allow, flag, ops[..|ops| - 1]);
      match ops[|ops| - 1]
      case Start => allow || before
      case End => !allow && before
      case _ => before
  }

  /** No clear_cache comes inside a transaction. */
  ghost predicate ClearsOutside<Row>(allow: bool, flag: bool, ops: seq<SessionOp<Row>>) {
    forall i :: 0 <= i < |ops| && ops[i].ClearCache? ==> !FlagAfter(allow, flag, ops[..i])
  }

  lemma ClearsOutsideSnoc<Row>(allow: bool, flag: bool, ops: seq<SessionOp<Row>>, i: nat)
    requires i < |ops|
    ensures ClearsOutside(allow, flag, ops[..i + 1]) <==>
            ClearsOutside(allow, flag, ops[..i]) && (ops[i].ClearCache? ==> !FlagAfter(allow, flag, ops[..i]))
  {
    assert ops[..i + 1][..i] == ops[..i];
    forall k | 0 <= k < i ensures ops[..i + 1][..k] == ops[..i][..k] { }
    if ClearsOutside(allow, flag, ops[..i + 1]) {
      assert ops[..i + 1][i] == ops[i];
      forall k | 0 <= k < i && ops[..i][k].ClearCache? ensures !FlagAfter(allow, flag, ops[..i][..k]) {
        assert ops[..i + 1][k] == ops[..i][k];
      }
    }
  }

  class PgConnection<Row> {
    const allowTransactions: bool
    var transaction: bool
    var changes: nat
    var log: seq<Command>
    var cursor: seq<Row>               // rows the server has not handed out yet
    var result: seq<Row>
    var numRows: int
    var rowNumber: int
    var numFields: nat
    var rowsSize: nat                  // size of the m_rows buffer, 0 when not allocated

    constructor (allow: bool)
      ensures Valid() && !transaction && allowTransactions == allow && log == []
    {
      allowTransactions := allow;
      transaction, changes, log, cursor, result := false, 0, [], [], [];
      numRows, rowNumber, numFields, rowsSize := 0, 0, 0, 0;
    }

    /** m_transaction is what the server sees, and all was well bracketed. */
    ghost predicate Valid()
      reads this
    {
      Replay(log) == Server(transaction, true)
    }

    /** The server had to warn or refuse. */
    ghost predicate Disturbed()
      reads this
    {
      !Replay(log).clean
    }

    /** sql_query: run a command and make its answer the current result. */
    method SqlQuery(c: Command, answer: seq<Row>, fields: nat)
      modifies this`log, this`result, this`numRows, this`rowNumber, this`numFields
      ensures log == old(log) + [c] && result == answer
      ensures numRows == |answer| && rowNumber == 0 && numFields == fields
      ensures Replay(log) == Obey(old(Replay(log)), c)
    {
      ReplaySnoc(log, c);
      log := log + [c];
      numRows, rowNumber := -1, -1;
      result := answer;
      numFields, numRows, rowNumber := fields, |answer|, 0;
    }

    /** sql_fetch_row */
    method SqlFetchRow() returns (row: Option<Row>)
      requires numRows == |result| && 0 <= rowNumber <= numRows
      requires rowsSize < numFields ==> rowNumber == 0
      modifies this`rowNumber, this`rowsSize
      ensures if numFields > 0 && old(rowNumber) < numRows
              then row == Some(result[old(rowNumber)]) && rowNumber == old(rowNumber) + 1
              else row == None && rowNumber == old(rowNumber)
      ensures numFields > 0 ==> rowsSize >= numFields
      ensures rowsSize >= old(rowsSize)
    {
      if numFields == 0 {
        return None;
      }
      if rowsSize < numFields {
        rowsSize := numFields;
        rowNumber := 0;
      }
      if rowNumber >= 0 && rowNumber < numRows {
        row := Some(result[rowNumber]);
        rowNumber := rowNumber + 1;
      } else {
        row := None;
      }
    }

    /** The inner loop over the current result. */
    method DeliverResult(stops: Handler<Row>, seen: seq<Row>) returns (all: seq<Row>)
      requires numRows == |result| && rowNumber == 0 && numFields > 0
      modifies this`rowNumber, this`rowsSize
      ensures all == Deliver(seen, result, stops)
    {
      all := seen;
      while true
        invariant 0 <= rowNumber <= numRows == |result|
        invariant rowsSize < numFields ==> rowNumber == 0
        invariant Deliver(seen, result, stops) == Deliver(all, result[rowNumber..], stops)
        decreases numRows - rowNumber
      {
        var row := SqlFetchRow();
        if row == None {
          break;
        }
        all := all + [row.value];
        assert result[rowNumber - 1..][1..] == result[rowNumber..];
        if stops(all) {
          break;
        }
      }
    }

    /** bdb_sql_query with a handler. */
    method PlainQuery(rows: seq<Row>, fields: nat, stops: Handler<Row>) returns (all: seq<Row>)
      requires Valid() && fields > 0
      modifies this
      ensures Valid() && transaction == old(transaction)
      ensures all == Deliver([], rows, stops)
    {
      SqlQuery(Statement, rows, fields);
      all := DeliverResult(stops, []);
    }

    /** The FETCH loop of bdb_big_sql_query, up to and with the empty answer. */
    method FetchAll(fields: nat, stops: Handler<Row>) returns (all: seq<Row>)
      requires Replay(log).open && fields > 0
      modifies this`log, this`cursor, this`result, this`numRows, this`rowNumber, this`numFields, this`rowsSize
      ensures Replay(log) == old(Replay(log)) && cursor == []
      ensures all == DeliverBlocks([], old(cursor), stops)
    {
      all := [];
      var more := true;
      while more
        invariant Replay(log) == old(Replay(log))
        invariant DeliverBlocks([], old(cursor), stops) == DeliverBlocks(all, cursor, stops)
        invariant !more ==> cursor == []
        decreases |cursor|, more
      {
        var n := Block(cursor);
        SqlQuery(Fetch, cursor[..n], fields);
        cursor := cursor[n..];
        all := DeliverResult(stops, all);
        more := numRows > 0;
      }
    }

    /** bdb_big_sql_query for a SELECT with a handler; None when DECLARE is refused. */
    method BigSqlQuery(rows: seq<Row>, fields: nat, stops: Handler<Row>) returns (all: Option<seq<Row>>)
      requires fields > 0
      modifies this
      ensures transaction == old(transaction)
      ensures old(Valid()) ==> Valid()
      ensures old(Disturbed()) ==> Disturbed()
      ensures old(transaction) ==> Replay(log).open == old(Replay(log)).open
      ensures all == if old(transaction) && !old(Replay(log)).open then None
                     else Some(DeliverBlocks([], rows, stops))
    {
      var inTransaction := transaction;
      if !inTransaction {
        SqlQuery(Begin, [], 0);
      }
      var accepted := Replay(log).open;
      SqlQuery(Declare, [], 0);
      all := None;
      if accepted {
        cursor := rows;
        var got := FetchAll(fields, stops);
        all := Some(got);
        SqlQuery(CloseCursor, [], 0);
        rowsSize, numRows, numFields := 0, 0, 0;
      }
      if !inTransaction {
        SqlQuery(Commit, [], 0);
      }
    }

    /** bdb_end_transaction */
    method EndTransaction()
      modifies this
      ensures old(Valid()) ==> Valid()
      ensures old(Disturbed()) ==> Disturbed()
      ensures allowTransactions ==> !transaction && changes == 0
      ensures !allowTransactions ==> transaction == old(transaction)
      ensures log == if allowTransactions && old(transaction) then old(log) + [Commit] else old(log)
    {
      if allowTransactions {
        if transaction {
          SqlQuery(Commit, [], 0);
          transaction := false;
        }
        changes := 0;
      }
    }

    /** bdb_start_transaction: at most 25000 changes go into one transaction. */
    method StartTransaction()
      modifies this
      ensures old(Valid()) ==> Valid()
      ensures old(Disturbed()) ==> Disturbed()
      ensures allowTransactions ==> transaction
      ensures !allowTransactions ==> transaction == old(transaction)
      ensures log == if !allowTransactions || (old(transaction) && old(changes) <= 25000) then old(log)
                     else if old(transaction) then old(log) + [Commit, Begin]
                     else old(log) + [Begin]
    {
      if allowTransactions {
        if transaction && changes > MAX_CHANGES {
          EndTransaction();
        }
        if !transaction {
          SqlQuery(Begin, [], 0);
          transaction := true;
        }
      }
    }

    /** sql_insert_autokey_record, so many times: each record counts as a change. */
    method InsertRecords(records: nat)
      modifies this`log, this`result, this`numRows, this`rowNumber, this`numFields, this`changes
      ensures Replay(log) == old(Replay(log)) && changes == old(changes) + records
      ensures |log| == |old(log)| + records
    {
      for i := 0 to records
        invariant Replay(log) == old(Replay(log)) && changes == old(changes) + i && |log| == |old(log)| + i
      {
        SqlQuery(Statement, [], 0);
        changes := changes + 1;
      }
    }

    /** clear_cache, as far as the connection goes. */
    method ClearCache()
      modifies this
      ensures transaction == old(transaction) && log == old(log) + CLEAR && !Replay(log).open
      ensures old(Valid()) ==> if transaction then Disturbed() else Valid()
      ensures old(Disturbed()) ==> Disturbed()
    {
      ClearCacheBracketed(log);
      SqlQuery(Begin, [], 0);
      SqlQuery(Statement, [], 0);
      SqlQuery(Statement, [], 0);
      SqlQuery(Statement, [], 0);
      SqlQuery(Commit, [], 0);
      assert log == old(log) + CLEAR;
    }

    /** A run of starts, ends, inserts, clears and big queries keeps BEGIN and COMMIT well bracketed
        and m_transaction right exactly when no clear comes inside a transaction; up to the
        first that does, each query delivers all its rows to a handler that does not stop. */
    method Run(ops: seq<SessionOp<Row>>, fields: nat) returns (answers: seq<Option<seq<Row>>>)
      requires Valid() && fields > 0
      modifies this
      ensures transaction == FlagAfter(allowTransactions, old(transaction), ops)
      ensures Valid() <==> ClearsOutside(allowTransactions, old(transaction), ops)
      ensures |answers| == |ops|
      ensures forall i | 0 <= i < |ops| && ClearsOutside(allowTransactions, old(transaction), ops[..i])
                :: ops[i].BigQuery? ==> answers[i] == Some(ops[i].rows)
    {
      answers := [];
      var never := (s: seq<Row>) => false;
      ghost var flag := transaction;
      for i := 0 to |ops|
        invariant |answers| == i && transaction == FlagAfter(allowTransactions, flag, ops[..i])
        invariant if ClearsOutside(allowTransactions, flag, ops[..i]) then Valid() else Disturbed()
        invariant forall k | 0 <= k < i && ClearsOutside(allowTransactions, flag, ops[..k])
                    :: ops[k].BigQuery? ==> answers[k] == Some(ops[k].rows)
      {
        ClearsOutsideSnoc(allowTransactions, flag, ops, i);
        assert ops[..i + 1][..i] == ops[..i];
        var answer := None;
        match ops[i] {
          case Start => StartTransaction();
          case End => EndTransaction();
          case Insert(records) => InsertRecords(records);
          case ClearCache => ClearCache();
          case BigQuery(rows) =>
            answer := BigSqlQuery(rows, fields, never);
            BlocksDeliverEverything([], rows, never);
            assert [] + rows == rows;
        }
        answers := answers + [answer];
      }
      assert ops[..|ops|] == ops;
    }
  }

  /** The smallest case: after a start and a clear_cache the connection believes in a
      transaction that the server has closed, and the next big query is refused. */
  method ClearInsideTransaction<Row>(rows: seq<Row>, fields: nat) returns (c: PgConnection<Row>, all: Option<seq<Row>>)
    requires fields > 0
    ensures fresh(c) && c.transaction && !Replay(c.log).open && all == None
  {
    c := new PgConnection(true);
    c.StartTransaction();
    c.ClearCache();
    all := c.BigSqlQuery(rows, fields, (s: seq<Row>) => false);
  }
}
