/**
 The batch connection of a job: sql_batch_start, sql_batch_insert and sql_batch_end with
 MySQL's 32-row statement buffer and PostgreSQL's COPY stream,
 bdb_create_batch_file_attributes_record with its intermediate flush, and
 bdb_write_batch_file_records.
 */
module BatchSessions {
  import opened CatalogTables
  import opened PathStrings
  import opened BatchInserts
  import opened CopyTexts

  const MYSQL_CHANGES_PER_BATCH_INSERT := 32
  const MAX_CHANGES := 500000

  /** Filling Path and then joining, as one step on the abstract catalog. */
  lemma BulkStep(rows: map<PathId, string>, fs: seq<StoredFile>, rows': map<PathId, string>,
                 fs': seq<StoredFile>, batch: seq<NamedFile>)
    requires rows'.Values == rows.Values + PathsOf(batch)
    requires ResolveAll(rows', fs') == ResolveAll(rows, fs) + batch
    ensures Abstract(rows', fs') == AddAll(Abstract(rows, fs), batch)
  {
    AddAllAddsEach(Abstract(rows, fs), batch);
  }

  // ---------------------------------------------------------------- COPY

  /** The rows the server takes from a COPY stream: all, or none if it refuses a line. */
  function Copied(stream: string): seq<NamedFile> {
    match Read(stream)
    case Some(rows) => rows
    case None => []
  }

  /** What reaches the batch table of the rows handed over. */
  function Arrives(backend: Backend, rows: seq<NamedFile>): seq<NamedFile> {
    if backend.PostgreSQL? then Copied(Stream(rows)) else rows
  }

  /** COPY needs plain text; the other backends take values. */
  predicate Takes(backend: Backend, f: NamedFile) {
    backend.PostgreSQL? ==> IsPlainRow(f)
  }

  predicate TakesAll(backend: Backend, rows: seq<NamedFile>) {
    forall i :: 0 <= i < |rows| ==> Takes(backend, rows[i])
  }

  /** Rows arrive as they were, or the text of what arrives is shorter. */
  lemma ArrivesOrShrinks(backend: Backend, rows: seq<NamedFile>)
    ensures TakesAll(backend, rows) ==> Arrives(backend, rows) == rows
    ensures !TakesAll(backend, rows) ==> EscapedLengths(Arrives(backend, rows)) < EscapedLengths(rows)
  {
    if backend.PostgreSQL? {
      StreamRoundTrip(rows);
      StreamLength(rows);
      ReadLength(Stream(rows));
      assert AllPlain(rows) <==> TakesAll(backend, rows);
    }
  }

  lemma {:induction false} TotalConcat<T>(weight: T -> nat, a: seq<T>, b: seq<T>)
    ensures Total(weight, a + b) == Total(weight, a) + Total(weight, b)
  {
    if a == [] {
      assert a + b == b;
    } else {
      TotalConcat(weight, a[1..], b);
      assert (a + b)[1..] == a[1..] + b;
    }
  }

  lemma TotalWithout<T>(weight: T -> nat, s: seq<T>, k: nat)
    requires k < |s|
    ensures Total(weight, s) == weight(s[k]) + Total(weight, s[..k] + s[k + 1..])
  {
    var front, back := s[..k], s[k + 1..];
    var tail := [s[k]] + back;
    assert s == front + tail && tail[1..] == back;
    TotalConcat(weight, front, back);
    TotalConcat(weight, front, tail);
  }

  lemma BagWithout<T>(s: seq<T>, k: nat)
    requires k < |s|
    ensures multiset(s[..k] + s[k + 1..]) == multiset(s) - multiset{s[k]}
  {
    assert s == s[..k] + [s[k]] + s[k + 1..];
  }

  /** A total does not depend on the order. */
  lemma {:induction false} TotalOfBag<T>(weight: T -> nat, a: seq<T>, b: seq<T>)
    requires multiset(a) == multiset(b)
    ensures Total(weight, a) == Total(weight, b)
    decreases |a|
  {
    if a == [] {
      assert |multiset(b)| == 0;
    } else {
      assert a[0] in multiset(b);
      var k :| 0 <= k < |b| && b[k] == a[0];
      var rest := b[..k] + b[k + 1..];
      assert a[..0] + a[1..] == a[1..];
      BagWithout(a, 0);
      BagWithout(b, k);
      TotalOfBag(weight, a[1..], rest);
      TotalWithout(weight, b, k);
    }
  }

  lemma {:induction false} AddAllConcat(c: AbstractCatalog, a: seq<NamedFile>, b: seq<NamedFile>)
    ensures AddAll(c, a + b) == AddAll(AddAll(c, a), b)
  {
    if b == [] {
      assert a + b == a;
    } else {
      AddAllConcat(c, a, b[..|b| - 1]);
      assert (a + b)[..|a + b| - 1] == a + b[..|b| - 1];
    }
  }

  /** The books of a session: what landed in the catalog and what is pending make up what
      was given, or the text has become shorter for good. */
  ghost predicate Balanced(backend: Backend, landed: seq<NamedFile>, pending: seq<NamedFile>, given: seq<NamedFile>) {
    if landed + pending == given then TakesAll(backend, landed)
    else EscapedLengths(landed + pending) < EscapedLengths(given) && !TakesAll(backend, given)
  }

  lemma FlushBalanced(backend: Backend, landed: seq<NamedFile>, pending: seq<NamedFile>, given: seq<NamedFile>)
    requires Balanced(backend, landed, pending, given)
    ensures Balanced(backend, landed + Arrives(backend, pending), [], given)
  {
    var got := Arrives(backend, pending);
    assert landed + got + [] == landed + got;
    ArrivesOrShrinks(backend, pending);
    TotalConcat(EscapedLength, landed, pending);
    TotalConcat(EscapedLength, landed, got);
    if landed + pending == given && !TakesAll(backend, pending) {
      var i :| 0 <= i < |pending| && !Takes(backend, pending[i]);
      assert given[|landed| + i] == pending[i];
    }
  }

  lemma GiveBalanced(backend: Backend, landed: seq<NamedFile>, pending: seq<NamedFile>,
                     given: seq<NamedFile>, f: NamedFile)
    requires Balanced(backend, landed, pending, given)
    ensures Balanced(backend, landed, pending + [f], given + [f])
  {
    assert landed + (pending + [f]) == landed + pending + [f];
    TotalConcat(EscapedLength, landed + pending, [f]);
    TotalConcat(EscapedLength, given, [f]);
    if landed + pending != given {
      assert landed + pending + [f] != given + [f];
      var i :| 0 <= i < |given| && !Takes(backend, given[i]);
      assert (given + [f])[i] == given[i];
    }
  }

  lemma SameRest<T>(c: multiset<T>, a: multiset<T>, b: multiset<T>)
    requires c + a == c + b
    ensures a == b
  {
    assert a == c + a - c && b == c + b - c;
  }

  /** At the end the catalog holds what was given exactly when the backend takes it all. */
  lemma ClosedBalance(backend: Backend, c: AbstractCatalog, landed: seq<NamedFile>, given: seq<NamedFile>)
    requires Balanced(backend, landed, [], given)
    ensures AddAll(c, landed) == AddAll(c, given) <==> TakesAll(backend, given)
  {
    assert landed + [] == landed;
    if AddAll(c, landed) == AddAll(c, given) {
      AddAllAddsEach(c, landed);
      AddAllAddsEach(c, given);
      SameRest(c.files, multiset(landed), multiset(given));
      TotalOfBag(EscapedLength, landed, given);
    }
  }

  /** What a session with some rows pending has been given after i records. */
  ghost function Given(pending: seq<NamedFile>, ars: seq<Attributes>, i: nat): seq<NamedFile>
    requires i <= |ars|
  {
    pending + NamedAll(ars[..i])
  }

  lemma GivenSnoc(pending: seq<NamedFile>, ars: seq<Attributes>, i: nat)
    requires i < |ars|
    ensures Given(pending, ars, i + 1) == Given(pending, ars, i) + [Named(ars[i])]
  {
    assert ars[..i + 1][..i] == ars[..i];
  }

  lemma OpenBooks(backend: Backend, pending: seq<NamedFile>, ars: seq<Attributes>)
    ensures Balanced(backend, [], pending, Given(pending, ars, 0))
  {
  }

  lemma CloseBooks(backend: Backend, c: AbstractCatalog, pending: seq<NamedFile>,
                   landed: seq<NamedFile>, ars: seq<Attributes>)
    requires Balanced(backend, landed, [], Given(pending, ars, |ars|))
    ensures AddAll(c, landed) == RecordAll(AddAll(c, pending), ars) <==> TakesAll(backend, pending + NamedAll(ars))
  {
    assert ars[..|ars|] == ars;
    ClosedBalance(backend, c, landed, pending + NamedAll(ars));
    RecordAllIsAddAll(AddAll(c, pending), ars);
    AddAllConcat(c, pending, NamedAll(ars));
  }

  class BatchSession {
    const cat: FileCatalog
    const backend: Backend
    var batchStarted: bool
    var changes: nat
    var cmd: seq<NamedFile>           // the rows of MySQL's INSERT statement under construction
    var stream: string                // what PostgreSQL's COPY was sent
    var batch: seq<NamedFile>         // the temporary table
    ghost var sent: seq<NamedFile>    // the rows the stream was made of

    constructor (cat: FileCatalog)
      requires cat.Valid()
      ensures Valid() && this.cat == cat && backend == cat.db.backend && !batchStarted
    {
      this.cat, backend := cat, cat.db.backend;
      batchStarted, changes, cmd, stream, batch, sent := false, 0, [], "", [], [];
    }

    ghost predicate Valid()
      reads this, cat, cat.db
    {
      && cat.Valid()
      && (batchStarted && backend.MySQL? ==> changes < MYSQL_CHANGES_PER_BATCH_INSERT)
      && (batchStarted && backend.PostgreSQL? ==> stream == Stream(sent))
    }

    /** Rows taken over and not yet in the File table, oldest first. */
    ghost function Pending(): seq<NamedFile>
      reads this
    {
      if !batchStarted then []
      else if backend.PostgreSQL? then sent
      else if backend.MySQL? && changes > 0 then batch + cmd else batch
    }

    /** What the catalog will hold once everything is written. */
    ghost function Promised(): AbstractCatalog
      reads this, cat, cat.db
    {
      AddAll(cat.Contents(), Pending())
    }

    method SqlBatchStart()
      requires Valid() && !batchStarted
      modifies this
      ensures Valid() && batchStarted && Pending() == []
    {
      batch, stream, sent := [], "", [];
      if backend.MySQL? {
        changes := 0;
      }
      batchStarted := true;
    }

    /** sql_batch_insert: MySQL collects rows and sends every 32nd time, PostgreSQL sends
        a line of text, SQLite inserts the row. */
    method SqlBatchInsert(row: NamedFile)
      requires Valid() && batchStarted
      modifies this
      ensures Valid() && batchStarted
      ensures Pending() == old(Pending()) + [row]
      ensures backend.MySQL? ==>
                if old(changes) == 31 then changes == 0 && batch == old(Pending()) + [row]
                else changes == old(changes) + 1 && batch == old(batch)
    {
      match backend
      case MySQL =>
        if changes == 0 {
          cmd := [row];
        } else {
          cmd := cmd + [row];
        }
        changes := changes + 1;
        if changes % MYSQL_CHANGES_PER_BATCH_INSERT == 0 {
          batch := batch + cmd;
          changes := 0;
        }
      case PostgreSQL =>
        LinesSnoc(Line, sent, row);
        stream := stream + Line(row);
        sent := sent + [row];
        changes := changes + 1;
      case SQLite =>
        batch := batch + [row];
    }

    /** sql_batch_end: MySQL sends what is still in the buffer and leaves `changes` alone;
        for PostgreSQL the table gets what COPY makes of the stream, and a refused stream
        is not reported. */
    method SqlBatchEnd()
      requires Valid() && batchStarted
      modifies this`batch
      ensures batch == Arrives(backend, old(Pending()))
    {
      if backend.MySQL? && changes != 0 {
        batch := batch + cmd;
      } else if backend.PostgreSQL? {
        batch := Copied(stream);
      }
    }

    /** bdb_write_batch_file_records: the catalog gets what arrives of everything pending. */
    method WriteBatchFileRecords()
      requires Valid()
      modifies this`batch, this`batchStarted, cat`files, cat.db
      ensures Valid() && !batchStarted && Pending() == []
      ensures cat.Contents() == AddAll(old(cat.Contents()), Arrives(backend, old(Pending())))
    {
      if !batchStarted {
        ArrivesOrShrinks(backend, []);
        return;
      }
      ghost var rows, files := cat.db.rows, cat.files;
      SqlBatchEnd();
      cat.FillPaths(batch);
      cat.InsertBatch(batch);
      BulkStep(rows, files, cat.db.rows, cat.files, batch);
      batch := [];                     // DROP TABLE batch
      batchStarted := false;
    }

    /** bdb_create_batch_file_attributes_record; `flushed` when more than 500000 changes
        were pending. */
    method CreateBatchFileAttributesRecord(ar: Attributes) returns (flushed: bool)
      requires Valid()
      modifies this, cat`files, cat.db
      ensures Valid() && batchStarted && (flushed <==> old(batchStarted) && old(changes) > 500000)
      ensures Pending() == (if flushed then [] else old(Pending())) + [Named(ar)]
      ensures cat.Contents() == if flushed then AddAll(old(cat.Contents()), Arrives(backend, old(Pending())))
                                else old(cat.Contents())
    {
      flushed := batchStarted && changes > MAX_CHANGES;
      if flushed {
        WriteBatchFileRecords();
        changes := 0;
      }
      if !batchStarted {
        SqlBatchStart();
      }
      var path, name := SplitPathAndFile(ar.fname);
      SplitIs(ar.fname, path, name);
      SqlBatchInsert(Named(ar).(path := path, name := name));
    }

    /** One record given, in the books. */
    method Give(ar: Attributes, ghost c: AbstractCatalog, ghost landed: seq<NamedFile>, ghost given: seq<NamedFile>)
      returns (ghost landed': seq<NamedFile>)
      requires Valid() && cat.Contents() == AddAll(c, landed) && Balanced(backend, landed, Pending(), given)
      modifies this, cat`files, cat.db
      ensures Valid() && cat.Contents() == AddAll(c, landed')
      ensures Balanced(backend, landed', Pending(), given + [Named(ar)])
    {
      ghost var pending := Pending();
      AddAllConcat(c, landed, Arrives(backend, pending));
      FlushBalanced(backend, landed, pending, given);
      GiveBalanced(backend, landed, pending, given, Named(ar));
      GiveBalanced(backend, landed + Arrives(backend, pending), [], given, Named(ar));
      var flushed := CreateBatchFileAttributesRecord(ar);
      landed' := if flushed then landed + Arrives(backend, pending) else landed;
    }

    /** A flush, in the books. */
    method Flush(ghost c: AbstractCatalog, ghost landed: seq<NamedFile>, ghost given: seq<NamedFile>)
      returns (ghost landed': seq<NamedFile>)
      requires Valid() && cat.Contents() == AddAll(c, landed) && Balanced(backend, landed, Pending(), given)
      modifies this`batch, this`batchStarted, cat`files, cat.db
      ensures Valid() && !batchStarted && Pending() == []
      ensures cat.Contents() == AddAll(c, landed') && Balanced(backend, landed', [], given)
    {
      landed' := landed + Arrives(backend, Pending());
      AddAllConcat(c, landed, Arrives(backend, Pending()));
      FlushBalanced(backend, landed, Pending(), given);
      WriteBatchFileRecords();
    }

    /** A whole job: records in any number, flushed at any points, then the final write.
        The catalog ends as if each record had been created on its own, exactly when the
        backend takes every record as it is. */
    method WriteAll(ars: seq<Attributes>, flushBefore: set<nat>)
      requires Valid()
      modifies this, cat`files, cat.db
      ensures Valid() && !batchStarted
      ensures cat.Contents() == RecordAll(old(Promised()), ars) <==>
              TakesAll(backend, old(Pending()) + NamedAll(ars))
      ensures TakesAll(backend, old(Pending()) + NamedAll(ars)) ==>
                cat.Contents().files == old(Promised()).files + multiset(NamedAll(ars))
    {
      ghost var c, pending, landed := cat.Contents(), Pending(), [];
      OpenBooks(backend, pending, ars);
      for i := 0 to |ars|
        invariant Valid() && cat.Contents() == AddAll(c, landed)
        invariant Balanced(backend, landed, Pending(), Given(pending, ars, i))
      {
        if i in flushBefore {
          landed := Flush(c, landed, Given(pending, ars, i));
        }
        GivenSnoc(pending, ars, i);
        landed := Give(ars[i], c, landed, Given(pending, ars, i));
      }
      landed := Flush(c, landed, Given(pending, ars, |ars|));
      CloseBooks(backend, c, pending, landed, ars);
      RecordAllAddsEach(AddAll(c, pending), ars);
    }
  }
}
