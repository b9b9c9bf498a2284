/**
 Two ways to store file attributes: record by record, and in bulk through the
 temporary table `batch`.  Both are proved against one abstract catalog: the set of
 Path strings and the bag of File records with their paths spelled out.
 */
module BatchInserts {
  import opened CatalogTables
  import opened PathStrings
  import opened PathTables

  /** ATTR_DBR: an empty digest stands for none. */
  datatype Attributes = Attributes(fname: string, fileIndex: int, jobId: JobId,
                                   lstat: string, digest: string, deltaSeq: nat)

  /** A row of the batch table; also a File row with its PathId resolved. */
  datatype NamedFile = NamedFile(fileIndex: int, jobId: JobId, path: string, name: string,
                                 lstat: string, md5: string, deltaSeq: nat)

  /** A File row as stored. */
  datatype StoredFile = StoredFile(fileIndex: int, jobId: JobId, pathId: PathId, name: string,
                                   lstat: string, md5: string, deltaSeq: nat)

  function Digest(ar: Attributes): string {
    if ar.digest == "" then "0" else ar.digest
  }

  /** What a record means, whichever way it is stored. */
  function Named(ar: Attributes): NamedFile {
    NamedFile(ar.fileIndex, ar.jobId, PathPart(ar.fname), NamePart(ar.fname), ar.lstat, Digest(ar), ar.deltaSeq)
  }

  /** Field by field: the split name, the digest or "0" for none, the rest as it is. */
  lemma NamedFields(ar: Attributes)
    ensures var f := Named(ar);
            && IsSplit(ar.fname, f.path, f.name)
            && f.fileIndex == ar.fileIndex && f.jobId == ar.jobId && f.lstat == ar.lstat && f.deltaSeq == ar.deltaSeq
            && (ar.digest != "" ==> f.md5 == ar.digest) && (ar.digest == "" ==> f.md5 == "0")
  {
    SplitIs(ar.fname, PathPart(ar.fname), NamePart(ar.fname));
  }

  datatype AbstractCatalog = AbstractCatalog(paths: set<string>, files: multiset<NamedFile>)

  function Add(c: AbstractCatalog, f: NamedFile): AbstractCatalog {
    AbstractCatalog(c.paths + {f.path}, c.files + multiset{f})
  }

  function AddAll(c: AbstractCatalog, fs: seq<NamedFile>): AbstractCatalog {
    if fs == [] then c else Add(AddAll(c, fs[..|fs| - 1]), fs[|fs| - 1])
  }

  /** The specification of storing a sequence of records. */
  function RecordAll(c: AbstractCatalog, ars: seq<Attributes>): AbstractCatalog {
    if ars == [] then c else Add(RecordAll(c, ars[..|ars| - 1]), Named(ars[|ars| - 1]))
  }

  lemma RecordAllSnoc(c: AbstractCatalog, ars: seq<Attributes>, i: nat)
    requires i < |ars|
    ensures RecordAll(c, ars[..i + 1]) == Add(RecordAll(c, ars[..i]), Named(ars[i]))
  {
    assert ars[..i + 1][..i] == ars[..i];
  }

  lemma AddAllSnoc(c: AbstractCatalog, fs: seq<NamedFile>, f: NamedFile)
    ensures AddAll(c, fs + [f]) == Add(AddAll(c, fs), f)
  {
  }

  /** One File row per record, and exactly the paths of the records are new. */
  lemma {:induction false} AddAllAddsEach(c: AbstractCatalog, fs: seq<NamedFile>)
    ensures AddAll(c, fs).files == c.files + multiset(fs)
    ensures AddAll(c, fs).paths == c.paths + PathsOf(fs)
    ensures |AddAll(c, fs).files| == |c.files| + |fs|
  {
    if fs != [] {
      var front, f := fs[..|fs| - 1], fs[|fs| - 1];
      AddAllAddsEach(c, front);
      assert fs == front + [f];
      assert PathsOf(fs) == PathsOf(front) + {f.path};
    }
  }

  function PathsOf(fs: seq<NamedFile>): set<string> {
    set f | f in fs :: f.path
  }

  function NamedAll(ars: seq<Attributes>): seq<NamedFile> {
    if ars == [] then [] else NamedAll(ars[..|ars| - 1]) + [Named(ars[|ars| - 1])]
  }

  /** Record i of a sequence, field by field. */
  lemma {:induction false} NamedAllFields(ars: seq<Attributes>, i: nat)
    requires i < |ars|
    ensures |NamedAll(ars)| == |ars|
    ensures var f, ar := NamedAll(ars)[i], ars[i];
            && IsSplit(ar.fname, f.path, f.name)
            && f.fileIndex == ar.fileIndex && f.jobId == ar.jobId && f.lstat == ar.lstat && f.deltaSeq == ar.deltaSeq
            && (ar.digest != "" ==> f.md5 == ar.digest) && (ar.digest == "" ==> f.md5 == "0")
  {
    var front := ars[..|ars| - 1];
    NamedAllLength(front);
    if i < |front| {
      NamedAllFields(front, i);
    } else {
      NamedFields(ars[i]);
    }
  }

  lemma NamedAllLength(ars: seq<Attributes>)
    ensures |NamedAll(ars)| == |ars|
  {
  }

  lemma {:induction false} RecordAllIsAddAll(c: AbstractCatalog, ars: seq<Attributes>)
    ensures RecordAll(c, ars) == AddAll(c, NamedAll(ars)) && |NamedAll(ars)| == |ars|
  {
    if ars != [] {
      var front := ars[..|ars| - 1];
      RecordAllIsAddAll(c, front);
      AddAllSnoc(c, NamedAll(front), Named(ars[|ars| - 1]));
    }
  }

  /** Storing records adds one File row each, and the paths they name. */
  lemma RecordAllAddsEach(c: AbstractCatalog, ars: seq<Attributes>)
    ensures RecordAll(c, ars).files == c.files + multiset(NamedAll(ars))
    ensures |RecordAll(c, ars).files| == |c.files| + |ars|
    ensures RecordAll(c, ars).paths == c.paths + PathsOf(NamedAll(ars))
  {
    RecordAllIsAddAll(c, ars);
    AddAllAddsEach(c, NamedAll(ars));
  }

  // ------------------------------------------------------------ stored rows

  function Resolve(rows: map<PathId, string>, f: StoredFile): NamedFile {
    NamedFile(f.fileIndex, f.jobId, if f.pathId in rows then rows[f.pathId] else "", f.name,
              f.lstat, f.md5, f.deltaSeq)
  }

  function ResolveAll(rows: map<PathId, string>, fs: seq<StoredFile>): seq<NamedFile> {
    seq(|fs|, i requires 0 <= i < |fs| => Resolve(rows, fs[i]))
  }

  ghost function Abstract(rows: map<PathId, string>, fs: seq<StoredFile>): AbstractCatalog {
    AbstractCatalog(rows.Values, multiset(ResolveAll(rows, fs)))
  }

  ghost predicate PathsKnown(rows: map<PathId, string>, fs: seq<StoredFile>) {
    forall i :: 0 <= i < |fs| ==> fs[i].pathId in rows
  }

  /** New paths do not change what the stored rows mean. */
  lemma ResolveAllStable(rows: map<PathId, string>, rows': map<PathId, string>, fs: seq<StoredFile>)
    requires PathsKnown(rows, fs) && Extends(rows, rows')
    ensures ResolveAll(rows', fs) == ResolveAll(rows, fs) && PathsKnown(rows', fs)
  {
  }

  lemma ResolveAllSnoc(rows: map<PathId, string>, fs: seq<StoredFile>, f: StoredFile)
    ensures ResolveAll(rows, fs + [f]) == ResolveAll(rows, fs) + [Resolve(rows, f)]
  {
  }

  /** The Path and File tables. */
  class FileCatalog {
    const db: PathTable
    var files: seq<StoredFile>

    constructor (db: PathTable)
      requires db.Valid()
      ensures Valid() && this.db == db && files == []
    {
      this.db, files := db, [];
    }

    ghost predicate Valid()
      reads this, db
    {
      db.Valid() && PathsKnown(db.rows, files)
    }

    ghost function Contents(): AbstractCatalog
      reads this, db
    {
      Abstract(db.rows, files)
    }

    /** bdb_create_file_attributes_record, with bdb_create_path_record and
        bdb_create_file_record. */
    method CreateFileAttributesRecord(ar: Attributes)
      requires Valid()
      modifies this`files, db
      ensures Valid()
      ensures Contents() == Add(old(Contents()), Named(ar))
      ensures exists f ::
                && Contents().files == old(Contents().files) + multiset{f}
                && Contents().paths == old(Contents().paths) + {f.path}
                && IsSplit(ar.fname, f.path, f.name) && f.fileIndex == ar.fileIndex && f.jobId == ar.jobId
                && f.lstat == ar.lstat && f.deltaSeq == ar.deltaSeq
                && (ar.digest != "" ==> f.md5 == ar.digest) && (ar.digest == "" ==> f.md5 == "0")
    {
      StoreRecord(ar);
      NamedFields(ar);
    }

    method StoreRecord(ar: Attributes)
      requires Valid()
      modifies this`files, db
      ensures Valid() && Contents() == Add(old(Contents()), Named(ar))
    {
      var path, name := SplitPathAndFile(ar.fname);
      SplitIs(ar.fname, path, name);
      ghost var before := db.State();
      db.SetPath(path);
      var pathId := db.CreatePathRecord();
      CreateKeepsTable(before, path);
      ResolveAllStable(before.rows, db.rows, files);
      var row := StoredFile(ar.fileIndex, ar.jobId, pathId, name, ar.lstat, Digest(ar), ar.deltaSeq);
      ResolveAllSnoc(db.rows, files, row);
      files := files + [row];
    }

    method CreateAll(ars: seq<Attributes>)
      requires Valid()
      modifies this`files, db
      ensures Valid()
      ensures Contents() == RecordAll(old(Contents()), ars)
    {
      for i := 0 to |ars|
        invariant Valid() && Contents() == RecordAll(old(Contents()), ars[..i])
      {
        CreateFileAttributesRecord(ars[i]);
        RecordAllSnoc(old(Contents()), ars, i);
      }
      assert ars[..|ars|] == ars;
    }

    /** batch_fill_path_query: the distinct batch paths that Path does not have. */
    method FillPaths(batch: seq<NamedFile>)
      requires Valid()
      modifies db
      ensures Valid()
      ensures db.rows.Values == old(db.rows.Values) + PathsOf(batch)
      ensures ResolveAll(db.rows, files) == old(ResolveAll(db.rows, files))
    {
      ghost var before := db.rows;
      db.InsertPaths(PathsOf(batch) - db.rows.Values);
      ResolveAllStable(before, db.rows, files);
    }

    /** batch JOIN Path ON (batch.Path = Path.Path), for one batch row: a File row for
        every Path row with that string, and there is exactly one. */
    method InsertJoined(row: NamedFile)
      requires Valid() && row.path in db.rows.Values
      modifies this`files
      ensures Valid()
      ensures ResolveAll(db.rows, files) == old(ResolveAll(db.rows, files)) + [row]
    {
      var matches := set k | k in db.rows && db.rows[k] == row.path;
      ghost var id :| id in db.rows && db.rows[id] == row.path;
      forall k | k in matches ensures k == id { assert SameString(db.rows, k, id); }
      assert matches == {id};
      while matches != {}
        invariant matches <= {id}
        invariant if matches == {} then Valid() && ResolveAll(db.rows, files) == old(ResolveAll(db.rows, files)) + [row]
                  else files == old(files)
        decreases |matches|
      {
        var k :| k in matches;
        var f := StoredFile(row.fileIndex, row.jobId, k, row.name, row.lstat, row.md5, row.deltaSeq);
        ResolveAllSnoc(db.rows, files, f);
        files := files + [f];
        matches := matches - {k};
      }
    }

    /** INSERT INTO File ... FROM batch JOIN Path */
    method InsertBatch(batch: seq<NamedFile>)
      requires Valid() && PathsOf(batch) <= db.rows.Values
      modifies this`files
      ensures Valid()
      ensures ResolveAll(db.rows, files) == old(ResolveAll(db.rows, files)) + batch
    {
      for i := 0 to |batch|
        invariant Valid()
        invariant ResolveAll(db.rows, files) == old(ResolveAll(db.rows, files)) + batch[..i]
      {
        assert batch[i].path in PathsOf(batch);
        InsertJoined(batch[i]);
        assert batch[..i + 1] == batch[..i] + [batch[i]];
      }
      assert batch[..|batch|] == batch;
    }
  }
}
