/** Row types of the catalog tables that several modules share. */
module CatalogTables {

  type JobId = nat
  type FileId = nat

  /** PathId 0 never names a row: the C code returns it for "not found". */
  type PathId = nat

  datatype Backend = MySQL | PostgreSQL | SQLite

  datatype Option<+T> = None | Some(value: T)

  /** A File row.  FileIndex <= 0 marks a deletion. */
  datatype FileRow = FileRow(fileId: FileId, fileIndex: int, jobId: JobId, pathId: PathId,
                             filename: string, lstat: string, deltaSeq: nat)

  /** A BaseFiles row: job `jobId` uses file `fileId` of job `baseJobId`. */
  datatype BaseRow = BaseRow(baseJobId: JobId, jobId: JobId, fileId: FileId, fileIndex: int)

  datatype Level = Full | Differential | Incremental | VirtualFull | OtherLevel

  /** JobStatus 'T' and 'W' are the good ends; Type 'B' is a backup. */
  datatype JobRow = JobRow(jobId: JobId, name: string, clientId: nat, fileSetId: nat, level: Level,
                           status: char, jobType: char, start: int, end: int, tdate: int)

  /** A row of a restore list. */
  datatype OutRow = OutRow(jobId: JobId, fileIndex: int, fileId: FileId)

  /** What names a file across jobs. */
  datatype FileKey = FileKey(pathId: PathId, filename: string)

  function KeyOf(f: FileRow): FileKey {
    FileKey(f.pathId, f.filename)
  }

  lemma KeyNamesFile(f: FileRow, g: FileRow)
    ensures KeyOf(f) == KeyOf(g) <==> f.pathId == g.pathId && f.filename == g.filename
  {
  }

  predicate NoRepeats<T(==)>(s: seq<T>) {
    forall i, k :: 0 <= i < k < |s| ==> s[i] != s[k]
  }
}
