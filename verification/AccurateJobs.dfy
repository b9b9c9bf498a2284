/**
 Which jobs make up a restore: bdb_get_accurate_jobids, and the earlier job a
 Differential or Incremental is relative to: bdb_find_job_start_time.
 */
module AccurateJobs {
  import opened CatalogTables

  datatype JobTable = JobTable(jobs: set<JobRow>, fileSets: map<nat, string>)

  /** jr: an empty name means any; `limit` is jr->StartTime, or the clock. */
  datatype Request = Request(name: string, clientId: nat, fileSetId: nat, level: Level, limit: int)

  predicate GoodBackup(j: JobRow) {
    (j.status == 'T' || j.status == 'W') && j.jobType == 'B'
  }

  /** Two FileSetIds with the same FileSet name. */
  predicate SameFileSet(fileSets: map<nat, string>, a: nat, b: nat) {
    a in fileSets && b in fileSets && fileSets[a] == fileSets[b]
  }

  /** The WHERE clause common to the three queries. */
  predicate Eligible(tbl: JobTable, req: Request, level: Level, j: JobRow) {
    && j in tbl.jobs && j.clientId == req.clientId && j.level == level && GoodBackup(j)
    && j.start < req.limit + 1
    && SameFileSet(tbl.fileSets, j.fileSetId, req.fileSetId)
    && (req.name == "" || j.name == req.name)
  }

  /** ... AND StartTime > after */
  function After(tbl: JobTable, req: Request, level: Level, after: int): set<JobRow> {
    set j | j in tbl.jobs && Eligible(tbl, req, level, j) && j.start > after
  }

  function AnyTime(tbl: JobTable, req: Request, level: Level): set<JobRow> {
    set j | j in tbl.jobs && Eligible(tbl, req, level, j)
  }

  /** ORDER BY JobTDate DESC LIMIT 1 */
  predicate IsLatest(s: set<JobRow>, j: JobRow) {
    j in s && forall k :: k in s ==> k.tdate <= j.tdate
  }

  function Later(a: int, b: int): int {
    if a < b then b else a
  }

  /** The accurate chain: nothing without a Full; else the latest Full, and for an
      Incremental or VirtualFull also the latest Differential started after that Full
      ended and all Incrementals started after both ended. */
  ghost predicate IsChain(tbl: JobTable, req: Request, s: set<JobRow>) {
    if AnyTime(tbl, req, Full) == {} then s == {}
    else exists f :: IsLatest(AnyTime(tbl, req, Full), f) && IsChainFrom(tbl, req, f, s)
  }

  ghost predicate IsChainFrom(tbl: JobTable, req: Request, f: JobRow, s: set<JobRow>) {
    if req.level != Incremental && req.level != VirtualFull then s == {f}
    else
      var diffs := After(tbl, req, Differential, f.end);
      if diffs == {} then s == {f} + After(tbl, req, Incremental, f.end)
      else exists d :: IsLatest(diffs, d) && s == {f, d} + After(tbl, req, Incremental, Later(f.end, d.end))
  }

  /** Without an eligible Full there is no chain at all. */
  lemma ChainNeedsFull(tbl: JobTable, req: Request, s: set<JobRow>)
    requires IsChain(tbl, req, s)
    ensures s == {} <==> forall j :: !Eligible(tbl, req, Full, j)
  {
    assert forall j :: Eligible(tbl, req, Full, j) <==> j in AnyTime(tbl, req, Full);
    if AnyTime(tbl, req, Full) != {} {
      var f :| IsLatest(AnyTime(tbl, req, Full), f) && IsChainFrom(tbl, req, f, s);
      assert f in s;
    }
  }

  /** On the columns: every listed job is a good backup of the client, of a FileSet of the
      requested name and of the job name if one is given, started within the limit. */
  lemma ChainFields(tbl: JobTable, req: Request, s: set<JobRow>, j: JobRow)
    requires IsChain(tbl, req, s) && j in s
    ensures j in tbl.jobs && j.clientId == req.clientId && j.status in {'T', 'W'} && j.jobType == 'B'
    ensures j.level in {Full, Differential, Incremental} && j.start <= req.limit
    ensures j.fileSetId in tbl.fileSets && req.fileSetId in tbl.fileSets
    ensures tbl.fileSets[j.fileSetId] == tbl.fileSets[req.fileSetId] && (req.name != "" ==> j.name == req.name)
  {
  }

  /** ... and a Full with these columns is enough for a list. */
  lemma FullMakesChain(tbl: JobTable, req: Request, s: set<JobRow>, j: JobRow)
    requires IsChain(tbl, req, s) && j in tbl.jobs && j.level == Full && j.clientId == req.clientId
    requires j.status in {'T', 'W'} && j.jobType == 'B' && j.start <= req.limit
    requires j.fileSetId in tbl.fileSets && req.fileSetId in tbl.fileSets
    requires tbl.fileSets[j.fileSetId] == tbl.fileSets[req.fileSetId] && (req.name != "" ==> j.name == req.name)
    ensures exists f :: f in s && f.level == Full && f.tdate >= j.tdate
  {
    assert j in AnyTime(tbl, req, Full);
    var f :| IsLatest(AnyTime(tbl, req, Full), f) && IsChainFrom(tbl, req, f, s);
    assert f in s && f.tdate >= j.tdate;
  }

  /** An Incremental with these columns that started after the listed Full and Differential
      ended is listed. */
  lemma IncrementalJoinsChain(tbl: JobTable, req: Request, s: set<JobRow>, j: JobRow)
    requires IsChain(tbl, req, s) && s != {} && (req.level == Incremental || req.level == VirtualFull)
    requires j in tbl.jobs && j.level == Incremental && j.clientId == req.clientId
    requires j.status in {'T', 'W'} && j.jobType == 'B' && j.start <= req.limit
    requires j.fileSetId in tbl.fileSets && req.fileSetId in tbl.fileSets
    requires tbl.fileSets[j.fileSetId] == tbl.fileSets[req.fileSetId] && (req.name != "" ==> j.name == req.name)
    requires forall k :: k in s && k.level != Incremental ==> j.start > k.end
    ensures j in s
  {
    ChainIncrementals(tbl, req, s, j);
  }

  /** A Differential with these columns that started after the listed Full ended is listed,
      or a later one is. */
  lemma DifferentialJoinsChain(tbl: JobTable, req: Request, s: set<JobRow>, j: JobRow)
    requires IsChain(tbl, req, s) && s != {} && (req.level == Incremental || req.level == VirtualFull)
    requires j in tbl.jobs && j.level == Differential && j.clientId == req.clientId
    requires j.status in {'T', 'W'} && j.jobType == 'B' && j.start <= req.limit
    requires j.fileSetId in tbl.fileSets && req.fileSetId in tbl.fileSets
    requires tbl.fileSets[j.fileSetId] == tbl.fileSets[req.fileSetId] && (req.name != "" ==> j.name == req.name)
    requires forall k :: k in s && k.level == Full ==> j.start > k.end
    ensures exists d :: d in s && d.level == Differential && d.tdate >= j.tdate
  {
    var f :| IsLatest(AnyTime(tbl, req, Full), f) && IsChainFrom(tbl, req, f, s);
    assert f in s && j in After(tbl, req, Differential, f.end);
    var d :| IsLatest(After(tbl, req, Differential, f.end), d) && d in s;
    assert d.tdate >= j.tdate;
  }

  /** Any two jobs j and k of a chain: both are eligible; on a level other than
      Incremental there is only one; a Differential started after the Full had ended; and
      no eligible Full is later than the chosen one. */
  lemma ChainShape(tbl: JobTable, req: Request, s: set<JobRow>, j: JobRow, k: JobRow)
    requires IsChain(tbl, req, s) && (req.level == Incremental || req.level == VirtualFull) && j in s
    ensures Eligible(tbl, req, j.level, j) && j.level in {Full, Differential, Incremental}
    ensures k in s && j.level == k.level && j.level != Incremental ==> j == k
    ensures k in s && j.level == Full && k.level == Differential ==> k.start > j.end
    ensures j.level == Full && Eligible(tbl, req, Full, k) ==> k.tdate <= j.tdate
  {
  }

  /** ... and precisely the Incrementals started after all of these ended. */
  lemma ChainIncrementals(tbl: JobTable, req: Request, s: set<JobRow>, i: JobRow)
    requires IsChain(tbl, req, s) && (req.level == Incremental || req.level == VirtualFull)
    requires s != {} && i.level == Incremental
    ensures i in s <==>
            Eligible(tbl, req, Incremental, i) && forall j :: j in s && j.level != Incremental ==> i.start > j.end
  {
  }

  /** With distinct dates the choice of every LIMIT 1 is forced: there is one chain. */
  lemma ChainIsUnique(tbl: JobTable, req: Request, s: set<JobRow>, s': set<JobRow>)
    requires forall j, k :: j in tbl.jobs && k in tbl.jobs && j.tdate == k.tdate ==> j == k
    requires IsChain(tbl, req, s) && IsChain(tbl, req, s')
    ensures s == s'
  {
  }

  predicate SortedByDate(s: seq<JobRow>) {
    forall i, k :: 0 <= i < k < |s| ==> s[i].tdate <= s[k].tdate
  }

  function Rows(s: seq<JobRow>): set<JobRow> {
    set j | j in s
  }

  function JobIds(s: seq<JobRow>): (ids: seq<JobId>)
    ensures |ids| == |s| && forall i :: 0 <= i < |s| ==> ids[i] == s[i].jobId
  {
    seq(|s|, i requires 0 <= i < |s| => s[i].jobId)
  }

  /** The rows of btemp3 as they are read back. */
  ghost predicate IsOrderedChain(tbl: JobTable, req: Request, s: seq<JobRow>) {
    IsChain(tbl, req, Rows(s)) && SortedByDate(s) && NoRepeats(s)
  }

  method PickLatest(s: set<JobRow>) returns (best: JobRow)
    requires s != {}
    ensures IsLatest(s, best)
  {
    best :| best in s;
    var rest := s - {best};
    while rest != {}
      invariant rest <= s && best in s && best !in rest
      invariant forall k :: k in s - rest ==> k.tdate <= best.tdate
      decreases |rest|
    {
      var j :| j in rest;
      if j.tdate > best.tdate {
        best := j;
      }
      rest := rest - {j};
    }
    assert s - rest == s;
  }

  /** ORDER BY JobTDate, one row at a time. */
  method InsertByDate(s: seq<JobRow>, j: JobRow) returns (r: seq<JobRow>)
    requires SortedByDate(s) && NoRepeats(s) && j !in s
    ensures SortedByDate(r) && NoRepeats(r) && Rows(r) == Rows(s) + {j}
  {
    var i := 0;
    while i < |s| && s[i].tdate <= j.tdate
      invariant 0 <= i <= |s|
      invariant forall k :: 0 <= k < i ==> s[k].tdate <= j.tdate
    {
      i := i + 1;
    }
    r := s[..i] + [j] + s[i..];
    InsertedRows(s, i, j);
    InsertedOnce(s, i, j);
    assert forall a, b :: 0 <= a < b < |r| ==> r[a].tdate <= r[b].tdate;
  }

  lemma InsertedRows(s: seq<JobRow>, i: nat, j: JobRow)
    requires i <= |s|
    ensures Rows(s[..i] + [j] + s[i..]) == Rows(s) + {j}
  {
  }

  lemma InsertedOnce(s: seq<JobRow>, i: nat, j: JobRow)
    requires i <= |s| && NoRepeats(s) && j !in s
    ensures NoRepeats(s[..i] + [j] + s[i..])
  {
  }

  method InsertAllByDate(s: seq<JobRow>, more: set<JobRow>) returns (r: seq<JobRow>)
    requires SortedByDate(s) && NoRepeats(s) && Rows(s) !! more
    ensures SortedByDate(r) && NoRepeats(r) && Rows(r) == Rows(s) + more
    decreases |more|
  {
    if more == {} {
      r := s;
    } else {
      var j :| j in more;
      r := InsertByDate(s, j);
      assert Rows(s) + {j} + (more - {j}) == Rows(s) + more;
      r := InsertAllByDate(r, more - {j});
    }
  }

  /** bdb_get_accurate_jobids: table btemp3 grows by one query after the other, and is
      then read back in the order of JobTDate. */
  method GetAccurateJobids(tbl: JobTable, req: Request) returns (ids: seq<JobId>, btemp: seq<JobRow>)
    ensures IsOrderedChain(tbl, req, btemp) && ids == JobIds(btemp)
  {
    btemp := [];
    var fulls := AnyTime(tbl, req, Full);
    if fulls != {} {
      var f := PickLatest(fulls);
      btemp := [f];
      var lastEnd := f.end;
      if req.level == Incremental || req.level == VirtualFull {
        var diffs := After(tbl, req, Differential, lastEnd);
        if diffs != {} {
          var d := PickLatest(diffs);
          btemp := InsertByDate(btemp, d);
          lastEnd := Later(lastEnd, d.end);
        }
        btemp := InsertAllByDate(btemp, After(tbl, req, Incremental, lastEnd));
      }
      assert IsChainFrom(tbl, req, f, Rows(btemp));
    }
    ids := JobIds(btemp);
  }

  // ------------------------------------------------- bdb_find_job_start_time

  /** A job the search accepts: exact Name, ClientId and (unless 0) FileSetId. */
  predicate Searched(tbl: JobTable, req: Request, j: JobRow) {
    && j in tbl.jobs && GoodBackup(j) && j.name == req.name && j.clientId == req.clientId
    && (req.fileSetId == 0 || j.fileSetId == req.fileSetId)
  }

  function SearchedAt(tbl: JobTable, req: Request, levels: set<Level>): set<JobRow> {
    set j | j in tbl.jobs && Searched(tbl, req, j) && j.level in levels
  }

  /** ORDER BY StartTime DESC LIMIT 1 */
  predicate IsLastStarted(s: set<JobRow>, j: JobRow) {
    j in s && forall k :: k in s ==> k.start <= j.start
  }

  /** The reference job: for a Differential the last Full, for an Incremental the last
      job of any level provided a Full exists; otherwise none. */
  ghost predicate IsReference(tbl: JobTable, req: Request, r: Option<JobRow>) {
    var fulls := SearchedAt(tbl, req, {Full});
    if fulls == {} || (req.level != Differential && req.level != Incremental) then r.None?
    else
      var from := if req.level == Differential then fulls
                  else SearchedAt(tbl, req, {Incremental, Differential, Full});
      r.Some? && IsLastStarted(from, r.value)
  }

  /** On the columns: the reference is a good backup of the same Name, ClientId and (unless
      0) FileSetId, a Full for a Differential, and none with these columns started later. */
  lemma ReferenceFields(tbl: JobTable, req: Request, r: JobRow, j: JobRow)
    requires IsReference(tbl, req, Some(r))
    ensures r in tbl.jobs && r.status in {'T', 'W'} && r.jobType == 'B' && r.name == req.name
    ensures r.clientId == req.clientId && (req.fileSetId != 0 ==> r.fileSetId == req.fileSetId)
    ensures r.level == Full || (req.level == Incremental && r.level in {Differential, Incremental})
    ensures && j in tbl.jobs && j.status in {'T', 'W'} && j.jobType == 'B' && j.name == req.name
            && j.clientId == req.clientId && (req.fileSetId != 0 ==> j.fileSetId == req.fileSetId)
            && (j.level == Full || (req.level == Incremental && j.level in {Differential, Incremental})) ==>
            j.start <= r.start
  {
    var from := if req.level == Differential then SearchedAt(tbl, req, {Full})
                else SearchedAt(tbl, req, {Incremental, Differential, Full});
    assert Searched(tbl, req, j) && j.level == Full ==> j in from;
    assert Searched(tbl, req, j) && req.level == Incremental && j.level in {Differential, Incremental} ==> j in from;
  }

  /** A Differential or Incremental has a reference exactly when a Full with its columns
      exists. */
  lemma ReferenceNeedsFull(tbl: JobTable, req: Request, r: Option<JobRow>)
    requires IsReference(tbl, req, r) && (req.level == Differential || req.level == Incremental)
    ensures r.Some? <==> exists j :: j in tbl.jobs && j.status in {'T', 'W'} && j.jobType == 'B' && j.name == req.name
                                     && j.clientId == req.clientId && j.level == Full
                                     && (req.fileSetId != 0 ==> j.fileSetId == req.fileSetId)
  {
    var fulls := SearchedAt(tbl, req, {Full});
    if fulls != {} {
      var f :| f in fulls;
      assert f in tbl.jobs;
    }
    forall j | j in tbl.jobs && Searched(tbl, req, j) && j.level == Full ensures j in fulls { }
  }

  method PickLastStarted(s: set<JobRow>) returns (best: JobRow)
    requires s != {}
    ensures IsLastStarted(s, best)
  {
    best :| best in s;
    var rest := s - {best};
    while rest != {}
      invariant rest <= s && best in s
      invariant forall k :: k in s - rest ==> k.start <= best.start
      decreases |rest|
    {
      var j :| j in rest;
      if j.start > best.start {
        best := j;
      }
      rest := rest - {j};
    }
    assert s - rest == s;
  }

  method FindJobStartTime(tbl: JobTable, req: Request) returns (r: Option<JobRow>)
    ensures IsReference(tbl, req, r)
  {
    var fulls := SearchedAt(tbl, req, {Full});
    if req.level == Differential && fulls != {} {
      var j := PickLastStarted(fulls);
      r := Some(j);
    } else if req.level == Incremental && fulls != {} {
      var all := SearchedAt(tbl, req, {Incremental, Differential, Full});
      assert fulls <= all;
      var j := PickLastStarted(all);
      r := Some(j);
    } else {
      r := None;
    }
  }
}
