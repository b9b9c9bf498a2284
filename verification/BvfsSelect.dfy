/**
 sql_bvfs_select: the restore list of compute_restore_list, in its two forms.

 Table btemp holds a row for each selected file, dated by its own job, and a row for
 each base file, dated by the job that uses the base.  The MAX join form looks the
 newest row up again by date in Job and File; the DISTINCT ON form reads btemp only.
 */
module BvfsSelects {
  import opened CatalogTables
  import opened RecentVersions

  datatype TempRow = TempRow(jobId: JobId, tdate: int, fileIndex: int, key: FileKey, fileId: FileId)

  /** FROM File JOIN Job USING (JobId) */
  predicate OwnRow(cat: Catalog, f: FileRow, t: TempRow) {
    && f in cat.files && f.jobId in cat.jobs
    && t == TempRow(f.jobId, cat.jobs[f.jobId].tdate, f.fileIndex, KeyOf(f), f.fileId)
  }

  /** FROM BaseFiles JOIN File USING (FileId) JOIN Job ON (BaseFiles.JobId = Job.JobId) */
  predicate BasedRow(cat: Catalog, b: BaseRow, f: FileRow, t: TempRow) {
    && b in cat.base && f in cat.files && f.fileId == b.fileId && b.jobId in cat.jobs
    && t == TempRow(f.jobId, cat.jobs[b.jobId].tdate, b.fileIndex, KeyOf(f), b.fileId)
  }

  ghost predicate IsOwn(cat: Catalog, t: TempRow) {
    exists f :: OwnRow(cat, f, t)
  }

  ghost predicate IsBased(cat: Catalog, t: TempRow) {
    exists b, f :: BasedRow(cat, b, f, t)
  }

  ghost predicate IsLatest(btemp: set<TempRow>, t: TempRow) {
    t in btemp && forall u :: u in btemp && u.key == t.key ==> u.tdate <= t.tdate
  }

  function Out(t: TempRow): OutRow {
    OutRow(t.jobId, t.fileIndex, t.fileId)
  }

  /** DISTINCT ON (PathId, Filename) ... WHERE FileIndex > 0 */
  ghost function SelectDistinctOn(btemp: set<TempRow>): set<OutRow> {
    set t | t in btemp && IsLatest(btemp, t) && t.fileIndex > 0 :: Out(t)
  }

  /** The join of Job and File with the MAX(JobTDate) rows of btemp. */
  ghost function SelectMaxJoin(cat: Catalog, btemp: set<TempRow>): set<OutRow> {
    set f | f in cat.files && f.fileIndex > 0 && JoinsLatest(cat, btemp, f)
      :: OutRow(f.jobId, f.fileIndex, f.fileId)
  }

  ghost predicate JoinsLatest(cat: Catalog, btemp: set<TempRow>, f: FileRow) {
    && f.jobId in cat.jobs && (exists u :: u in btemp && u.jobId == f.jobId)
    && exists t :: IsLatest(btemp, t) && t.tdate == cat.jobs[f.jobId].tdate && t.key == KeyOf(f)
  }

  /** FileIds and JobTDates are unique, a job has one row per file and no file of its
      own for a name it takes from a base, and btemp has no two rows of one name and date. */
  ghost predicate SelectScope(cat: Catalog, btemp: set<TempRow>) {
    && (forall f, g | f in cat.files && g in cat.files :: f.fileId == g.fileId ==> f == g)
    && (forall i, j | i in cat.jobs && j in cat.jobs :: cat.jobs[i].tdate == cat.jobs[j].tdate ==> i == j)
    && (forall f, g | f in cat.files && g in cat.files
          :: f.jobId == g.jobId && KeyOf(f) == KeyOf(g) ==> f == g)
    && (forall b, f, g | b in cat.base && f in cat.files && g in cat.files
          :: f.fileId == b.fileId && g.jobId == b.jobId ==> KeyOf(g) != KeyOf(f))
    && (forall t, u | t in btemp && u in btemp :: t.key == u.key && t.tdate == u.tdate ==> t == u)
    && (forall t | t in btemp :: IsOwn(cat, t) || IsBased(cat, t))
  }

  /** The MAX join keeps the latest rows that come from File and loses those from BaseFiles. */
  lemma MaxJoinKeepsOwnRows(cat: Catalog, btemp: set<TempRow>)
    requires SelectScope(cat, btemp)
    ensures SelectMaxJoin(cat, btemp) ==
            set t | t in btemp && IsLatest(btemp, t) && t.fileIndex > 0 && IsOwn(cat, t) :: Out(t)
  {
  }

  /** The two forms select the same rows exactly when no file to be restored has a row
      from BaseFiles as its latest. */
  lemma SelectFormsAgree(cat: Catalog, btemp: set<TempRow>)
    requires SelectScope(cat, btemp)
    ensures SelectMaxJoin(cat, btemp) == SelectDistinctOn(btemp) <==>
            forall t :: IsLatest(btemp, t) && t.fileIndex > 0 ==> IsOwn(cat, t)
  {
    MaxJoinKeepsOwnRows(cat, btemp);
    if SelectMaxJoin(cat, btemp) == SelectDistinctOn(btemp) {
      forall t | IsLatest(btemp, t) && t.fileIndex > 0 ensures IsOwn(cat, t) {
        assert Out(t) in SelectDistinctOn(btemp);
        var u :| IsLatest(btemp, u) && IsOwn(cat, u) && Out(u) == Out(t);
        SameFileSameKey(cat, btemp, t, u);
      }
    }
  }

  lemma SameFileSameKey(cat: Catalog, btemp: set<TempRow>, t: TempRow, u: TempRow)
    requires SelectScope(cat, btemp) && IsLatest(btemp, t) && IsLatest(btemp, u) && Out(t) == Out(u)
    ensures t == u
  {
  }

  /** btemp holds the rows of the files of the given jobs and nothing else. */
  ghost predicate HoldsFilesOf(cat: Catalog, ids: set<JobId>, btemp: set<TempRow>) {
    forall t :: t in btemp <==> exists f :: OwnRow(cat, f, t) && f.jobId in ids
  }

  /** A row is the latest of its name in btemp exactly when bdb_get_file_list's query keeps
      its file. */
  lemma LatestIsNewest(cat: Catalog, ids: set<JobId>, btemp: set<TempRow>, f: FileRow, t: TempRow)
    requires cat.base == {} && HoldsFilesOf(cat, ids, btemp) && OwnRow(cat, f, t) && f.jobId in ids
    ensures IsLatest(btemp, t) <==> f in Newest(cat, Query(false, None), Candidates(cat, ids, Query(false, None)))
  {
    var q := Query(false, None);
    var cand := Candidates(cat, ids, q);
    if IsLatest(btemp, t) {
      forall g | g in cand && GroupOf(q, g) == GroupOf(q, f) ensures DateOf(cat, g) <= DateOf(cat, f) {
        var u := TempRow(g.jobId, cat.jobs[g.jobId].tdate, g.fileIndex, KeyOf(g), g.fileId);
        assert OwnRow(cat, g, u) && u in btemp;
      }
    }
    if f in Newest(cat, q, cand) {
      forall u | u in btemp && u.key == t.key ensures u.tdate <= t.tdate {
        var g :| OwnRow(cat, g, u) && g.jobId in ids;
        assert g in cand && GroupOf(q, g) == GroupOf(q, f);
      }
    }
  }

  ghost function FileListOut(cat: Catalog, ids: set<JobId>): set<OutRow> {
    set f | f in MaxJoin(cat, ids, Query(false, None)) && f.fileIndex > 0 :: OutRow(f.jobId, f.fileIndex, f.fileId)
  }

  /** compute_restore_list and bdb_get_file_list restore the same versions: without base
      jobs, both forms on the files of some jobs select the newest version per file over
      these jobs, deletions dropped. */
  lemma SelectIsFileList(cat: Catalog, ids: set<JobId>, btemp: set<TempRow>)
    requires SelectScope(cat, btemp) && cat.base == {} && HoldsFilesOf(cat, ids, btemp)
    ensures SelectMaxJoin(cat, btemp) == SelectDistinctOn(btemp) == FileListOut(cat, ids)
  {
    var q := Query(false, None);
    assert Unambiguous(cat, ids);
    MaxJoinIsNewest(cat, ids, q);
    forall t | t in btemp ensures IsOwn(cat, t) {
      var f :| OwnRow(cat, f, t) && f.jobId in ids;
    }
    SelectFormsAgree(cat, btemp);
    forall o | o in FileListOut(cat, ids) ensures o in SelectDistinctOn(btemp) {
      var f :| f in MaxJoin(cat, ids, q) && f.fileIndex > 0 && o == OutRow(f.jobId, f.fileIndex, f.fileId);
      var t := TempRow(f.jobId, cat.jobs[f.jobId].tdate, f.fileIndex, KeyOf(f), f.fileId);
      assert OwnRow(cat, f, t) && t in btemp && o == Out(t);
      LatestIsNewest(cat, ids, btemp, f, t);
    }
    forall o | o in SelectDistinctOn(btemp) ensures o in FileListOut(cat, ids) {
      var t :| t in btemp && IsLatest(btemp, t) && t.fileIndex > 0 && o == Out(t);
      var f :| OwnRow(cat, f, t) && f.jobId in ids;
      LatestIsNewest(cat, ids, btemp, f, t);
    }
  }

  /** A Full of two files and an Incremental with a newer version of one of them. */
  function TwoVersions(): Catalog {
    Catalog(map[1 := JobRow(1, "job", 1, 1, Full, 'T', 'B', 0, 1, 100),
                2 := JobRow(2, "job", 1, 1, Incremental, 'T', 'B', 2, 3, 200)],
            {FileRow(10, 3, 1, 7, "a", "x", 0), FileRow(11, 5, 2, 7, "a", "y", 0), FileRow(12, 4, 1, 7, "b", "z", 0)},
            {})
  }

  lemma TwoVersionsScope(t: TempRow, u: TempRow)
    requires t == TempRow(1, 100, 3, FileKey(7, "a"), 10) && u == TempRow(2, 200, 5, FileKey(7, "a"), 11)
    ensures SelectScope(TwoVersions(), {t, u}) && IsOwn(TwoVersions(), t) && IsOwn(TwoVersions(), u)
  {
    var cat := TwoVersions();
    assert OwnRow(cat, FileRow(10, 3, 1, 7, "a", "x", 0), t);
    assert OwnRow(cat, FileRow(11, 5, 2, 7, "a", "y", 0), u);
  }

  /** Both forms select the newer version. */
  lemma NewerVersionIsSelected(t: TempRow, u: TempRow)
    requires t == TempRow(1, 100, 3, FileKey(7, "a"), 10) && u == TempRow(2, 200, 5, FileKey(7, "a"), 11)
    ensures SelectScope(TwoVersions(), {t, u})
    ensures SelectDistinctOn({t, u}) == {OutRow(2, 5, 11)} == SelectMaxJoin(TwoVersions(), {t, u})
  {
    TwoVersionsScope(t, u);
    assert IsLatest({t, u}, u) && !IsLatest({t, u}, t);
    SelectFormsAgree(TwoVersions(), {t, u});
  }

  /** The smallest case: job 2 takes one file from base job 1.  PostgreSQL restores it,
      the MAX join returns nothing. */
  lemma BaseFileIsLost(cat: Catalog, f: FileRow, b: BaseRow, t: TempRow)
    requires f == FileRow(10, 3, 1, 7, "a", "", 0) && b == BaseRow(1, 2, 10, 5)
    requires cat == Catalog(map[1 := JobRow(1, "base", 1, 1, Full, 'T', 'B', 0, 1, 100),
                                2 := JobRow(2, "job", 1, 1, Full, 'T', 'B', 2, 3, 200)], {f}, {b})
    requires t == TempRow(1, 200, 5, FileKey(7, "a"), 10)
    ensures SelectScope(cat, {t}) && BasedRow(cat, b, f, t)
    ensures SelectDistinctOn({t}) == {OutRow(1, 5, 10)} && SelectMaxJoin(cat, {t}) == {}
  {
    assert BasedRow(cat, b, f, t);
  }
}
