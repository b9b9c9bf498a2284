/**
 The recent-version queries in their two forms: a join with MAX(JobTDate) for MySQL
 and SQLite, DISTINCT ON for PostgreSQL.

 The common meaning is `Newest`: of the rows that compete, those no other row of the
 same file (or file part) is newer than.
 */
module RecentVersions {
  import opened CatalogTables

  /** Job (by its key), File and BaseFiles. */
  datatype Catalog = Catalog(jobs: map<JobId, JobRow>, files: set<FileRow>, base: set<BaseRow>)

  /** Which query: `parts` groups by DeltaSeq too; `only` restricts it to one file. */
  datatype Query = Query(parts: bool, only: Option<FileKey>)

  /** The GROUP BY / DISTINCT ON columns. */
  datatype Group = Group(key: FileKey, part: nat)

  function GroupOf(q: Query, f: FileRow): Group {
    Group(KeyOf(f), if q.parts then f.deltaSeq else 0)
  }

  predicate Wanted(q: Query, f: FileRow) {
    q.only.None? || KeyOf(f) == q.only.value
  }

  predicate UsedAsBase(cat: Catalog, ids: set<JobId>, f: FileRow) {
    exists b :: b in cat.base && b.jobId in ids && b.fileId == f.fileId
  }

  /** The rows that compete: the jobs' own files and those they take from base jobs. */
  function Candidates(cat: Catalog, ids: set<JobId>, q: Query): set<FileRow> {
    set f | f in cat.files && f.jobId in cat.jobs && Wanted(q, f)
            && (f.jobId in ids || UsedAsBase(cat, ids, f))
  }

  function DateOf(cat: Catalog, f: FileRow): int {
    if f.jobId in cat.jobs then cat.jobs[f.jobId].tdate else 0
  }

  /** The meaning both forms aim at. */
  ghost function Newest(cat: Catalog, q: Query, rows: set<FileRow>): set<FileRow> {
    set f | f in rows && NoNewer(cat, q, rows, f)
  }

  ghost predicate NoNewer(cat: Catalog, q: Query, rows: set<FileRow>, f: FileRow) {
    forall g :: g in rows && GroupOf(q, g) == GroupOf(q, f) ==> DateOf(cat, g) <= DateOf(cat, f)
  }

  // --------------------------------------------------------- DISTINCT ON form

  /** SELECT DISTINCT ON (group) ... ORDER BY group, JobTDate DESC: one row of each
      group, and one that comes first.  Equal dates leave the choice open. */
  ghost predicate IsDistinctOn(cat: Catalog, q: Query, rows: set<FileRow>, r: set<FileRow>) {
    && r <= Newest(cat, q, rows)
    && (forall f :: f in rows ==> exists g :: g in r && GroupOf(q, g) == GroupOf(q, f))
    && (forall g, g' :: g in r && g' in r && GroupOf(q, g) == GroupOf(q, g') ==> g == g')
  }

  // ------------------------------------------------------------ MAX join form

  /** A row of the inner UNION ALL. */
  datatype Dated = Dated(date: int, group: Group)

  function DatedDirect(cat: Catalog, ids: set<JobId>, q: Query): set<Dated> {
    set f | f in cat.files && f.jobId in ids && f.jobId in cat.jobs && Wanted(q, f)
      :: Dated(cat.jobs[f.jobId].tdate, GroupOf(q, f))
  }

  /** The base branch dates a row by BaseFiles.BaseJobId. */
  function DatedBase(cat: Catalog, ids: set<JobId>, q: Query): set<Dated> {
    set b, f | b in cat.base && b.jobId in ids && f in cat.files && f.fileId == b.fileId
               && b.baseJobId in cat.jobs && Wanted(q, f)
      :: Dated(cat.jobs[b.baseJobId].tdate, GroupOf(q, f))
  }

  /** SELECT MAX(JobTDate) ... GROUP BY */
  ghost function MaxPerGroup(tmp: set<Dated>): set<Dated> {
    set t | t in tmp && forall u :: u in tmp && u.group == t.group ==> u.date <= t.date
  }

  /** The outer WHERE admits only the listed jobs and the jobs they use as a base. */
  predicate ValidJob(cat: Catalog, ids: set<JobId>, j: JobId) {
    j in ids || exists b :: b in cat.base && b.jobId in ids && b.baseJobId == j
  }

  /** The outer join compares the date, PathId and Filename, and not DeltaSeq. */
  ghost predicate Joins(cat: Catalog, f: FileRow, t: Dated) {
    f.jobId in cat.jobs && t.date == cat.jobs[f.jobId].tdate && t.group.key == KeyOf(f)
  }

  ghost function MaxJoin(cat: Catalog, ids: set<JobId>, q: Query): set<FileRow> {
    var t1 := MaxPerGroup(DatedDirect(cat, ids, q) + DatedBase(cat, ids, q));
    set f | f in cat.files && ValidJob(cat, ids, f.jobId) && exists t :: t in t1 && Joins(cat, f, t)
  }

  // -------------------------------------------------------- when the two agree

  ghost predicate DistinctDates(cat: Catalog, ids: set<JobId>) {
    forall j, j' | j in cat.jobs && j' in cat.jobs && ValidJob(cat, ids, j) && ValidJob(cat, ids, j')
      :: cat.jobs[j].tdate == cat.jobs[j'].tdate ==> j == j'
  }

  ghost predicate OneRowPerJobAndFile(cat: Catalog, ids: set<JobId>) {
    forall f, f' | f in cat.files && f' in cat.files && ValidJob(cat, ids, f.jobId)
      :: f.jobId == f'.jobId && KeyOf(f) == KeyOf(f') ==> f == f'
  }

  /** A base row names the job its file belongs to. */
  ghost predicate BaseRowsConsistent(cat: Catalog, ids: set<JobId>) {
    forall b, f | b in cat.base && b.jobId in ids && f in cat.files
      :: f.fileId == b.fileId ==> f.jobId == b.baseJobId
  }

  ghost predicate Unambiguous(cat: Catalog, ids: set<JobId>) {
    DistinctDates(cat, ids) && OneRowPerJobAndFile(cat, ids) && BaseRowsConsistent(cat, ids)
  }

  lemma DatedIsCandidate(cat: Catalog, ids: set<JobId>, q: Query, t: Dated) returns (f: FileRow)
    requires Unambiguous(cat, ids) && t in DatedDirect(cat, ids, q) + DatedBase(cat, ids, q)
    ensures f in Candidates(cat, ids, q) && ValidJob(cat, ids, f.jobId)
    ensures t == Dated(DateOf(cat, f), GroupOf(q, f))
  {
    if t in DatedDirect(cat, ids, q) {
      f :| f in cat.files && f.jobId in ids && f.jobId in cat.jobs && Wanted(q, f)
           && t == Dated(cat.jobs[f.jobId].tdate, GroupOf(q, f));
    } else {
      var b, g :| b in cat.base && b.jobId in ids && g in cat.files && g.fileId == b.fileId
                  && b.baseJobId in cat.jobs && Wanted(q, g)
                  && t == Dated(cat.jobs[b.baseJobId].tdate, GroupOf(q, g));
      f := g;
      assert UsedAsBase(cat, ids, f);
    }
  }

  lemma CandidateIsDated(cat: Catalog, ids: set<JobId>, q: Query, f: FileRow)
    requires Unambiguous(cat, ids) && f in Candidates(cat, ids, q)
    ensures ValidJob(cat, ids, f.jobId)
    ensures Dated(DateOf(cat, f), GroupOf(q, f)) in DatedDirect(cat, ids, q) + DatedBase(cat, ids, q)
  {
  }

  /** The MAX join returns exactly the newest candidates. */
  lemma MaxJoinIsNewest(cat: Catalog, ids: set<JobId>, q: Query)
    requires Unambiguous(cat, ids)
    ensures MaxJoin(cat, ids, q) == Newest(cat, q, Candidates(cat, ids, q))
  {
    var cand := Candidates(cat, ids, q);
    var tmp := DatedDirect(cat, ids, q) + DatedBase(cat, ids, q);
    forall f | f in MaxJoin(cat, ids, q) ensures f in Newest(cat, q, cand) {
      var t :| t in MaxPerGroup(tmp) && Joins(cat, f, t);
      var g := DatedIsCandidate(cat, ids, q, t);
      assert g.jobId == f.jobId && g == f;
      forall h | h in cand && GroupOf(q, h) == GroupOf(q, f) ensures DateOf(cat, h) <= DateOf(cat, f) {
        CandidateIsDated(cat, ids, q, h);
      }
    }
    forall f | f in Newest(cat, q, cand) ensures f in MaxJoin(cat, ids, q) {
      CandidateIsDated(cat, ids, q, f);
      var t := Dated(DateOf(cat, f), GroupOf(q, f));
      forall u | u in tmp && u.group == t.group ensures u.date <= t.date {
        var h := DatedIsCandidate(cat, ids, q, u);
      }
      assert t in MaxPerGroup(tmp) && Joins(cat, f, t);
    }
  }

  /** Whatever the dates: only rows of the listed jobs and of jobs they use as a base. */
  lemma MaxJoinJobs(cat: Catalog, ids: set<JobId>, q: Query, f: FileRow)
    requires f in MaxJoin(cat, ids, q)
    ensures f in cat.files && (f.jobId in ids || exists b :: b in cat.base && b.jobId in ids && b.baseJobId == f.jobId)
  {
  }

  /** Some row of every group comes first. */
  lemma {:induction false} SomeNewest(cat: Catalog, q: Query, rows: set<FileRow>, f: FileRow) returns (g: FileRow)
    requires f in rows
    ensures g in Newest(cat, q, rows) && GroupOf(q, g) == GroupOf(q, f)
    decreases |rows|
  {
    if NoNewer(cat, q, rows, f) {
      g := f;
    } else {
      var h :| h in rows && GroupOf(q, h) == GroupOf(q, f) && DateOf(cat, h) > DateOf(cat, f);
      g := SomeNewest(cat, q, rows - {f}, h);
      assert NoNewer(cat, q, rows, g) by {
        assert NoNewer(cat, q, rows - {f}, g) && DateOf(cat, h) <= DateOf(cat, g);
      }
    }
  }

  /** Two rows of one group share the newest date. */
  ghost predicate HasTie(cat: Catalog, q: Query, rows: set<FileRow>) {
    exists g, g' :: g in Newest(cat, q, rows) && g' in Newest(cat, q, rows)
                    && g != g' && GroupOf(q, g) == GroupOf(q, g')
  }

  /** Whatever DISTINCT ON returns, it is all of `Newest` exactly when there is no tie. */
  lemma DistinctOnIsNewest(cat: Catalog, q: Query, rows: set<FileRow>, r: set<FileRow>)
    requires IsDistinctOn(cat, q, rows, r)
    ensures r == Newest(cat, q, rows) <==> !HasTie(cat, q, rows)
  {
  }

  lemma UnambiguousHasNoTie(cat: Catalog, ids: set<JobId>, q: Query)
    requires Unambiguous(cat, ids)
    ensures !HasTie(cat, q, Candidates(cat, ids, q))
  {
  }

  /** The PostgreSQL text and the MySQL/SQLite text have the same answer, with or
      without base jobs and delta parts, for all files or for one. */
  lemma FormsAgree(cat: Catalog, ids: set<JobId>, q: Query, r: set<FileRow>)
    requires Unambiguous(cat, ids)
    ensures IsDistinctOn(cat, q, Candidates(cat, ids, q), r) <==> r == MaxJoin(cat, ids, q)
  {
    var cand := Candidates(cat, ids, q);
    MaxJoinIsNewest(cat, ids, q);
    UnambiguousHasNoTie(cat, ids, q);
    if IsDistinctOn(cat, q, cand, r) {
      DistinctOnIsNewest(cat, q, cand, r);
    }
    forall f | f in cand ensures exists g :: g in Newest(cat, q, cand) && GroupOf(q, g) == GroupOf(q, f) {
      var g := SomeNewest(cat, q, cand, f);
    }
  }
}
