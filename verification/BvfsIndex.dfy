/**
 The BVFS directory index: PathHierarchy, PathVisibility and Job.HasCache.

 The index is kept by build_path_hierarchy, update_path_hierarchy_cache and
 clear_cache, and read by ls_dirs.  Its meaning is stated without it, on path
 strings: a job sees a directory when that directory is a prefix of one of the
 job's file paths.
 */
module BvfsIndexes {
  import opened PathStrings
  import opened PathTables
  import opened CatalogTables

  datatype VisRow = VisRow(pathId: PathId, jobId: JobId)

  /** PathHierarchy: its primary key is PathId, the value is PPathId. */
  type Hierarchy = map<PathId, PathId>

  // ------------------------------------------------------------ definitions

  /** The paths in which a job has a file of its own or one taken from a base job. */
  function Direct(files: set<FileRow>, base: set<BaseRow>, j: JobId): set<PathId> {
    (set f | f in files && f.jobId == j && f.fileIndex > 0 :: f.pathId) +
    (set b, f | b in base && b.jobId == j && f in files && f.fileId == b.fileId :: f.pathId)
  }

  function Visible(vis: set<VisRow>, j: JobId): set<PathId> {
    set r | r in vis && r.jobId == j :: r.pathId
  }

  function Entries(ids: set<PathId>, j: JobId): set<VisRow> {
    set p | p in ids :: VisRow(p, j)
  }

  /** Every row links a path to its parent, and the parent has a row too unless it is "". */
  ghost predicate ChainComplete(rows: map<PathId, string>, h: Hierarchy) {
    forall k :: k in h ==> ChainLink(rows, h, k) && (rows[h[k]] == "" || h[k] in h)
  }

  ghost predicate ChainLink(rows: map<PathId, string>, h: Hierarchy, k: PathId)
    requires k in h
  {
    && k in rows && h[k] in rows
    && rows[k] != "" && rows[h[k]] == ParentDir(rows[k])
  }

  ghost predicate Covered(rows: map<PathId, string>, h: Hierarchy, ids: set<PathId>) {
    forall d :: d in ids ==> d in rows && (rows[d] == "" || d in h)
  }

  /** The simple definition of visibility: the directories above the given paths. */
  ghost function PrefixClosure(rows: map<PathId, string>, ids: set<PathId>): set<PathId>
    requires ids <= rows.Keys
  {
    set k, d | k in rows && d in ids && IsDir(rows[k]) && rows[k] <= rows[d] :: k
  }

  ghost predicate Closed(h: Hierarchy, s: set<PathId>) {
    forall k :: k in s && k in h ==> h[k] in s
  }

  /** The least set that contains `ids` and is closed under PPathId. */
  ghost predicate IsLeastClosed(h: Hierarchy, ids: set<PathId>, s: set<PathId>) {
    ids <= s && Closed(h, s) && forall t: set<PathId> :: ids <= t && Closed(h, t) ==> s <= t
  }

  ghost predicate ScopedTable(rows: map<PathId, string>) {
    UniqueStrings(rows) && forall k :: k in rows ==> InScope(rows[k])
  }

  /** A snapshot of the tables the index is built on. */
  datatype Tables = Tables(rows: map<PathId, string>, files: set<FileRow>, base: set<BaseRow>,
                           jobs: set<JobId>, hierarchy: Hierarchy, visibility: set<VisRow>,
                           hasCache: set<JobId>)

  /** HasCache = 1 means a complete index for the job, HasCache = 0 means none at all. */
  ghost predicate JobIndexed(t: Tables, j: JobId)
    requires Direct(t.files, t.base, j) <= t.rows.Keys
  {
    var direct := Direct(t.files, t.base, j);
    if j in t.hasCache then
      && Covered(t.rows, t.hierarchy, direct)
      && Visible(t.visibility, j) == PrefixClosure(t.rows, direct)
    else Visible(t.visibility, j) == {}
  }

  ghost predicate ValidIndex(t: Tables) {
    && ScopedTable(t.rows)
    && (forall f :: f in t.files ==> f.pathId in t.rows)
    && ChainComplete(t.rows, t.hierarchy)
    && t.hasCache <= t.jobs
    && (forall j :: j !in t.jobs ==> Visible(t.visibility, j) == {})
    && forall j :: j in t.jobs ==> Direct(t.files, t.base, j) <= t.rows.Keys && JobIndexed(t, j)
  }

  // ---------------------------------------------------- climbing the chains

  /** From d the hierarchy leads to every directory prefix of d's path, inside any
      closed set. */
  lemma {:induction false} Climb(rows: map<PathId, string>, h: Hierarchy, s: set<PathId>,
                                 d: PathId, q: string) returns (k: PathId)
    requires ScopedTable(rows) && ChainComplete(rows, h) && Closed(h, s)
    requires d in s && d in rows && (rows[d] == "" || d in h)
    requires IsDir(q) && q <= rows[d]
    ensures k in s && k in rows && rows[k] == q
    decreases |rows[d]|
  {
    if rows[d] == q {
      k := d;
    } else {
      assert ChainLink(rows, h, d);
      AboveIsAboveParent(q, rows[d]);
      k := Climb(rows, h, s, h[d], q);
    }
  }

  lemma PrefixOfPrefix(a: string, b: string, c: string)
    requires a <= b <= c
    ensures a <= c
  {
    assert a == b[..|a|] == c[..|a|];
  }

  lemma ParentInClosure(rows: map<PathId, string>, h: Hierarchy, ids: set<PathId>, k: PathId)
    requires ScopedTable(rows) && ids <= rows.Keys && k in PrefixClosure(rows, ids)
    requires k in h && ChainLink(rows, h, k)
    ensures h[k] in PrefixClosure(rows, ids)
  {
    var d :| d in ids && IsDir(rows[k]) && rows[k] <= rows[d];
    ParentDirInScope(rows[k]);
    PrefixOfPrefix(rows[h[k]], rows[k], rows[d]);
  }

  lemma PrefixClosureIsClosed(rows: map<PathId, string>, h: Hierarchy, ids: set<PathId>)
    requires ScopedTable(rows) && ChainComplete(rows, h) && ids <= rows.Keys
    ensures Closed(h, PrefixClosure(rows, ids)) && ids <= PrefixClosure(rows, ids)
  {
    var p := PrefixClosure(rows, ids);
    forall k | k in p && k in h ensures h[k] in p { ParentInClosure(rows, h, ids, k); }
    forall d | d in ids ensures d in p {
      assert InScope(rows[d]) && rows[d] <= rows[d];
    }
  }

  /** Whatever holds the paths and is closed holds the directories above them. */
  lemma ClosedHoldsClosure(rows: map<PathId, string>, h: Hierarchy, ids: set<PathId>, t: set<PathId>, k: PathId)
    requires ScopedTable(rows) && ChainComplete(rows, h) && Covered(rows, h, ids)
    requires ids <= t && Closed(h, t) && k in PrefixClosure(rows, ids)
    ensures k in t
  {
    var d :| d in ids && rows[k] <= rows[d] && IsDir(rows[k]);
    var k' := Climb(rows, h, t, d, rows[k]);
    assert SameString(rows, k, k');
  }

  /** On a chain-complete hierarchy the least fixpoint is the prefix definition. */
  lemma LeastClosedIsPrefixClosure(rows: map<PathId, string>, h: Hierarchy,
                                   ids: set<PathId>, s: set<PathId>)
    requires ScopedTable(rows) && ChainComplete(rows, h) && Covered(rows, h, ids)
    ensures IsLeastClosed(h, ids, s) <==> s == PrefixClosure(rows, ids)
  {
    var p := PrefixClosure(rows, ids);
    PrefixClosureIsClosed(rows, h, ids);
    forall t: set<PathId> | ids <= t && Closed(h, t) ensures p <= t {
      forall k | k in p ensures k in t { ClosedHoldsClosure(rows, h, ids, t, k); }
    }
    assert IsLeastClosed(h, ids, p);
  }

  /** New paths and new hierarchy rows leave what is already indexed as it was. */
  lemma GrowthKeepsPrefixClosure(rows: map<PathId, string>, h: Hierarchy,
                                 rows': map<PathId, string>, ids: set<PathId>)
    requires ScopedTable(rows) && ChainComplete(rows, h) && Covered(rows, h, ids)
    requires ScopedTable(rows') && Extends(rows, rows')
    ensures PrefixClosure(rows', ids) == PrefixClosure(rows, ids)
  {
    forall k | k in PrefixClosure(rows', ids) ensures k in PrefixClosure(rows, ids) {
      var d :| d in ids && rows'[k] <= rows'[d] && IsDir(rows'[k]);
      assert Closed(h, rows.Keys) by {
        forall x | x in h ensures h[x] in rows { assert ChainLink(rows, h, x); }
      }
      var k' := Climb(rows, h, rows.Keys, d, rows'[k]);
      assert SameString(rows', k, k');
    }
  }

  // ------------------------------------------------------- the step queries

  /** The parents of the paths a job sees. */
  function ParentsOfVisible(h: Hierarchy, vis: set<VisRow>, j: JobId): set<PathId> {
    set r | r in vis && r.jobId == j && r.pathId in h :: h[r.pathId]
  }

  /** SQLite: of the rows of visible paths, the parents that are not visible. */
  function StepSqlite(h: Hierarchy, vis: set<VisRow>, j: JobId): set<PathId> {
    set k | k in h && k in Visible(vis, j) && h[k] !in Visible(vis, j) :: h[k]
  }

  /** MySQL: the parents that an outer join with the job's rows leaves without a partner. */
  function StepMysql(h: Hierarchy, vis: set<VisRow>, j: JobId): set<PathId> {
    set p | p in MysqlJoin(h, vis, j) && p.1.None? :: p.0
  }

  function MysqlJoin(h: Hierarchy, vis: set<VisRow>, j: JobId): set<(PathId, Option<VisRow>)> {
    var a := ParentsOfVisible(h, vis, j);
    (set x, r | x in a && r in vis && r.jobId == j && r.pathId == x :: (x, Some(r))) +
    (set x | x in a && !(exists r :: r in vis && r.jobId == j && r.pathId == x) :: (x, None))
  }

  /** PostgreSQL: the same join, with the job's paths selected first. */
  function StepPostgresql(h: Hierarchy, vis: set<VisRow>, j: JobId): set<PathId> {
    set p | p in PostgresqlJoin(h, vis, j) && p.1.None? :: p.0
  }

  function PostgresqlJoin(h: Hierarchy, vis: set<VisRow>, j: JobId): set<(PathId, Option<PathId>)> {
    var a, b := ParentsOfVisible(h, vis, j), Visible(vis, j);
    (set x | x in a && x in b :: (x, Some(x))) + (set x | x in a && x !in b :: (x, None))
  }

  function Step(backend: Backend, h: Hierarchy, vis: set<VisRow>, j: JobId): set<PathId> {
    match backend
    case SQLite => StepSqlite(h, vis, j)
    case MySQL => StepMysql(h, vis, j)
    case PostgreSQL => StepPostgresql(h, vis, j)
  }

  /** The three INSERT ... SELECT texts add the same rows: the parents of visible
      paths that are not visible yet. */
  lemma StepsAgree(backend: Backend, h: Hierarchy, vis: set<VisRow>, j: JobId)
    ensures Step(backend, h, vis, j) == ParentsOfVisible(h, vis, j) - Visible(vis, j)
  {
    match backend
    case SQLite => SqliteStep(h, vis, j);
    case MySQL => MysqlStep(h, vis, j);
    case PostgreSQL => PostgresqlStep(h, vis, j);
  }

  lemma SqliteStep(h: Hierarchy, vis: set<VisRow>, j: JobId)
    ensures StepSqlite(h, vis, j) == ParentsOfVisible(h, vis, j) - Visible(vis, j)
  {
    forall p | p in StepSqlite(h, vis, j) ensures p in ParentsOfVisible(h, vis, j) {
      var k :| k in h && k in Visible(vis, j) && h[k] == p;
      var r :| r in vis && r.jobId == j && r.pathId == k;
    }
    forall p | p in ParentsOfVisible(h, vis, j) && p !in Visible(vis, j) ensures p in StepSqlite(h, vis, j) {
      var r :| r in vis && r.jobId == j && r.pathId in h && h[r.pathId] == p;
      assert r.pathId in Visible(vis, j);
    }
  }

  lemma MysqlStep(h: Hierarchy, vis: set<VisRow>, j: JobId)
    ensures StepMysql(h, vis, j) == ParentsOfVisible(h, vis, j) - Visible(vis, j)
  {
    forall x | x in ParentsOfVisible(h, vis, j) && x !in Visible(vis, j) ensures x in StepMysql(h, vis, j) {
      assert forall r :: r in vis && r.jobId == j ==> r.pathId in Visible(vis, j);
      var p: (PathId, Option<VisRow>) := (x, None);
      assert p in MysqlJoin(h, vis, j) && p.1.None?;
    }
    forall x | x in StepMysql(h, vis, j) ensures x in ParentsOfVisible(h, vis, j) && x !in Visible(vis, j) {
      var p :| p in MysqlJoin(h, vis, j) && p.1.None? && p.0 == x;
      assert !(exists r :: r in vis && r.jobId == j && r.pathId == x);
    }
  }

  lemma PostgresqlStep(h: Hierarchy, vis: set<VisRow>, j: JobId)
    ensures StepPostgresql(h, vis, j) == ParentsOfVisible(h, vis, j) - Visible(vis, j)
  {
    forall x | x in ParentsOfVisible(h, vis, j) && x !in Visible(vis, j) ensures x in StepPostgresql(h, vis, j) {
      var p: (PathId, Option<PathId>) := (x, None);
      assert p in PostgresqlJoin(h, vis, j) && p.1.None?;
    }
    forall x | x in StepPostgresql(h, vis, j) ensures x in ParentsOfVisible(h, vis, j) && x !in Visible(vis, j) {
      var p :| p in PostgresqlJoin(h, vis, j) && p.1.None? && p.0 == x;
    }
  }

  lemma VisibleAfterInsert(vis: set<VisRow>, ids: set<PathId>, j: JobId, j': JobId)
    ensures Visible(vis + Entries(ids, j), j') ==
            Visible(vis, j') + (if j == j' then ids else {})
  {
    var vis' := vis + Entries(ids, j);
    forall p | p in Visible(vis, j') + (if j == j' then ids else {}) ensures p in Visible(vis', j') {
      assert p in Visible(vis, j') || VisRow(p, j) in vis';
    }
  }

  /** A step that adds nothing means the set is closed. */
  lemma EmptyStepIsClosed(backend: Backend, h: Hierarchy, vis: set<VisRow>, j: JobId)
    requires Step(backend, h, vis, j) == {}
    ensures Closed(h, Visible(vis, j))
  {
    StepsAgree(backend, h, vis, j);
    forall k | k in Visible(vis, j) && k in h ensures h[k] in Visible(vis, j) {
      var r :| r in vis && r.jobId == j && r.pathId == k;
      assert h[r.pathId] in ParentsOfVisible(h, vis, j);
      assert h[k] !in ParentsOfVisible(h, vis, j) - Visible(vis, j);
    }
  }

  // ----------------------------------------------------------------- ls_dirs

  /** The index subquery of ls_dirs: directories whose parent is `pwd` and which some
      listed job sees. */
  ghost function ListDirs(t: Tables, pwd: PathId, jobids: set<JobId>): set<PathId> {
    set k, j | k in t.hierarchy && k in t.rows && t.hierarchy[k] == pwd
               && j in jobids && VisRow(k, j) in t.visibility :: k
  }

  /** Directory string `dir` lies directly under `cwd` and holds, at some depth, a
      file of a listed job. */
  ghost predicate IsSubdirWithFiles(t: Tables, dir: string, cwd: string, jobids: set<JobId>) {
    exists j, d :: j in jobids && d in Direct(t.files, t.base, j) && d in t.rows
                   && dir != "" && ParentDir(dir) == cwd && IsDir(dir) && dir <= t.rows[d]
  }

  /** Where a job has something: a file of its own that is not a deletion, or a file it
      takes from a base job. */
  lemma DirectMeans(files: set<FileRow>, base: set<BaseRow>, j: JobId, d: PathId)
    ensures d in Direct(files, base, j) <==>
            exists f | f in files && f.pathId == d
              :: (f.jobId == j && f.fileIndex > 0) || exists b :: b in base && b.jobId == j && b.fileId == f.fileId
  {
  }

  /** The listing answered by the index is the one defined on path strings: nothing
      too many ... */
  lemma ListDirsSound(t: Tables, pwd: PathId, jobids: set<JobId>, k: PathId)
    requires ValidIndex(t) && pwd in t.rows && jobids <= t.hasCache
    requires k in ListDirs(t, pwd, jobids)
    ensures k in t.rows && IsSubdirWithFiles(t, t.rows[k], t.rows[pwd], jobids)
  {
    var j :| j in jobids && VisRow(k, j) in t.visibility;
    assert JobIndexed(t, j) && k in Visible(t.visibility, j);
    var direct := Direct(t.files, t.base, j);
    var d :| d in direct && IsDir(t.rows[k]) && t.rows[k] <= t.rows[d];
    assert ChainLink(t.rows, t.hierarchy, k);
  }

  /** ... and nothing missing: each such directory string has a PathId, and it is listed. */
  lemma ListDirsComplete(t: Tables, pwd: PathId, jobids: set<JobId>, dir: string) returns (k: PathId)
    requires ValidIndex(t) && pwd in t.rows && jobids <= t.hasCache
    requires IsSubdirWithFiles(t, dir, t.rows[pwd], jobids)
    ensures k in ListDirs(t, pwd, jobids) && k in t.rows && t.rows[k] == dir
  {
    var j, d :| j in jobids && d in Direct(t.files, t.base, j) && d in t.rows && dir <= t.rows[d];
    assert JobIndexed(t, j);
    k := DirVisible(t, j, d, dir);
    assert SameString(t.rows, t.hierarchy[k], pwd);
  }

  /** A directory above a job's file is visible to the job and has its hierarchy row. */
  lemma DirVisible(t: Tables, j: JobId, d: PathId, dir: string) returns (k: PathId)
    requires ScopedTable(t.rows) && ChainComplete(t.rows, t.hierarchy) && j in t.hasCache
    requires Direct(t.files, t.base, j) <= t.rows.Keys && JobIndexed(t, j)
    requires d in Direct(t.files, t.base, j) && IsDir(dir) && dir != "" && dir <= t.rows[d]
    ensures VisRow(k, j) in t.visibility && k in t.rows && t.rows[k] == dir
    ensures k in t.hierarchy && t.hierarchy[k] in t.rows && t.rows[t.hierarchy[k]] == ParentDir(dir)
  {
    var direct := Direct(t.files, t.base, j);
    PrefixClosureIsClosed(t.rows, t.hierarchy, direct);
    k := Climb(t.rows, t.hierarchy, PrefixClosure(t.rows, direct), d, dir);
    var r :| r in t.visibility && r.jobId == j && r.pathId == k;
    assert r == VisRow(k, j);
    var _ := ClimbRow(t.rows, t.hierarchy, d, dir, k);
  }

  /** The directories that ls_dirs finds through the index are the sub-directories of
      the current one below which some listed job has a file. */
  lemma ListDirsIsSubdirs(t: Tables, pwd: PathId, jobids: set<JobId>, dir: string)
    requires ValidIndex(t) && pwd in t.rows && jobids <= t.hasCache
    ensures (exists k :: k in ListDirs(t, pwd, jobids) && t.rows[k] == dir) <==>
            IsSubdirWithFiles(t, dir, t.rows[pwd], jobids)
  {
    if k :| k in ListDirs(t, pwd, jobids) && t.rows[k] == dir {
      ListDirsSound(t, pwd, jobids, k);
    }
    if IsSubdirWithFiles(t, dir, t.rows[pwd], jobids) {
      var k := ListDirsComplete(t, pwd, jobids, dir);
    }
  }

  /** What an indexed job sees, on the tables alone: the directories that are a prefix of the
      path of a file it has, its own or one of a base job. */
  lemma VisibleMeans(t: Tables, j: JobId, k: PathId)
    requires ValidIndex(t) && j in t.hasCache
    ensures VisRow(k, j) in t.visibility <==>
            && k in t.rows && (t.rows[k] == "" || t.rows[k][|t.rows[k]| - 1] == '/')
            && exists f | f in t.files && t.rows[k] <= t.rows[f.pathId]
                 :: (f.jobId == j && f.fileIndex > 0) || exists b :: b in t.base && b.jobId == j && b.fileId == f.fileId
  {
    var direct := Direct(t.files, t.base, j);
    assert JobIndexed(t, j);
    assert VisRow(k, j) in t.visibility <==> k in Visible(t.visibility, j) by {
      if k in Visible(t.visibility, j) {
        var r :| r in t.visibility && r.jobId == j && r.pathId == k;
        assert r == VisRow(k, j);
      }
    }
    forall d { DirectMeans(t.files, t.base, j, d); }
  }

  /** The same on the tables alone: a sub-directory is listed iff some listed job has a file
      in it or below, its own or one of a base job. */
  lemma ListDirsExact(t: Tables, pwd: PathId, jobids: set<JobId>, dir: string)
    requires ValidIndex(t) && pwd in t.rows && jobids <= t.hasCache
    requires dir != "" && dir[|dir| - 1] == '/' && ParentDir(dir) == t.rows[pwd]
    ensures (exists k :: k in t.hierarchy && t.hierarchy[k] == pwd && k in t.rows && t.rows[k] == dir
                         && exists j :: j in jobids && VisRow(k, j) in t.visibility) <==>
            exists j, f | j in jobids && f in t.files && dir <= t.rows[f.pathId]
              :: (f.jobId == j && f.fileIndex > 0) || exists b :: b in t.base && b.jobId == j && b.fileId == f.fileId
  {
    ListDirsIsSubdirs(t, pwd, jobids, dir);
    forall j, d { DirectMeans(t.files, t.base, j, d); }
  }

  /** Every non-empty directory above d has its own PathHierarchy row. */
  lemma {:induction false} ClimbRow(rows: map<PathId, string>, h: Hierarchy, d: PathId,
                                    q: string, k: PathId) returns (parent: PathId)
    requires ScopedTable(rows) && ChainComplete(rows, h)
    requires d in rows && d in h && IsDir(q) && q != "" && q <= rows[d]
    requires k in rows && rows[k] == q
    ensures k in h && h[k] == parent && parent in rows && rows[parent] == ParentDir(q)
    decreases |rows[d]|
  {
    assert ChainLink(rows, h, d);
    if rows[d] == q {
      assert SameString(rows, d, k);
      parent := h[d];
    } else {
      AboveIsAboveParent(q, rows[d]);
      assert rows[h[d]] != "";
      parent := ClimbRow(rows, h, h[d], q, k);
    }
  }
}
