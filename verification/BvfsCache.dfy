/**
 The routines that maintain the BVFS index: build_path_hierarchy,
 update_path_hierarchy_cache, bvfs_update_path_hierarchy_cache and clear_cache.
 */
module BvfsCaches {
  import opened PathStrings
  import opened PathTables
  import opened CatalogTables
  import opened BvfsIndexes

  /** While a chain is being built only `open` may lack the row its child points to. */
  ghost predicate ChainOpenAt(rows: map<PathId, string>, h: Hierarchy, open: PathId) {
    forall k :: k in h ==> ChainLink(rows, h, k) && (rows[h[k]] == "" || h[k] in h || h[k] == open)
  }

  ghost predicate ExtendsHierarchy(h: Hierarchy, h': Hierarchy) {
    h.Keys <= h'.Keys && forall k :: k in h ==> h'[k] == h[k]
  }

  /** s holds the start and stays inside every closed set that does. */
  ghost predicate Between(h: Hierarchy, start: set<PathId>, s: set<PathId>) {
    start <= s && forall t: set<PathId> :: start <= t && Closed(h, t) ==> s <= t
  }

  lemma ChainGrows(rows: map<PathId, string>, h: Hierarchy, rows': map<PathId, string>,
                   pathId: PathId, parentId: PathId)
    requires ChainOpenAt(rows, h, pathId) && pathId !in h && pathId in rows && rows[pathId] != ""
    requires Extends(rows, rows') && parentId in rows' && rows'[parentId] == ParentDir(rows[pathId])
    ensures ChainOpenAt(rows', h[pathId := parentId], parentId)
  {
  }

  lemma ChainCloses(rows: map<PathId, string>, h: Hierarchy, open: PathId)
    requires ChainOpenAt(rows, h, open) && open in rows && (rows[open] == "" || open in h)
    ensures ChainComplete(rows, h)
  {
  }

  /** One iteration of the visibility loop: what it adds ... */
  lemma ClosingStep(backend: Backend, h: Hierarchy, vis: set<VisRow>, j: JobId, start: set<PathId>)
    requires Between(h, start, Visible(vis, j))
    ensures var added := Step(backend, h, vis, j); var vis' := vis + Entries(added, j);
            && Between(h, start, Visible(vis', j))
            && (forall k :: k != j ==> Visible(vis', k) == Visible(vis, k))
  {
  }

  /** ... and how it makes progress. */
  lemma ClosingProgress(backend: Backend, h: Hierarchy, vis: set<VisRow>, j: JobId)
    ensures var added := Step(backend, h, vis, j); var vis' := vis + Entries(added, j);
            && (added == {} ==> Visible(vis', j) == Visible(vis, j) && Closed(h, Visible(vis', j)))
            && (added != {} ==> |h.Values - Visible(vis', j)| < |h.Values - Visible(vis, j)|)
  {
    var added := Step(backend, h, vis, j);
    StepsAgree(backend, h, vis, j);
    VisibleAfterInsert(vis, added, j, j);
    if added == {} {
      EmptyStepIsClosed(backend, h, vis, j);
      assert Visible(vis, j) + added == Visible(vis, j);
    } else {
      StepShrinks(h, vis, j, added);
    }
  }

  /** A file a new job saved, with its path spelled out. */
  datatype NewFile = NewFile(path: string, filename: string, fileIndex: int, lstat: string, deltaSeq: nat)

  /** A run of the catalog: jobs are indexed in batches that share a pathid_cache, the index
      is cleared, and new jobs are recorded with their files and what they take from bases. */
  datatype IndexOp =
    | UpdateCache(jobids: seq<JobId>)
    | ClearCache
    | RecordJob(job: JobId, files: seq<NewFile>, base: set<BaseRow>)

  function JobsAfter(jobs: set<JobId>, ops: seq<IndexOp>): set<JobId> {
    if ops == [] then jobs
    else
      var before := JobsAfter(jobs, ops[..|ops| - 1]);
      if ops[|ops| - 1].RecordJob? then before + {ops[|ops| - 1].job} else before
  }

  /** Only known jobs are indexed, only new ones recorded, and their paths are in scope. */
  ghost predicate Fitting(jobs: set<JobId>, op: IndexOp) {
    match op
    case UpdateCache(ids) => forall k :: 0 <= k < |ids| ==> ids[k] in jobs
    case ClearCache => true
    case RecordJob(j, files, base) => j !in jobs && PathsInScope(files)
  }

  ghost predicate PathsInScope(files: seq<NewFile>) {
    forall k :: 0 <= k < |files| ==> InScope(files[k].path)
  }

  ghost predicate FittingRun(jobs: set<JobId>, ops: seq<IndexOp>) {
    forall i :: 0 <= i < |ops| ==> Fitting(JobsAfter(jobs, ops[..i]), ops[i])
  }

  /** Which jobs have HasCache = 1 after a run. */
  function CachedAfter(cached: set<JobId>, ops: seq<IndexOp>): set<JobId> {
    if ops == [] then cached
    else
      var before := CachedAfter(cached, ops[..|ops| - 1]);
      match ops[|ops| - 1]
      case UpdateCache(ids) => before + set i | 0 <= i < |ids| :: ids[i]
      case ClearCache => {}
      case RecordJob(_, _, _) => before
  }

  /** All FileIds in use, and those the BaseFiles rows refer to, are below the next key. */
  ghost predicate IdsBelow(files: set<FileRow>, base: set<BaseRow>, next: FileId) {
    (forall f :: f in files ==> f.fileId < next) && (forall b :: b in base ==> b.fileId < next)
  }

  class BvfsCache {
    const db: PathTable
    var files: set<FileRow>
    var base: set<BaseRow>
    var jobs: set<JobId>
    var nextFileId: FileId
    var hierarchy: Hierarchy
    var visibility: set<VisRow>
    var hasCache: set<JobId>

    constructor (db: PathTable, files: set<FileRow>, base: set<BaseRow>, jobs: set<JobId>, nextFileId: FileId)
      requires db.Valid() && ScopedTable(db.rows) && IdsBelow(files, base, nextFileId)
      requires forall f :: f in files ==> f.pathId in db.rows
      ensures Valid() && this.db == db && hasCache == {} && this.jobs == jobs
    {
      this.db := db;
      this.files, this.base, this.jobs, this.nextFileId := files, base, jobs, nextFileId;
      hierarchy, visibility, hasCache := map[], {}, {};
    }

    ghost function Now(): Tables
      reads this, db
    {
      Tables(db.rows, files, base, jobs, hierarchy, visibility, hasCache)
    }

    ghost predicate Valid()
      reads this, db
    {
      db.Valid() && ValidIndex(Now()) && IdsBelow(files, base, nextFileId)
    }

    /** Find or create the parent in Path and insert the PathHierarchy row; db.path is
        left holding the parent's path. */
    method LinkToParent(pathId: PathId) returns (parentId: PathId)
      requires db.Valid() && ScopedTable(db.rows) && ChainOpenAt(db.rows, hierarchy, pathId)
      requires pathId in db.rows && db.rows[pathId] != "" && pathId !in hierarchy
      modifies this`hierarchy, db
      ensures db.Valid() && ScopedTable(db.rows) && ChainOpenAt(db.rows, hierarchy, parentId)
      ensures Extends(old(db.rows), db.rows)
      ensures hierarchy == old(hierarchy)[pathId := parentId]
      ensures parentId in db.rows && db.rows[parentId] == db.path
      ensures |db.path| < |old(db.rows)[pathId]|
    {
      ghost var before := db.State();
      var path := db.rows[pathId];
      ParentDirInScope(path);
      db.SetPath(ParentDir(path));
      parentId := db.CreatePathRecord();
      CreateKeepsTable(before, ParentDir(path));
      ChainGrows(before.rows, hierarchy, db.rows, pathId, parentId);
      hierarchy := hierarchy[pathId := parentId];
    }

    /** One turn of the climb: stop at a path that is in the cache or has a row, or link
        the path to its parent and go on there. */
    method ClimbStep(cache: set<PathId>, pathId: PathId)
      returns (cache': set<PathId>, next: PathId, known: bool)
      requires db.Valid() && ScopedTable(db.rows) && ChainOpenAt(db.rows, hierarchy, pathId)
      requires pathId in db.rows && db.rows[pathId] != "" && cache <= hierarchy.Keys
      modifies this`hierarchy, db
      ensures db.Valid() && ScopedTable(db.rows) && ChainOpenAt(db.rows, hierarchy, next)
      ensures Extends(old(db.rows), db.rows) && ExtendsHierarchy(old(hierarchy), hierarchy)
      ensures cache' <= hierarchy.Keys && pathId in hierarchy && next in db.rows
      ensures if known then next == pathId && db.rows == old(db.rows)
              else |db.rows[next]| < |db.rows[pathId]|
    {
      next, known := pathId, true;
      if pathId in cache {
        cache' := cache;
      } else if pathId in hierarchy {
        cache' := cache + {pathId};
      } else {
        cache' := cache + {pathId};
        next := LinkToParent(pathId);
        known := false;
      }
    }

    /** build_path_hierarchy: climb from a path towards the root until an ancestor is
        known.  `cache` is the pathid_cache shared by the calls. */
    method BuildPathHierarchy(cache: set<PathId>, orgId: PathId) returns (cache': set<PathId>)
      requires db.Valid() && ScopedTable(db.rows) && ChainComplete(db.rows, hierarchy)
      requires cache <= hierarchy.Keys && orgId in db.rows
      modifies this`hierarchy, db
      ensures db.Valid() && ScopedTable(db.rows) && ChainComplete(db.rows, hierarchy)
      ensures cache' <= hierarchy.Keys
      ensures Extends(old(db.rows), db.rows) && ExtendsHierarchy(old(hierarchy), hierarchy)
      ensures db.rows[orgId] == "" || orgId in hierarchy
      ensures db.path == old(db.path)
    {
      var bkp := db.path;
      var pathId, known := orgId, false;
      cache' := cache;
      while db.rows[pathId] != "" && !known
        invariant db.Valid() && ScopedTable(db.rows) && ChainOpenAt(db.rows, hierarchy, pathId)
        invariant pathId in db.rows && cache' <= hierarchy.Keys && (known ==> pathId in hierarchy)
        invariant Extends(old(db.rows), db.rows) && ExtendsHierarchy(old(hierarchy), hierarchy)
        invariant orgId in hierarchy || orgId == pathId
        decreases |db.rows[pathId]|, !known
      {
        cache', pathId, known := ClimbStep(cache', pathId);
      }
      ChainCloses(db.rows, hierarchy, pathId);
      db.RestorePath(bkp);
    }

    /** The rows inserted for the job's own paths, and the hierarchy above them. */
    method BuildMissingChains(cache: set<PathId>, todo: set<PathId>) returns (cache': set<PathId>)
      requires db.Valid() && ScopedTable(db.rows) && ChainComplete(db.rows, hierarchy)
      requires cache <= hierarchy.Keys && todo <= db.rows.Keys
      modifies this`hierarchy, db
      ensures db.Valid() && ScopedTable(db.rows) && ChainComplete(db.rows, hierarchy)
      ensures cache' <= hierarchy.Keys
      ensures Extends(old(db.rows), db.rows) && ExtendsHierarchy(old(hierarchy), hierarchy)
      ensures Covered(db.rows, hierarchy, todo)
    {
      cache' := cache;
      var rest := todo;
      while rest != {}
        invariant db.Valid() && ScopedTable(db.rows) && ChainComplete(db.rows, hierarchy)
        invariant rest <= todo <= db.rows.Keys
        invariant cache' <= hierarchy.Keys
        invariant Extends(old(db.rows), db.rows) && ExtendsHierarchy(old(hierarchy), hierarchy)
        invariant Covered(db.rows, hierarchy, todo - rest)
        decreases |rest|
      {
        var id :| id in rest;
        cache' := BuildPathHierarchy(cache', id);
        rest := rest - {id};
      }
    }

    /** The do/while loop: repeat the backend's INSERT until it affects no row. */
    method CloseVisibility(j: JobId)
      modifies this`visibility
      ensures IsLeastClosed(hierarchy, old(Visible(visibility, j)), Visible(visibility, j))
      ensures forall k :: k != j ==> Visible(visibility, k) == Visible(old(visibility), k)
    {
      ghost var start := Visible(visibility, j);
      var affected := 1;
      while affected > 0
        invariant affected >= 0
        invariant Between(hierarchy, start, Visible(visibility, j))
        invariant forall k :: k != j ==> Visible(visibility, k) == Visible(old(visibility), k)
        invariant affected == 0 ==> Closed(hierarchy, Visible(visibility, j))
        decreases |hierarchy.Values - Visible(visibility, j)|, affected
      {
        var added := Step(db.backend, hierarchy, visibility, j);
        ClosingStep(db.backend, hierarchy, visibility, j, start);
        ClosingProgress(db.backend, hierarchy, visibility, j);
        visibility := visibility + Entries(added, j);
        affected := |added|;
      }
    }

    /** update_path_hierarchy_cache for one job. */
    method UpdatePathHierarchyCache(cache: set<PathId>, j: JobId) returns (cache': set<PathId>)
      requires Valid() && j in jobs && cache <= hierarchy.Keys
      modifies this`hierarchy, this`visibility, this`hasCache, db
      ensures Valid() && cache' <= hierarchy.Keys
      ensures hasCache == old(hasCache) + {j}
      ensures Extends(old(db.rows), db.rows) && ExtendsHierarchy(old(hierarchy), hierarchy)
      ensures forall k :: k != j ==> Visible(visibility, k) == Visible(old(visibility), k)
      ensures IsLeastClosed(hierarchy, Direct(files, base, j), Visible(visibility, j))
    {
      assert JobIndexed(Now(), j);
      if j in hasCache {
        LeastClosedIsPrefixClosure(db.rows, hierarchy, Direct(files, base, j), Visible(visibility, j));
        cache' := cache;
      } else {
        cache' := IndexJob(cache, j);
      }
    }

    /** The job's own paths become visible to it. */
    method InsertDirect(j: JobId)
      requires Visible(visibility, j) == {}
      modifies this`visibility
      ensures Visible(visibility, j) == Direct(files, base, j)
      ensures forall k :: k != j ==> Visible(visibility, k) == Visible(old(visibility), k)
    {
      forall k { VisibleAfterInsert(visibility, Direct(files, base, j), j, k); }
      visibility := visibility + Entries(Direct(files, base, j), j);
    }

    /** The part below the test of HasCache. */
    method IndexJob(cache: set<PathId>, j: JobId) returns (cache': set<PathId>)
      requires Valid() && j in jobs && j !in hasCache && cache <= hierarchy.Keys
      modifies this`hierarchy, this`visibility, this`hasCache, db
      ensures Valid() && cache' <= hierarchy.Keys
      ensures hasCache == old(hasCache) + {j}
      ensures Extends(old(db.rows), db.rows) && ExtendsHierarchy(old(hierarchy), hierarchy)
      ensures forall k :: k != j ==> Visible(visibility, k) == Visible(old(visibility), k)
      ensures IsLeastClosed(hierarchy, Direct(files, base, j), Visible(visibility, j))
    {
      ghost var before := Now();
      assert JobIndexed(before, j);
      cache' := FillIndex(cache, j);
      UpdateKeepsIndex(before, Now(), j);
      HoldsIndex();
    }

    /** The direct rows, the chains above them, the closure, and the mark. */
    method FillIndex(cache: set<PathId>, j: JobId) returns (cache': set<PathId>)
      requires db.Valid() && ScopedTable(db.rows) && ChainComplete(db.rows, hierarchy)
      requires cache <= hierarchy.Keys && Direct(files, base, j) <= db.rows.Keys && Visible(visibility, j) == {}
      modifies this`hierarchy, this`visibility, this`hasCache, db
      ensures db.Valid() && ScopedTable(db.rows) && ChainComplete(db.rows, hierarchy)
      ensures cache' <= hierarchy.Keys && hasCache == old(hasCache) + {j}
      ensures Extends(old(db.rows), db.rows) && ExtendsHierarchy(old(hierarchy), hierarchy)
      ensures Covered(db.rows, hierarchy, Direct(files, base, j) - old(hierarchy).Keys)
      ensures forall k :: k != j ==> Visible(visibility, k) == Visible(old(visibility), k)
      ensures IsLeastClosed(hierarchy, Direct(files, base, j), Visible(visibility, j))
    {
      InsertDirect(j);
      cache' := BuildMissingChains(cache, Direct(files, base, j) - hierarchy.Keys);
      CloseVisibility(j);
      hasCache := hasCache + {j};
    }

    lemma HoldsIndex()
      requires db.Valid() && ValidIndex(Now()) && IdsBelow(files, base, nextFileId)
      ensures Valid()
    {
    }

    /** bvfs_update_path_hierarchy_cache: a list of jobs sharing one pathid_cache. */
    method UpdateCacheForJobs(jobids: seq<JobId>)
      requires Valid() && forall i :: 0 <= i < |jobids| ==> jobids[i] in jobs
      modifies this`hierarchy, this`visibility, this`hasCache, db
      ensures Valid()
      ensures hasCache == old(hasCache) + set i | 0 <= i < |jobids| :: jobids[i]
    {
      var cache: set<PathId> := {};
      for i := 0 to |jobids|
        invariant Valid() && cache <= hierarchy.Keys
        invariant hasCache == old(hasCache) + set k | 0 <= k < i :: jobids[k]
      {
        cache := UpdatePathHierarchyCache(cache, jobids[i]);
      }
    }

    method Clear()
      requires Valid()
      modifies this`hierarchy, this`visibility, this`hasCache
      ensures Valid() && hasCache == {} && hierarchy == map[] && visibility == {}
    {
      hasCache := {};
      hierarchy := map[];
      visibility := {};
    }

    /** One file of a new job: Path gets its path if it is missing. */
    method RecordFile(j: JobId, n: NewFile)
      requires Valid() && j !in jobs && InScope(n.path)
      modifies this`files, this`nextFileId, db
      ensures Valid() && Extends(old(db.rows), db.rows) && nextFileId == old(nextFileId) + 1
      ensures exists f :: f !in old(files) && files == old(files) + {f} && f.jobId == j && f.fileId == old(nextFileId)
    {
      ghost var before := Now();
      CreateKeepsTable(db.State(), n.path);
      db.SetPath(n.path);
      var id := db.CreatePathRecord();
      var f := FileRow(nextFileId, n.fileIndex, j, id, n.filename, n.lstat, n.deltaSeq);
      files, nextFileId := files + {f}, nextFileId + 1;
      CreateKeepsScope(before.rows, db.rows, id, n.path);
      FileKeepsIndex(before, Now(), j, f);
    }

    method RecordFiles(j: JobId, newFiles: seq<NewFile>)
      requires Valid() && j !in jobs && PathsInScope(newFiles)
      modifies this`files, this`nextFileId, db
      ensures Valid() && Extends(old(db.rows), db.rows) && nextFileId >= old(nextFileId)
      ensures old(files) <= files && |files| == |old(files)| + |newFiles|
      ensures forall f :: f in files - old(files) ==> f.jobId == j && f.fileId >= old(nextFileId)
    {
      for i := 0 to |newFiles|
        invariant Valid() && Extends(old(db.rows), db.rows) && nextFileId >= old(nextFileId)
        invariant old(files) <= files && |files| == |old(files)| + i
        invariant forall f :: f in files - old(files) ==> f.jobId == j && f.fileId >= old(nextFileId)
      {
        RecordFile(j, newFiles[i]);
      }
    }

    /** A new job enters the catalog with its files and the base files it uses. */
    method Record(j: JobId, newFiles: seq<NewFile>, newBase: set<BaseRow>)
      requires Valid() && j !in jobs && PathsInScope(newFiles)
      modifies this`files, this`base, this`jobs, this`nextFileId, db
      ensures Valid() && jobs == old(jobs) + {j} && Extends(old(db.rows), db.rows)
      ensures |files| == |old(files)| + |newFiles|
      ensures forall k :: k != j ==> Direct(files, base, k) == Direct(old(files), old(base), k)
    {
      ghost var before := Now();
      var next := nextFileId;
      RecordFiles(j, newFiles);
      ghost var filled := Now();
      forall k | k != j ensures Direct(files, base, k) == Direct(before.files, base, k) {
        FilesOfOthers(before.files, files, base, j, k, next);
      }
      base := base + set b | b in newBase && b.jobId == j && b.fileId < next;
      jobs := jobs + {j};
      JobKeepsIndex(filled, Now(), j);
    }

    /** Every run of updates, clears and new jobs keeps the index exact. */
    method RunIndexOps(ops: seq<IndexOp>)
      requires Valid() && FittingRun(jobs, ops)
      modifies this, db
      ensures Valid() && jobs == JobsAfter(old(jobs), ops)
      ensures hasCache == CachedAfter(old(hasCache), ops)
    {
      for i := 0 to |ops|
        invariant Valid() && jobs == JobsAfter(old(jobs), ops[..i])
        invariant hasCache == CachedAfter(old(hasCache), ops[..i])
      {
        assert ops[..i + 1][..i] == ops[..i];
        match ops[i] {
          case UpdateCache(ids) => UpdateCacheForJobs(ids);
          case ClearCache => Clear();
          case RecordJob(j, newFiles, newBase) => Record(j, newFiles, newBase);
        }
      }
      assert ops[..|ops|] == ops;
    }
  }

  // ------------------------------------------------------------- new jobs

  /** Files of job j under new FileIds do not change what another job holds. */
  lemma FilesOfOthers(files: set<FileRow>, files': set<FileRow>, base: set<BaseRow>, j: JobId, k: JobId, next: FileId)
    requires files <= files' && k != j && IdsBelow(files, base, next)
    requires forall f :: f in files' - files ==> f.jobId == j && f.fileId >= next
    ensures Direct(files', base, k) == Direct(files, base, k)
  {
  }

  lemma CreateKeepsScope(rows: map<PathId, string>, rows': map<PathId, string>, id: PathId, path: string)
    requires ScopedTable(rows) && UniqueStrings(rows') && InScope(path)
    requires Extends(rows, rows') && rows'.Keys == rows.Keys + {id} && id in rows' && rows'[id] == path
    ensures ScopedTable(rows')
  {
  }

  /** A file of a job that is not in the Job table yet, with its path. */
  lemma FileKeepsIndex(t: Tables, t': Tables, j: JobId, f: FileRow)
    requires ValidIndex(t) && j !in t.jobs && f.jobId == j && f.pathId in t'.rows
    requires t' == t.(rows := t'.rows, files := t.files + {f}) && ScopedTable(t'.rows) && Extends(t.rows, t'.rows)
    requires forall b :: b in t.base ==> b.fileId != f.fileId
    ensures ValidIndex(t')
  {
    forall k | k in t.jobs ensures Direct(t'.files, t'.base, k) <= t'.rows.Keys && JobIndexed(t', k) {
      assert Direct(t'.files, t'.base, k) == Direct(t.files, t.base, k);
      OtherJobKeepsIndex(t, t', k);
    }
  }

  /** Then the job itself, with its base files; it is not indexed. */
  lemma JobKeepsIndex(t: Tables, t': Tables, j: JobId)
    requires ValidIndex(t) && j !in t.jobs && t' == t.(base := t'.base, jobs := t.jobs + {j})
    requires t.base <= t'.base && forall b :: b in t'.base - t.base ==> b.jobId == j
    ensures ValidIndex(t')
  {
    assert JobIndexed(t', j);
    forall k | k in t.jobs ensures Direct(t'.files, t'.base, k) <= t'.rows.Keys && JobIndexed(t', k) {
      assert Direct(t'.files, t'.base, k) == Direct(t.files, t.base, k);
      OtherJobKeepsIndex(t, t', k);
    }
  }

  /** Each productive step uses up some parent that was not visible before. */
  lemma StepShrinks(h: Hierarchy, vis: set<VisRow>, j: JobId, added: set<PathId>)
    requires added == ParentsOfVisible(h, vis, j) - Visible(vis, j) && added != {}
    ensures |h.Values - (Visible(vis, j) + added)| < |h.Values - Visible(vis, j)|
  {
    var x :| x in added;
    var big, small := h.Values - Visible(vis, j), h.Values - (Visible(vis, j) + added);
    assert x in big && x !in small && small <= big - {x};
    SubsetSize(small, big - {x});
  }

  lemma SubsetSize(a: set<PathId>, b: set<PathId>)
    requires a <= b
    ensures |a| <= |b|
  {
    assert b == a + (b - a);
  }

  /** What an update of one job must leave alone for the others. */
  lemma OtherJobKeepsIndex(t: Tables, t': Tables, j: JobId)
    requires ValidIndex(t) && j in t.jobs
    requires Direct(t'.files, t'.base, j) == Direct(t.files, t.base, j) && (j in t'.hasCache <==> j in t.hasCache)
    requires ScopedTable(t'.rows) && Extends(t.rows, t'.rows) && ExtendsHierarchy(t.hierarchy, t'.hierarchy)
    requires Visible(t'.visibility, j) == Visible(t.visibility, j)
    ensures Direct(t'.files, t'.base, j) <= t'.rows.Keys && JobIndexed(t', j)
  {
    var direct := Direct(t.files, t.base, j);
    assert JobIndexed(t, j);
    if j in t.hasCache {
      GrowthKeepsPrefixClosure(t.rows, t.hierarchy, t'.rows, direct);
    }
  }

  /** Indexing one more job, as update_path_hierarchy_cache does, keeps the whole index valid. */
  lemma UpdateKeepsIndex(t: Tables, t': Tables, j: JobId)
    requires ValidIndex(t) && j in t.jobs && t'.hasCache == t.hasCache + {j}
    requires t'.files == t.files && t'.base == t.base && t'.jobs == t.jobs
    requires ScopedTable(t'.rows) && ChainComplete(t'.rows, t'.hierarchy)
    requires Extends(t.rows, t'.rows) && ExtendsHierarchy(t.hierarchy, t'.hierarchy)
    requires Covered(t'.rows, t'.hierarchy, Direct(t.files, t.base, j) - t.hierarchy.Keys)
    requires IsLeastClosed(t'.hierarchy, Direct(t.files, t.base, j), Visible(t'.visibility, j))
    requires forall k :: k != j ==> Visible(t'.visibility, k) == Visible(t.visibility, k)
    ensures ValidIndex(t')
  {
    var direct := Direct(t.files, t.base, j);
    forall d | d in direct ensures d in t'.rows && (t'.rows[d] == "" || d in t'.hierarchy) {
      assert d in t.rows;
      assert d in t.hierarchy || d in direct - t.hierarchy.Keys;
    }
    LeastClosedIsPrefixClosure(t'.rows, t'.hierarchy, direct, Visible(t'.visibility, j));
    assert JobIndexed(t', j);
    forall k | k in t.jobs && k != j
      ensures Direct(t'.files, t'.base, k) <= t'.rows.Keys && JobIndexed(t', k)
    {
      OtherJobKeepsIndex(t, t', k);
    }
  }
}
