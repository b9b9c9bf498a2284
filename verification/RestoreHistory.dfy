/**
 What a restore rebuilds.

 A story tells what file system each run of a history saw and what the catalog holds.
 A run records changes and deletions either since the run that bdb_find_job_start_time
 names, or against the accurate list of its level.  The jobs of bdb_get_accurate_jobids,
 reduced to the newest row per file without deletions, are compared with the file system
 of the requested run.  For either way of recording the exact condition is proved under
 which every story is restored.
 */
module RestoreHistory {
  import opened CatalogTables
  import opened RecentVersions
  import opened AccurateJobs
  import opened JobHistories
  import opened JobReferences

  type FileSystem = map<FileKey, string>        // file -> attributes

  /** fs[i] is what run i saw. */
  datatype Story = Story(fs: seq<FileSystem>, cat: Catalog)

  // ------------------------------------------------------------------- rows

  /** bdb_get_file_list without options: newest version per file, of any part. */
  const ALL: Query := Query(false, None)

  /** The rows of some jobs: their own and those they take from base jobs. */
  ghost function RowsOf(cat: Catalog, ids: set<JobId>): set<FileRow> {
    Candidates(cat, ids, ALL)
  }

  ghost predicate HasRow(cat: Catalog, ids: set<JobId>, key: FileKey) {
    exists f :: f in RowsOf(cat, ids) && KeyOf(f) == key
  }

  ghost function Lookup(fs: FileSystem, key: FileKey): Option<string> {
    if key in fs then Some(fs[key]) else None
  }

  /** A present file has a row with its attributes, an absent one a deletion marker. */
  ghost predicate RowTells(f: FileRow, fs: FileSystem) {
    (f.fileIndex > 0 <==> KeyOf(f) in fs) && (KeyOf(f) in fs ==> f.lstat == fs[KeyOf(f)])
  }

  /** The job's rows are the differences between `before` and `now`: a row with the
      attributes for a new or changed file, a deletion marker for a vanished one. */
  ghost predicate RecordsChanges(cat: Catalog, job: JobId, before: FileSystem, now: FileSystem) {
    && (forall key :: Lookup(before, key) != Lookup(now, key) <==> HasRow(cat, {job}, key))
    && (forall f :: f in RowsOf(cat, {job}) ==> RowTells(f, now))
  }

  ghost function GetFileList(cat: Catalog, ids: set<JobId>): set<FileRow> {
    set f | f in MaxJoin(cat, ids, ALL) && f.fileIndex > 0
  }

  ghost predicate InFileSystem(fs: FileSystem, f: FileRow) {
    KeyOf(f) in fs && fs[KeyOf(f)] == f.lstat
  }

  ghost predicate ListsFile(list: set<FileRow>, fs: FileSystem, key: FileKey) {
    key in fs && exists f :: f in list && KeyOf(f) == key && f.lstat == fs[key]
  }

  /** The file list of the jobs is the given file system: nothing is listed that is not
      there, and everything there is listed. */
  ghost predicate IsListed(cat: Catalog, ids: set<JobId>, fs: FileSystem) {
    && (forall f :: f in GetFileList(cat, ids) ==> InFileSystem(fs, f))
    && (forall key :: key in fs ==> ListsFile(GetFileList(cat, ids), fs, key))
  }

  /** In other words, the (file, attributes) pairs of the list are those of the file system. */
  lemma ListedMeansSameItems(cat: Catalog, ids: set<JobId>, fs: FileSystem)
    ensures IsListed(cat, ids, fs) <==> (set f | f in GetFileList(cat, ids) :: (KeyOf(f), f.lstat)) == fs.Items
  {
    var list := GetFileList(cat, ids);
    var got := set f | f in list :: (KeyOf(f), f.lstat);
    if IsListed(cat, ids, fs) {
      forall p | p in fs.Items ensures p in got { assert ListsFile(list, fs, p.0); }
    }
    if got == fs.Items {
      forall f | f in list ensures InFileSystem(fs, f) { assert (KeyOf(f), f.lstat) in fs.Items; }
      forall key | key in fs ensures ListsFile(list, fs, key) { assert (key, fs[key]) in got; }
    }
  }

  // --------------------------------------------------- what the newest rows tell

  ghost function NewestOf(cat: Catalog, ids: set<JobId>): set<FileRow> {
    Newest(cat, ALL, RowsOf(cat, ids))
  }

  /** The rows of the jobs tell whether the file exists, and its attributes. */
  ghost predicate Tells(cat: Catalog, ids: set<JobId>, fs: FileSystem, key: FileKey) {
    && (forall f :: f in NewestOf(cat, ids) && KeyOf(f) == key ==> RowTells(f, fs))
    && (key in fs ==> HasRow(cat, ids, key))
  }

  lemma RowsOfUnion(cat: Catalog, a: set<JobId>, b: set<JobId>)
    ensures RowsOf(cat, a + b) == RowsOf(cat, a) + RowsOf(cat, b)
  {
  }

  /** Applying the changes of one more job, dated after all rows so far. */
  lemma RunTells(cat: Catalog, ids: set<JobId>, job: JobId, before: FileSystem, now: FileSystem, key: FileKey)
    requires forall f, g :: f in RowsOf(cat, ids) && g in RowsOf(cat, {job}) ==> DateOf(cat, f) < DateOf(cat, g)
    requires Tells(cat, ids, before, key) && RecordsChanges(cat, job, before, now)
    ensures Tells(cat, ids + {job}, now, key)
  {
    RowsOfUnion(cat, ids, {job});
    assert Lookup(before, key) != Lookup(now, key) <==> HasRow(cat, {job}, key);
    forall f | f in NewestOf(cat, ids + {job}) && KeyOf(f) == key ensures RowTells(f, now) {
      if HasRow(cat, {job}, key) {
        var g :| g in RowsOf(cat, {job}) && KeyOf(g) == key;
        assert GroupOf(ALL, f) == GroupOf(ALL, g);
        assert f in RowsOf(cat, {job});
      } else {
        assert f in NewestOf(cat, ids);
      }
    }
  }

  /** When the rows tell every file, the file list is the file system. */
  lemma TellsIsListed(cat: Catalog, ids: set<JobId>, fs: FileSystem)
    requires Unambiguous(cat, ids) && forall key :: Tells(cat, ids, fs, key)
    ensures IsListed(cat, ids, fs)
  {
    var list := GetFileList(cat, ids);
    MaxJoinIsNewest(cat, ids, ALL);
    forall f | f in list ensures InFileSystem(fs, f) {
      assert Tells(cat, ids, fs, KeyOf(f)) && RowTells(f, fs);
    }
    forall key | key in fs ensures ListsFile(list, fs, key) {
      assert Tells(cat, ids, fs, key);
      var g :| g in RowsOf(cat, ids) && KeyOf(g) == key;
      var f := SomeNewest(cat, ALL, RowsOf(cat, ids), g);
      assert KeyOf(f) == key && RowTells(f, fs);
    }
  }

  /** When the file list is the file system, the rows tell every file. */
  lemma ListedTells(cat: Catalog, ids: set<JobId>, fs: FileSystem, key: FileKey)
    requires Unambiguous(cat, ids) && IsListed(cat, ids, fs)
    ensures Tells(cat, ids, fs, key)
  {
    var list := GetFileList(cat, ids);
    MaxJoinIsNewest(cat, ids, ALL);
    UnambiguousHasNoTie(cat, ids, ALL);
    forall f | f in NewestOf(cat, ids) && KeyOf(f) == key ensures RowTells(f, fs) {
      assert f.fileIndex > 0 ==> f in list && InFileSystem(fs, f);
      if key in fs {
        assert ListsFile(list, fs, key);
        var g :| g in list && KeyOf(g) == key && g.lstat == fs[key];
        assert GroupOf(ALL, f) == GroupOf(ALL, g);
      }
    }
    assert key in fs ==> ListsFile(list, fs, key);
  }

  // ----------------------------------------------------------------- stories

  ghost function IdsOf(s: set<JobRow>): set<JobId> {
    set j | j in s :: j.jobId
  }

  ghost function IdsAt(h: History, s: set<int>): set<JobId> {
    IdsOf(JobsAt(h, s))
  }

  /** The JobIds of the good runs. */
  ghost function GoodIds(h: History): set<JobId> {
    set i | 0 <= i < |h.jobs| && Good(h, i) :: h.jobs[i].jobId
  }

  ghost predicate TakesBaseFile(h: History, cat: Catalog, i: int, b: BaseRow, f: FileRow) {
    && Good(h, i) && b in cat.base && f in cat.files
    && b.jobId == h.jobs[i].jobId && f.fileId == b.fileId
  }

  /** The catalog holds the runs; the recent-version queries are unambiguous on the good
      runs; only a Full takes files from a base job, and from an earlier one. */
  ghost predicate Fits(h: History, cat: Catalog) {
    && (forall i :: 0 <= i < |h.jobs| ==> h.jobs[i].jobId in cat.jobs && cat.jobs[h.jobs[i].jobId] == h.jobs[i])
    && Unambiguous(cat, GoodIds(h))
    && (forall i, b, f :: TakesBaseFile(h, cat, i, b, f) ==>
          h.jobs[i].level == Full && DateOf(cat, f) < h.jobs[i].tdate)
  }

  /** Run i records its changes since its reference job. */
  ghost predicate Faithful(h: History, since: seq<int>, w: Story, i: nat)
    requires i < |h.jobs| == |since| == |w.fs|
  {
    if h.jobs[i].level == Full then RecordsChanges(w.cat, h.jobs[i].jobId, map[], w.fs[i])
    else RefersTo(h, i, since[i]) && RecordsChanges(w.cat, h.jobs[i].jobId, w.fs[since[i]], w.fs[i])
  }

  /** All good runs up to n did. */
  ghost predicate IsStory(h: History, since: seq<int>, w: Story, n: int) {
    && |h.jobs| == |since| == |w.fs| && Fits(h, w.cat)
    && forall i {:trigger Good(h, i)} :: Good(h, i) && i <= n ==> Faithful(h, since, w, i)
  }

  ghost predicate IsWholeStory(h: History, since: seq<int>, w: Story) {
    IsStory(h, since, w, |h.jobs|)
  }

  /** A restore as of run n gives back the file system that run saw. */
  ghost predicate Restored(h: History, w: Story, n: int)
    requires 0 <= n < |h.jobs| == |w.fs|
  {
    forall chain :: IsChain(WholeTable(h), AsOf(h, n), chain) ==> IsListed(w.cat, IdsOf(chain), w.fs[n])
  }

  lemma RestoredIs(h: History, w: Story, n: int)
    requires Sequential(h) && Good(h, n) && |h.jobs| == |w.fs|
    ensures Restored(h, w, n) <==> IsListed(w.cat, IdsAt(h, Picked(h, LastSeen(h, n))), w.fs[n])
  {
    var k := LastSeen(h, n);
    WholeTableSees(h, n);
    forall chain
      ensures IsChain(WholeTable(h), AsOf(h, n), chain) <==> chain == JobsAt(h, Picked(h, k))
    {
      ChainIsPicked(h, WholeTable(h), AsOf(h, n), k, chain);
    }
  }

  ghost predicate AllGood(h: History, s: set<int>) {
    forall i :: i in s ==> Good(h, i)
  }

  lemma FitsUnambiguous(h: History, cat: Catalog, s: set<int>)
    requires Fits(h, cat) && AllGood(h, s)
    ensures Unambiguous(cat, IdsAt(h, s))
  {
  }

  /** Rows at earlier runs are dated before run n. */
  lemma EarlierRowsDated(h: History, cat: Catalog, s: set<int>, n: int, f: FileRow)
    requires Sequential(h) && Fits(h, cat) && AllGood(h, s) && Good(h, n) && (forall i :: i in s ==> i < n)
    requires f in RowsOf(cat, IdsAt(h, s))
    ensures DateOf(cat, f) < h.jobs[n].tdate
  {
    if f.jobId in IdsAt(h, s) {
      var i :| i in s && 0 <= i < |h.jobs| && h.jobs[i].jobId == f.jobId;
      assert GoodInOrder(h, i, n);
    } else {
      var b :| b in cat.base && b.jobId in IdsAt(h, s) && b.fileId == f.fileId;
      var i :| i in s && 0 <= i < |h.jobs| && h.jobs[i].jobId == b.jobId;
      assert TakesBaseFile(h, cat, i, b, f) && GoodInOrder(h, i, n);
    }
  }

  /** The rows of a run that takes nothing from a base job are dated by the run. */
  lemma OwnRowsDated(h: History, cat: Catalog, n: int, f: FileRow)
    requires Sequential(h) && Fits(h, cat) && Good(h, n) && h.jobs[n].level != Full
    requires f in RowsOf(cat, {h.jobs[n].jobId})
    ensures DateOf(cat, f) == h.jobs[n].tdate
  {
    if f.jobId != h.jobs[n].jobId {
      var b :| b in cat.base && b.jobId == h.jobs[n].jobId && b.fileId == f.fileId;
      assert TakesBaseFile(h, cat, n, b, f);
    }
  }

  /** One more run, recorded against what the rows at earlier runs tell. */
  lemma NextRunTells(h: History, cat: Catalog, s: set<int>, n: int, before: FileSystem, now: FileSystem, key: FileKey)
    requires Sequential(h) && Fits(h, cat) && AllGood(h, s) && (forall i :: i in s ==> i < n)
    requires Good(h, n) && h.jobs[n].level != Full
    requires Tells(cat, IdsAt(h, s), before, key) && RecordsChanges(cat, h.jobs[n].jobId, before, now)
    ensures Tells(cat, IdsAt(h, s + {n}), now, key)
  {
    var ids, job := IdsAt(h, s), h.jobs[n].jobId;
    assert IdsAt(h, s + {n}) == ids + {job} by {
      JobsAtUnion(h, s, {n});
      assert JobsAt(h, {n}) == {h.jobs[n]};
    }
    forall f, g | f in RowsOf(cat, ids) && g in RowsOf(cat, {job}) ensures DateOf(cat, f) < DateOf(cat, g) {
      OwnRowsDated(h, cat, n, g);
      EarlierRowsDated(h, cat, s, n, f);
    }
    RunTells(cat, ids, job, before, now, key);
  }

  // ------------------------------------------- changes since the reference job

  lemma FullTells(cat: Catalog, job: JobId, now: FileSystem, key: FileKey)
    requires RecordsChanges(cat, job, map[], now)
    ensures Tells(cat, {job}, now, key)
  {
  }

  /** The rows at a run and its ancestors tell the file system of the run. */
  lemma {:induction false} AncestorsTell(h: History, since: seq<int>, w: Story, n: int, key: FileKey)
    requires Sequential(h) && IsStory(h, since, w, n) && Good(h, n)
    ensures AllGood(h, Ancestors(h, since, n))
    ensures Tells(w.cat, IdsAt(h, Ancestors(h, since, n)), w.fs[n], key)
    decreases n
  {
    assert Faithful(h, since, w, n);
    if h.jobs[n].level == Full {
      assert JobsAt(h, {n}) == {h.jobs[n]} && IdsAt(h, {n}) == {h.jobs[n].jobId};
      FullTells(w.cat, h.jobs[n].jobId, w.fs[n], key);
    } else {
      var r := since[n];
      RefersToIs(h, n, r);
      AncestorsTell(h, since, w, r, key);
      NextRunTells(h, w.cat, Ancestors(h, since, r), n, w.fs[r], w.fs[n], key);
    }
  }

  /** If the accurate list as of run n is run n with its ancestors, run n is restored. */
  lemma AncestorsRestore(h: History, since: seq<int>, w: Story, n: int)
    requires Sequential(h) && IsStory(h, since, w, n) && Good(h, n)
    requires Picked(h, LastSeen(h, n)) == Ancestors(h, since, n)
    ensures Restored(h, w, n)
  {
    var s := Ancestors(h, since, n);
    forall key ensures AllGood(h, s) && Tells(w.cat, IdsAt(h, s), w.fs[n], key) {
      AncestorsTell(h, since, w, n, key);
    }
    FitsUnambiguous(h, w.cat, s);
    TellsIsListed(w.cat, IdsAt(h, s), w.fs[n]);
    RestoredIs(h, w, n);
  }

  // ------------------------------------------------ a catalog with a single row

  const FILE: FileKey := FileKey(1, "a")

  function RowAt(h: History, x: nat): FileRow
    requires x < |h.jobs|
  {
    FileRow(1, 1, h.jobs[x].jobId, FILE.pathId, FILE.filename, "new", 0)
  }

  ghost function JobMap(h: History): map<JobId, JobRow>
    requires Sequential(h)
  {
    assert forall i, k | 0 <= i < |h.jobs| && 0 <= k < |h.jobs| && h.jobs[i].jobId == h.jobs[k].jobId ::
        SameJobId(h, i, k);
    map i | 0 <= i < |h.jobs| :: h.jobs[i].jobId := h.jobs[i]
  }

  /** A catalog of the runs with the given files and no base files. */
  ghost function CatalogOf(h: History, files: set<FileRow>): Catalog
    requires Sequential(h)
  {
    Catalog(JobMap(h), files, {})
  }

  /** Run x created the one file. */
  ghost function OneRow(h: History, x: nat): Catalog
    requires Sequential(h) && x < |h.jobs|
  {
    CatalogOf(h, {RowAt(h, x)})
  }

  function OneFile(there: bool): FileSystem {
    if there then map[FILE := "new"] else map[]
  }

  lemma IdIsAt(h: History, s: set<int>, x: int)
    requires Sequential(h) && 0 <= x < |h.jobs|
    ensures h.jobs[x].jobId in IdsAt(h, s) <==> x in s
  {
    if h.jobs[x].jobId in IdsAt(h, s) {
      var i :| i in s && 0 <= i < |h.jobs| && h.jobs[i].jobId == h.jobs[x].jobId;
      assert SameJobId(h, i, x);
    }
  }

  lemma JobMapHolds(h: History, i: int)
    requires Sequential(h) && 0 <= i < |h.jobs|
    ensures h.jobs[i].jobId in JobMap(h) && JobMap(h)[h.jobs[i].jobId] == h.jobs[i]
  {
    var jobs, id := JobMap(h), h.jobs[i].jobId;
    var k :| 0 <= k < |h.jobs| && h.jobs[k].jobId == id && jobs[id] == h.jobs[k];
    assert SameJobId(h, i, k);
  }

  /** Good runs have different dates. */
  lemma DateNamesRun(h: History, i: int, k: int)
    requires Sequential(h) && Good(h, i) && Good(h, k) && h.jobs[i].tdate == h.jobs[k].tdate
    ensures i == k
  {
  }

  ghost predicate SameJobAndFile(files: set<FileRow>, f: FileRow, g: FileRow) {
    f in files && g in files && f.jobId == g.jobId && KeyOf(f) == KeyOf(g)
  }

  lemma CatalogDates(h: History, files: set<FileRow>)
    requires Sequential(h)
    ensures DistinctDates(CatalogOf(h, files), GoodIds(h))
  {
    var cat := CatalogOf(h, files);
    forall j, j' | j in cat.jobs && j' in cat.jobs && ValidJob(cat, GoodIds(h), j) && ValidJob(cat, GoodIds(h), j')
      ensures cat.jobs[j].tdate == cat.jobs[j'].tdate ==> j == j'
    {
      var i :| 0 <= i < |h.jobs| && Good(h, i) && h.jobs[i].jobId == j;
      var i' :| 0 <= i' < |h.jobs| && Good(h, i') && h.jobs[i'].jobId == j';
      JobMapHolds(h, i);
      JobMapHolds(h, i');
      if cat.jobs[j].tdate == cat.jobs[j'].tdate { DateNamesRun(h, i, i'); }
    }
  }

  lemma CatalogFits(h: History, files: set<FileRow>)
    requires Sequential(h) && forall f, g :: SameJobAndFile(files, f, g) ==> f == g
    ensures Fits(h, CatalogOf(h, files))
  {
    var cat := CatalogOf(h, files);
    forall i | 0 <= i < |h.jobs| ensures h.jobs[i].jobId in cat.jobs && cat.jobs[h.jobs[i].jobId] == h.jobs[i] {
      JobMapHolds(h, i);
    }
    assert forall f, g :: f in files && g in files && f.jobId == g.jobId && KeyOf(f) == KeyOf(g) ==>
        SameJobAndFile(files, f, g);
    CatalogDates(h, files);
  }

  lemma OneRowFits(h: History, x: int)
    requires Sequential(h) && 0 <= x < |h.jobs|
    ensures Fits(h, OneRow(h, x))
  {
    CatalogFits(h, {RowAt(h, x)});
  }

  /** The list of some runs holds the file exactly when run x is among them. */
  lemma OneRowListed(h: History, x: int, s: set<int>, there: bool)
    requires Sequential(h) && 0 <= x < |h.jobs| && AllGood(h, s)
    ensures IsListed(OneRow(h, x), IdsAt(h, s), OneFile(there)) <==> (there <==> x in s)
  {
    var cat, ids, f := OneRow(h, x), IdsAt(h, s), RowAt(h, x);
    OneRowFits(h, x);
    FitsUnambiguous(h, cat, s);
    MaxJoinIsNewest(cat, ids, ALL);
    IdIsAt(h, s, x);
    assert KeyOf(f) == FILE;
    assert GetFileList(cat, ids) == if x in s then {f} else {};
    if x in s {
      assert f in GetFileList(cat, ids);
      assert InFileSystem(OneFile(there), f) <==> there;
    }
    assert there ==> FILE in OneFile(there);
  }

  /** Run i recorded its changes when it created the file exactly if it is run x. */
  lemma OneRowRecords(h: History, x: int, i: int, before: bool, now: bool)
    requires Sequential(h) && 0 <= x < |h.jobs| && 0 <= i < |h.jobs|
    requires if i == x then !before && now else before == now
    ensures RecordsChanges(OneRow(h, x), h.jobs[i].jobId, OneFile(before), OneFile(now))
  {
    var cat, f, job := OneRow(h, x), RowAt(h, x), h.jobs[i].jobId;
    assert job == h.jobs[x].jobId ==> SameJobId(h, i, x);
    assert RowsOf(cat, {job}) == if i == x then {f} else {};
    assert KeyOf(f) == FILE;
    if i == x { assert f in RowsOf(cat, {job}); }
  }

  // ------------------------------------------------------------ the theorems

  /** The story in which run x creates the file, and the runs that build on it keep it. */
  ghost function CreatedAt(h: History, since: seq<int>, x: nat): Story
    requires Sequential(h) && x < |h.jobs| == |since|
  {
    Story(seq(|h.jobs|, i requires 0 <= i < |h.jobs| => OneFile(x in Ancestors(h, since, i))), OneRow(h, x))
  }

  lemma CreatedAtIsStory(h: History, since: seq<int>, x: nat)
    requires Sequential(h) && Refer(h, since, |h.jobs|) && x < |h.jobs|
    ensures IsWholeStory(h, since, CreatedAt(h, since, x))
  {
    var w := CreatedAt(h, since, x);
    OneRowFits(h, x);
    forall i | Good(h, i) ensures Faithful(h, since, w, i) {
      if h.jobs[i].level == Full {
        OneRowRecords(h, x, i, false, x in Ancestors(h, since, i));
      } else {
        assert RefersTo(h, i, since[i]);
        OneRowRecords(h, x, i, x in Ancestors(h, since, since[i]), x in Ancestors(h, since, i));
      }
    }
  }

  /** Every story is restored as of run n exactly when the accurate list as of run n is
      run n with its ancestors. */
  lemma RestoreExact(h: History, since: seq<int>, n: int)
    requires Sequential(h) && Refer(h, since, |h.jobs|) && Good(h, n)
    ensures (forall w :: IsWholeStory(h, since, w) ==> Restored(h, w, n)) <==>
            Picked(h, LastSeen(h, n)) == Ancestors(h, since, n)
  {
    var list, chain := Picked(h, LastSeen(h, n)), Ancestors(h, since, n);
    if list == chain {
      forall w | IsWholeStory(h, since, w) ensures Restored(h, w, n) {
        AncestorsRestore(h, since, w, n);
      }
    } else {
      var x :| x in list <==> x !in chain;
      var w := CreatedAt(h, since, x);
      CreatedAtIsStory(h, since, x);
      OneRowListed(h, x, list, x in chain);
      RestoredIs(h, w, n);
      assert !Restored(h, w, n);
    }
  }

  /** Each run of the promised list finds the run before it as its reference. */
  ghost predicate OwnReferences(h: History, n: int)
    requires 0 <= n < |h.jobs|
  {
    FullAt(h, n) >= 0 && forall i :: i in Promised(h, n) && h.jobs[i].level != Full ==> PreviousIsOwn(h, i)
  }

  lemma OwnReferencesFollow(h: History, since: seq<int>, n: int)
    requires Sequential(h) && Refer(h, since, n) && Good(h, n) && OwnReferences(h, n)
    ensures Ancestors(h, since, n) == Promised(h, n)
  {
    PromisedEndsAt(h, n);
    forall i | i in Promised(h, n) && h.jobs[i].level != Full ensures since[i] == Previous(h, i) {
      ReferenceExact(h, i, since[i]);
    }
    AncestorsExact(h, since, n);
  }

  /** No run of the list starts in the second in which the one it follows ended, and none
      comes in on top of run n. */
  ghost predicate Apart(h: History, n: int)
    requires 0 <= n < |h.jobs|
  {
    FullAt(h, n) >= 0 && Spaced(h, n) && NothingOnTop(h, n)
  }

  lemma ApartExact(h: History, n: int)
    requires Sequential(h) && Good(h, n) && FullAt(h, n) >= 0
    ensures Picked(h, LastSeen(h, n)) == Promised(h, n) <==> Apart(h, n)
  {
    PromisedEndsAt(h, n);
    SeenExact(h, n, Promised(h, n));
    PickedIsPromised(h, n);
  }

  /** If every good run up to n recorded its changes since its reference job, a restore
      as of run n gives back the file system that run saw. */
  lemma RestoreRebuildsFileSystem(h: History, since: seq<int>, w: Story, n: int)
    requires Sequential(h) && IsStory(h, since, w, n) && Good(h, n)
    requires OwnReferences(h, n) && Apart(h, n)
    ensures Restored(h, w, n)
  {
    OwnReferencesFollow(h, since, n);
    ApartExact(h, n);
    AncestorsRestore(h, since, w, n);
  }

  /** Where references are right, every story is restored iff the runs are apart. */
  lemma TimesExact(h: History, since: seq<int>, n: int)
    requires Sequential(h) && Refer(h, since, |h.jobs|) && Good(h, n) && OwnReferences(h, n)
    ensures (forall w :: IsWholeStory(h, since, w) ==> Restored(h, w, n)) <==> Apart(h, n)
  {
    OwnReferencesFollow(h, since, n);
    ApartExact(h, n);
    RestoreExact(h, since, n);
  }

  /** Where the runs are apart, every story is restored, whatever the searches answered,
      iff each run of the promised list finds the run before it. */
  lemma ReferencesExact(h: History, since: seq<int>, n: int)
    requires Sequential(h) && Refer(h, since, |h.jobs|) && Good(h, n) && Apart(h, n)
    ensures (forall s, w :: IsWholeStory(h, s, w) ==> Restored(h, w, n)) <==> OwnReferences(h, n)
  {
    if OwnReferences(h, n) {
      forall s, w | IsWholeStory(h, s, w) ensures Restored(h, w, n) {
        RestoreRebuildsFileSystem(h, s, w, n);
      }
    } else {
      var s, w := WrongReference(h, since, n);
    }
  }

  /** A run of the list whose search may answer another run than the one before it. */
  lemma WrongReference(h: History, since: seq<int>, n: int) returns (s: seq<int>, w: Story)
    requires Sequential(h) && Refer(h, since, |h.jobs|) && Good(h, n) && Apart(h, n) && !OwnReferences(h, n)
    ensures IsWholeStory(h, s, w) && !Restored(h, w, n)
  {
    PromisedEndsAt(h, n);
    var i :| i in Promised(h, n) && h.jobs[i].level != Full && !PreviousIsOwn(h, i);
    s := OtherAnswer(h, since, i);
    w := NotFollowing(h, s, n, i);
  }

  lemma OtherAnswer(h: History, since: seq<int>, i: int) returns (s: seq<int>)
    requires Sequential(h) && Refer(h, since, |h.jobs|)
    requires Good(h, i) && h.jobs[i].level != Full && !PreviousIsOwn(h, i)
    ensures Refer(h, s, |h.jobs|) && s[i] != Previous(h, i)
  {
    ReferenceExact(h, i, since[i]);
    var r :| RefersTo(h, i, r) && r != Previous(h, i);
    s := since[i := r];
  }

  lemma NotFollowing(h: History, since: seq<int>, n: int, i: int) returns (w: Story)
    requires Sequential(h) && Refer(h, since, |h.jobs|) && Good(h, n) && Apart(h, n)
    requires i in Promised(h, n) && 0 <= i < |h.jobs| && h.jobs[i].level != Full && since[i] != Previous(h, i)
    ensures IsWholeStory(h, since, w) && !Restored(h, w, n)
  {
    AncestorsExact(h, since, n);
    ApartExact(h, n);
    RestoreExact(h, since, n);
    w :| IsWholeStory(h, since, w) && !Restored(h, w, n);
  }

  // ---------------------------------------- changes against the accurate list

  /** Run i records its changes against the accurate list of its own name and level, as
      the catalog gave it when the run started. */
  ghost predicate FaithfulToList(h: History, w: Story, i: nat)
    requires i < |h.jobs| == |w.fs|
  {
    var job := h.jobs[i];
    if job.level == Full then RecordsChanges(w.cat, job.jobId, map[], w.fs[i])
    else exists chain, before ::
        && chain != {} && IsChain(TableUpTo(h, i), SearchOf(h, i), chain)
        && IsListed(w.cat, IdsOf(chain), before) && RecordsChanges(w.cat, job.jobId, before, w.fs[i])
  }

  ghost predicate IsAccurateStory(h: History, w: Story, n: int) {
    |w.fs| == |h.jobs| && Fits(h, w.cat) && Good(h, n) && FaithfulToList(h, w, n)
  }

  /** The rows of the list and of the run tell what the run saw. */
  lemma ListAndRunTell(h: History, w: Story, n: int, key: FileKey)
    requires Sequential(h) && IsAccurateStory(h, w, n)
    ensures Tells(w.cat, IdsAt(h, OwnList(h, n) + {n}), w.fs[n], key)
  {
    var job, s := h.jobs[n], OwnList(h, n);
    if job.level == Full {
      assert s + {n} == {n} && JobsAt(h, {n}) == {job} && IdsAt(h, {n}) == {job.jobId};
      FullTells(w.cat, job.jobId, w.fs[n], key);
    } else {
      var chain, before :|
        && chain != {} && IsChain(TableUpTo(h, n), SearchOf(h, n), chain)
        && IsListed(w.cat, IdsOf(chain), before) && RecordsChanges(w.cat, job.jobId, before, w.fs[n]);
      OwnListIsChain(h, n, chain);
      FitsUnambiguous(h, w.cat, s);
      ListedTells(w.cat, IdsAt(h, s), before, key);
      NextRunTells(h, w.cat, s, n, before, w.fs[n], key);
    }
  }

  /** If run n recorded its changes against its own accurate list, joins the list of the
      request, which holds only runs of its name, and nothing is on top of it, a restore as
      of run n gives back what it saw, whatever the earlier runs did. */
  lemma AccurateRunIsRestored(h: History, w: Story, n: int)
    requires Sequential(h) && IsAccurateStory(h, w, n)
    requires JoinsList(h, n) && OneName(h, n) && NothingOnTop(h, n)
    ensures Restored(h, w, n)
  {
    var s := OwnList(h, n) + {n};
    JoinsOwnListExact(h, n);
    SeenExact(h, n, s);
    forall key ensures Tells(w.cat, IdsAt(h, s), w.fs[n], key) { ListAndRunTell(h, w, n, key); }
    FitsUnambiguous(h, w.cat, s);
    TellsIsListed(w.cat, IdsAt(h, s), w.fs[n]);
    RestoredIs(h, w, n);
  }

  /** ... and these conditions on the Job table are exact.  (A run whose list is empty
      fails.) */
  lemma AccurateExact(h: History, n: int)
    requires Sequential(h) && Good(h, n) && (h.jobs[n].level == Full || OwnList(h, n) != {})
    ensures (forall w :: IsAccurateStory(h, w, n) ==> Restored(h, w, n)) <==>
            JoinsList(h, n) && OneName(h, n) && NothingOnTop(h, n)
  {
    var list, s := Picked(h, LastSeen(h, n)), OwnList(h, n) + {n};
    JoinsOwnListExact(h, n);
    SeenExact(h, n, s);
    if list == s {
      forall w | IsAccurateStory(h, w, n) ensures Restored(h, w, n) { AccurateRunIsRestored(h, w, n); }
    } else {
      var x :| x in list <==> x !in s;
      OneRowIsAccurate(h, n, x);
      OneRowNotRestored(h, n, x);
    }
  }

  lemma OneRowNotRestored(h: History, n: int, x: int)
    requires Sequential(h) && Good(h, n) && 0 <= x < |h.jobs|
    requires x in Picked(h, LastSeen(h, n)) <==> x !in OwnList(h, n) + {n}
    ensures !Restored(h, OneRowStory(h, n, x), n)
  {
    OneRowListed(h, x, Picked(h, LastSeen(h, n)), x in OwnList(h, n) + {n});
    RestoredIs(h, OneRowStory(h, n, x), n);
  }

  /** Run x creates the file; run n sees it iff its list and itself have it. */
  ghost function OneRowStory(h: History, n: int, x: nat): Story
    requires Sequential(h) && Good(h, n) && x < |h.jobs|
  {
    Story(seq(|h.jobs|, i => OneFile(x in OwnList(h, n) + {n})), OneRow(h, x))
  }

  lemma OneRowIsAccurate(h: History, n: int, x: int)
    requires Sequential(h) && Good(h, n) && 0 <= x < |h.jobs|
    requires h.jobs[n].level == Full || OwnList(h, n) != {}
    ensures IsAccurateStory(h, OneRowStory(h, n, x), n)
  {
    var s := OwnList(h, n);
    OneRowFits(h, x);
    OneRowRecords(h, x, n, x in s, x in s + {n});
    OneRowListed(h, x, s, x in s);
    RecordedAgainstList(h, OneRowStory(h, n, x), n, OneFile(x in s));
  }

  lemma RecordedAgainstList(h: History, w: Story, n: int, before: FileSystem)
    requires Sequential(h) && Good(h, n) && |w.fs| == |h.jobs|
    requires if h.jobs[n].level == Full then before == map[] else OwnList(h, n) != {}
    requires IsListed(w.cat, IdsAt(h, OwnList(h, n)), before)
    requires RecordsChanges(w.cat, h.jobs[n].jobId, before, w.fs[n])
    ensures FaithfulToList(h, w, n)
  {
    if h.jobs[n].level != Full {
      var chain := JobsAt(h, OwnList(h, n));
      OwnListIsChain(h, n, chain);
      var i :| i in OwnList(h, n);
      assert h.jobs[i] in chain;
    }
  }
}
