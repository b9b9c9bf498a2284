/**
 Delta parts: the parts 0..n of a file that a restore needs, as
 select_recent_version_with_basejob_and_delta finds them and insert_missing_delta adds
 them to a restore list.
 */
module DeltaParts {
  import opened CatalogTables
  import opened RecentVersions
  import opened AccurateJobs
  import opened JobHistories
  import opened RestoreHistory

  ghost function Elems(vs: seq<FileRow>): set<FileRow> {
    set f | f in vs
  }

  function IdSet(list: seq<JobId>): set<JobId> {
    set j | j in list
  }

  /** A listed job's own row of the file. */
  ghost predicate IsVersion(cat: Catalog, key: FileKey, j: JobId, f: FileRow) {
    f in cat.files && f.jobId == j && KeyOf(f) == key
  }

  ghost function VersionIn(cat: Catalog, key: FileKey, j: JobId): seq<FileRow> {
    if exists f :: IsVersion(cat, key, j, f) then var f :| IsVersion(cat, key, j, f); [f] else []
  }

  /** The versions of the file in a list of jobs, in the order of the list. */
  ghost function Versions(cat: Catalog, key: FileKey, list: seq<JobId>): seq<FileRow> {
    if list == [] then []
    else Versions(cat, key, list[..|list| - 1]) + VersionIn(cat, key, list[|list| - 1])
  }

  /** Each version starts a new run with part 0 or continues the previous part. */
  ghost predicate IsDeltaHistory(vs: seq<FileRow>) {
    && vs != [] && vs[0].deltaSeq == 0
    && forall i :: 0 < i < |vs| ==> vs[i].deltaSeq == 0 || vs[i].deltaSeq == vs[i - 1].deltaSeq + 1
  }

  ghost function LastPart(vs: seq<FileRow>): nat
    requires vs != []
  {
    vs[|vs| - 1].deltaSeq
  }

  /** Part k of the run that the last version ends. */
  ghost function RunStart(vs: seq<FileRow>): int
    requires vs != []
  {
    |vs| - 1 - LastPart(vs)
  }

  /** The last unbroken run holds parts 0..n, one version each. */
  lemma {:induction false} LastRun(vs: seq<FileRow>)
    requires IsDeltaHistory(vs)
    ensures RunStart(vs) >= 0
    ensures forall i :: RunStart(vs) <= i < |vs| ==> vs[i].deltaSeq == i - RunStart(vs)
  {
    if LastPart(vs) > 0 {
      assert |vs| > 1;
      var front := vs[..|vs| - 1];
      LastRun(front);
      assert RunStart(front) == RunStart(vs);
      forall i | RunStart(vs) <= i < |front| ensures vs[i].deltaSeq == i - RunStart(vs) {
        assert front[i].deltaSeq == i - RunStart(front);
      }
    }
  }

  ghost predicate DatesIncrease(cat: Catalog, vs: seq<FileRow>) {
    forall i, k :: 0 <= i < k < |vs| ==> DateOf(cat, vs[i]) < DateOf(cat, vs[k])
  }

  ghost predicate SameKey(vs: seq<FileRow>, key: FileKey) {
    forall i :: 0 <= i < |vs| ==> KeyOf(vs[i]) == key
  }

  /** What the query keeps of the versions of one file. */
  ghost function Kept(cat: Catalog, vs: seq<FileRow>, key: FileKey): set<FileRow> {
    Newest(cat, Query(true, Some(key)), Elems(vs))
  }

  /** Version i is kept iff no later one has its part number. */
  lemma NewestPart(cat: Catalog, vs: seq<FileRow>, key: FileKey, i: nat)
    requires SameKey(vs, key) && DatesIncrease(cat, vs) && i < |vs|
    ensures vs[i] in Kept(cat, vs, key) <==> forall k :: i < k < |vs| ==> vs[k].deltaSeq != vs[i].deltaSeq
  {
  }

  /** All versions considered: parts 0..n come from the last run, and whatever else is
      kept, a stale part, has a higher part number. */
  lemma KeptParts(cat: Catalog, vs: seq<FileRow>, key: FileKey, i: nat)
    requires SameKey(vs, key) && DatesIncrease(cat, vs) && IsDeltaHistory(vs) && i < |vs|
    ensures i >= RunStart(vs) ==> vs[i] in Kept(cat, vs, key)
    ensures i < RunStart(vs) && vs[i] in Kept(cat, vs, key) ==> vs[i].deltaSeq > LastPart(vs)
  {
    LastRun(vs);
    NewestPart(cat, vs, key, i);
    var later := RunStart(vs) + vs[i].deltaSeq;
    assert i < RunStart(vs) && later < |vs| ==> vs[later].deltaSeq == vs[i].deltaSeq;
  }

  /** Without the last version, as insert_missing_delta asks: parts 0..n-1 come from the
      run that the last version ends, and a stale part has number n or more. */
  lemma StrippedListParts(cat: Catalog, vs: seq<FileRow>, key: FileKey, i: nat)
    requires SameKey(vs, key) && DatesIncrease(cat, vs) && IsDeltaHistory(vs) && i < |vs| - 1
    ensures i >= RunStart(vs) ==> vs[i] in Kept(cat, vs[..|vs| - 1], key)
    ensures i < RunStart(vs) && vs[i] in Kept(cat, vs[..|vs| - 1], key) ==> vs[i].deltaSeq >= LastPart(vs)
  {
    var front := vs[..|vs| - 1];
    LastRun(vs);
    NewestPart(cat, front, key, i);
    var later := RunStart(vs) + vs[i].deltaSeq;
    assert i < RunStart(vs) && later < |front| ==> front[later].deltaSeq == vs[later].deltaSeq == vs[i].deltaSeq;
    if i >= RunStart(vs) {
      forall k | i < k < |front| ensures front[k].deltaSeq != front[i].deltaSeq {
        assert front[k] == vs[k] && front[i] == vs[i];
      }
    }
  }

  // -------------------------------------------------- insert_missing_delta

  /** The cut at the last ',' of the job list; a list of one job has no ',' and stays. */
  function StripLast(list: seq<JobId>): seq<JobId> {
    if |list| > 1 then list[..|list| - 1] else list
  }

  /** The rows added to the restore list for a selected part. */
  ghost function MissingDelta(cat: Catalog, list: seq<JobId>, key: FileKey): set<FileRow> {
    MaxJoin(cat, IdSet(StripLast(list)), Query(true, Some(key)))
  }

  /** The job list comes sorted by JobTDate, without base jobs. */
  ghost predicate ListInOrder(cat: Catalog, list: seq<JobId>) {
    && cat.base == {} && Unambiguous(cat, IdSet(list))
    && (forall i :: 0 <= i < |list| ==> list[i] in cat.jobs)
    && forall i, k :: 0 <= i < k < |list| ==> cat.jobs[list[i]].tdate < cat.jobs[list[k]].tdate
  }

  lemma PrefixInOrder(cat: Catalog, list: seq<JobId>)
    requires ListInOrder(cat, list) && list != []
    ensures ListInOrder(cat, list[..|list| - 1])
  {
  }

  ghost predicate OneVersionEach(files: set<FileRow>, list: seq<JobId>) {
    forall f, g :: SameJobAndFile(files, f, g) && f.jobId in list ==> f == g
  }

  lemma ListHasOneVersionEach(cat: Catalog, list: seq<JobId>)
    requires ListInOrder(cat, list)
    ensures OneVersionEach(cat.files, list)
  {
  }

  /** The versions are the rows of the file in the listed jobs. */
  lemma {:induction false} VersionsElems(cat: Catalog, key: FileKey, list: seq<JobId>, f: FileRow)
    requires OneVersionEach(cat.files, list)
    ensures f in Versions(cat, key, list) <==> f in cat.files && f.jobId in list && KeyOf(f) == key
  {
    if list != [] {
      var front, j := list[..|list| - 1], list[|list| - 1];
      assert list == front + [j];
      VersionsElems(cat, key, front, f);
      var v := VersionIn(cat, key, j);
      if IsVersion(cat, key, j, f) {
        assert SameJobAndFile(cat.files, f, v[0]);
      }
    }
  }

  lemma VersionsAreCandidates(cat: Catalog, key: FileKey, list: seq<JobId>)
    requires ListInOrder(cat, list)
    ensures Elems(Versions(cat, key, list)) == Candidates(cat, IdSet(list), Query(true, Some(key)))
  {
    ListHasOneVersionEach(cat, list);
    forall f { VersionsElems(cat, key, list, f); }
  }

  /** ... oldest first. */
  lemma {:induction false} VersionsInOrder(cat: Catalog, key: FileKey, list: seq<JobId>)
    requires OneVersionEach(cat.files, list)
    requires forall i :: 0 <= i < |list| ==> list[i] in cat.jobs
    requires forall i, k :: 0 <= i < k < |list| ==> cat.jobs[list[i]].tdate < cat.jobs[list[k]].tdate
    ensures SameKey(Versions(cat, key, list), key) && DatesIncrease(cat, Versions(cat, key, list))
  {
    if list != [] {
      var front, j := list[..|list| - 1], list[|list| - 1];
      var earlier, v := Versions(cat, key, front), VersionIn(cat, key, j);
      VersionsInOrder(cat, key, front);
      forall i | 0 <= i < |earlier| ensures DateOf(cat, earlier[i]) < cat.jobs[j].tdate {
        VersionsElems(cat, key, front, earlier[i]);
        var m :| 0 <= m < |front| && front[m] == earlier[i].jobId;
        assert list[m] == front[m];
      }
      assert v != [] ==> DateOf(cat, v[0]) == cat.jobs[j].tdate;
    }
  }

  /** A query for all files, looked at for one file, is the query for that file. */
  lemma OneFileOfAll(cat: Catalog, ids: set<JobId>, key: FileKey, f: FileRow)
    requires Unambiguous(cat, ids) && KeyOf(f) == key
    ensures f in MaxJoin(cat, ids, Query(true, None)) <==> f in MaxJoin(cat, ids, Query(true, Some(key)))
  {
    MaxJoinIsNewest(cat, ids, Query(true, None));
    MaxJoinIsNewest(cat, ids, Query(true, Some(key)));
    var all, one := Candidates(cat, ids, Query(true, None)), Candidates(cat, ids, Query(true, Some(key)));
    assert one <= all;
    if NoNewer(cat, Query(true, Some(key)), one, f) {
      assert NoNewer(cat, Query(true, None), all, f);
    }
  }

  /** The delta query of a restore: of a file whose versions follow the numbering and whose
      last has part n, it returns parts 0..n of the last run; any other row it returns for
      the file, a stale part, has a number above n. */
  lemma WholeListParts(cat: Catalog, key: FileKey, list: seq<JobId>, vs: seq<FileRow>, f: FileRow)
    requires ListInOrder(cat, list) && vs == Versions(cat, key, list) && IsDeltaHistory(vs) && KeyOf(f) == key
    ensures RunStart(vs) >= 0
    ensures f in vs[RunStart(vs)..] ==> f in MaxJoin(cat, IdSet(list), Query(true, None))
    ensures f in MaxJoin(cat, IdSet(list), Query(true, None)) && f !in vs[RunStart(vs)..] ==>
              f in vs && f.deltaSeq > LastPart(vs)
  {
    OneFileOfAll(cat, IdSet(list), key, f);
    MaxJoinIsNewest(cat, IdSet(list), Query(true, Some(key)));
    VersionsAreCandidates(cat, key, list);
    ListHasOneVersionEach(cat, list);
    VersionsInOrder(cat, key, list);
    LastRun(vs);
    if f in vs {
      var i :| 0 <= i < |vs| && vs[i] == f;
      KeptParts(cat, vs, key, i);
      assert i >= RunStart(vs) ==> vs[RunStart(vs)..][i - RunStart(vs)] == f;
      if f in vs[RunStart(vs)..] {
        var k :| 0 <= k < |vs[RunStart(vs)..]| && vs[RunStart(vs)..][k] == f;
        KeptParts(cat, vs, key, RunStart(vs) + k);
      }
    }
  }

  /** What the query for one file returns of a list of jobs. */
  lemma KeptIsQuery(cat: Catalog, key: FileKey, list: seq<JobId>)
    requires ListInOrder(cat, list)
    ensures MaxJoin(cat, IdSet(list), Query(true, Some(key))) == Kept(cat, Versions(cat, key, list), key)
  {
    VersionsAreCandidates(cat, key, list);
    MaxJoinIsNewest(cat, IdSet(list), Query(true, Some(key)));
  }

  ghost predicate HasPart(vs: seq<FileRow>, n: nat) {
    exists i :: 0 <= i < |vs| && vs[i].deltaSeq == n
  }

  lemma KeepsSomeOfEachPart(cat: Catalog, vs: seq<FileRow>, key: FileKey, n: nat)
    ensures (exists f :: f in Kept(cat, vs, key) && f.deltaSeq == n) <==> HasPart(vs, n)
  {
    if i :| 0 <= i < |vs| && vs[i].deltaSeq == n {
      assert vs[i] in Elems(vs);
      var f := SomeNewest(cat, Query(true, Some(key)), Elems(vs), vs[i]);
      assert f.deltaSeq == n;
    }
    if f :| f in Kept(cat, vs, key) && f.deltaSeq == n {
      var i :| 0 <= i < |vs| && vs[i] == f;
      assert HasPart(vs, n);
    }
  }

  // -------------------------------------------- on the lists of a Job table

  /** insert_missing_delta asks for the job of the selected part, by no name. */
  function DeltaRequest(j: JobRow): Request {
    Request("", j.clientId, j.fileSetId, Incremental, j.start)
  }

  /** Run n saved the selected part: `rows` is the list insert_missing_delta asks for, `own`
      the list run n compared with, by its own name, when it numbered its parts. */
  ghost predicate Lists(h: History, n: int, rows: seq<JobRow>, own: seq<JobRow>) {
    && Sequential(h) && Good(h, n) && h.jobs[n].level != Full && own != []
    && AsOf(h, n) == DeltaRequest(h.jobs[n]) && IsOrderedChain(WholeTable(h), DeltaRequest(h.jobs[n]), rows)
    && IsOrderedChain(TableUpTo(h, n), SearchOf(h, n), own)
  }

  /** The list asked for is that of the part's client and FileSet, of any name, up to its
      job's start. */
  lemma AskedFor(h: History, n: int, rows: seq<JobRow>, own: seq<JobRow>)
    requires Lists(h, n, rows, own)
    ensures var j := h.jobs[n];
            IsChain(WholeTable(h), Request("", j.clientId, j.fileSetId, Incremental, j.start), Rows(rows))
  {
  }

  /** The jobs the query is asked about. */
  function AskedIds(rows: seq<JobRow>): set<JobId> {
    IdSet(StripLast(JobIds(rows)))
  }

  /** The jobs asked about are run n's own list, with or without run n. */
  ghost predicate AsksForOwn(h: History, n: int, rows: seq<JobRow>, own: seq<JobRow>)
    requires 0 <= n < |h.jobs|
  {
    AskedIds(rows) - {h.jobs[n].jobId} == IdSet(JobIds(own))
  }

  /** The versions of the file that run n knew, and the part it saved. */
  ghost function OwnVersions(h: History, cat: Catalog, n: int, key: FileKey, own: seq<JobRow>): seq<FileRow>
    requires 0 <= n < |h.jobs|
  {
    Versions(cat, key, JobIds(own + [h.jobs[n]]))
  }

  /** A catalog without base files in which these versions follow the numbering. */
  ghost predicate Numbered(h: History, cat: Catalog, n: int, key: FileKey, own: seq<JobRow>)
    requires 0 <= n < |h.jobs|
  {
    && Fits(h, cat) && cat.base == {} && IsDeltaHistory(OwnVersions(h, cat, n, key, own))
    && exists f :: IsVersion(cat, key, h.jobs[n].jobId, f)
  }

  /** Every part of the selected part's own run is in the list or is added. */
  ghost predicate Completed(h: History, cat: Catalog, n: int, key: FileKey, rows: seq<JobRow>, own: seq<JobRow>)
    requires 0 <= n < |h.jobs| && OwnVersions(h, cat, n, key, own) != []
  {
    var vs := OwnVersions(h, cat, n, key, own);
    forall i :: 0 <= i < |vs| - 1 && RunStart(vs) <= i ==> vs[i] in MissingDelta(cat, JobIds(rows), key)
  }

  /** An ordered list of good runs meets what the query needs. */
  lemma GoodListInOrder(h: History, cat: Catalog, s: set<int>, rows: seq<JobRow>)
    requires Sequential(h) && Fits(h, cat) && cat.base == {} && AllGood(h, s)
    requires Rows(rows) == JobsAt(h, s) && SortedByDate(rows) && NoRepeats(rows)
    ensures ListInOrder(cat, JobIds(rows))
  {
    var list := JobIds(rows);
    forall k | 0 <= k < |rows| ensures list[k] in GoodIds(h) && list[k] in cat.jobs && cat.jobs[list[k]] == rows[k] {
      var i := RunOfRow(h, s, rows, k);
    }
    assert IdSet(list) <= GoodIds(h);
    forall i, k | 0 <= i < k < |list| ensures cat.jobs[list[i]].tdate < cat.jobs[list[k]].tdate {
      var a := RunOfRow(h, s, rows, i);
      var b := RunOfRow(h, s, rows, k);
      assert rows[i] != rows[k];
      if rows[i].tdate == rows[k].tdate { DateNamesRun(h, a, b); }
    }
  }

  lemma RunOfRow(h: History, s: set<int>, rows: seq<JobRow>, k: nat) returns (i: int)
    requires AllGood(h, s) && Rows(rows) == JobsAt(h, s) && k < |rows|
    ensures i in s && Good(h, i) && h.jobs[i] == rows[k]
  {
    assert rows[k] in Rows(rows);
    i :| i in s && h.jobs[i] == rows[k];
  }

  /** The two lists by position. */
  lemma ListsArePositions(h: History, n: int, rows: seq<JobRow>, own: seq<JobRow>)
    requires Lists(h, n, rows, own)
    ensures Rows(rows) == JobsAt(h, Picked(h, LastSeen(h, n))) && Rows(own) == JobsAt(h, OwnList(h, n))
  {
    WholeTableSees(h, n);
    ChainIsPicked(h, WholeTable(h), AsOf(h, n), LastSeen(h, n), Rows(rows));
    OwnListIsChain(h, n, Rows(own));
  }

  /** The own list and run n after it, by position and in order. */
  lemma OwnAndRun(h: History, n: int, rows: seq<JobRow>, own: seq<JobRow>)
    requires Lists(h, n, rows, own)
    ensures var own' := own + [h.jobs[n]];
            Rows(own') == JobsAt(h, OwnList(h, n) + {n}) && SortedByDate(own') && NoRepeats(own')
  {
    ListsArePositions(h, n, rows, own);
    forall k | 0 <= k < |own| ensures own[k].tdate < h.jobs[n].tdate {
      var i := RunOfRow(h, OwnList(h, n), own, k);
      InOrder(h, i, n);
    }
    assert Rows(own + [h.jobs[n]]) == Rows(own) + {h.jobs[n]};
    JobsAtUnion(h, OwnList(h, n), {n});
    assert JobsAt(h, {n}) == {h.jobs[n]};
  }

  /** The accurate list as of run n consists of good runs, in the order of their dates. */
  lemma AccurateListInOrder(h: History, cat: Catalog, n: int, rows: seq<JobRow>, own: seq<JobRow>)
    requires Lists(h, n, rows, own) && Fits(h, cat) && cat.base == {}
    ensures ListInOrder(cat, JobIds(rows)) && ListInOrder(cat, JobIds(own + [h.jobs[n]]))
    ensures JobIds(own + [h.jobs[n]]) == JobIds(own) + [h.jobs[n].jobId]
  {
    ListsArePositions(h, n, rows, own);
    GoodListInOrder(h, cat, Picked(h, LastSeen(h, n)), rows);
    OwnAndRun(h, n, rows, own);
    GoodListInOrder(h, cat, OwnList(h, n) + {n}, own + [h.jobs[n]]);
  }

  /** The versions run n knew, and the selected row after them. */
  lemma OwnVersionsEnd(h: History, cat: Catalog, n: int, key: FileKey, rows: seq<JobRow>, own: seq<JobRow>)
    requires Lists(h, n, rows, own) && Numbered(h, cat, n, key, own)
    ensures var vs, front := OwnVersions(h, cat, n, key, own), Versions(cat, key, JobIds(own));
            && vs == front + [vs[|vs| - 1]] && vs[|vs| - 1].jobId == h.jobs[n].jobId && front == vs[..|vs| - 1]
            && ListInOrder(cat, JobIds(own)) && SameKey(vs, key) && DatesIncrease(cat, vs)
  {
    var ids := JobIds(own) + [h.jobs[n].jobId];
    AccurateListInOrder(h, cat, n, rows, own);
    assert ids[..|ids| - 1] == JobIds(own);
    PrefixInOrder(cat, ids);
    ListHasOneVersionEach(cat, ids);
    VersionsInOrder(cat, key, ids);
    var v := VersionIn(cat, key, h.jobs[n].jobId);
    assert |v| == 1 && v[0].jobId == h.jobs[n].jobId;
  }

  lemma QueryOnOwn(cat: Catalog, key: FileKey, asked: set<JobId>, ids: seq<JobId>, id: JobId)
    requires ListInOrder(cat, ids) && ListInOrder(cat, ids + [id]) && asked - {id} == IdSet(ids)
    ensures MaxJoin(cat, asked, Query(true, Some(key))) ==
            Kept(cat, Versions(cat, key, if id in asked then ids + [id] else ids), key)
  {
    if id in asked {
      assert IdSet(ids + [id]) == IdSet(ids) + {id} by { assert (ids + [id])[|ids|] == id; }
      assert asked == IdSet(ids + [id]);
      KeptIsQuery(cat, key, ids + [id]);
    } else {
      assert asked == IdSet(ids);
      KeptIsQuery(cat, key, ids);
    }
  }

  /** Asked about its own list, the query sees the versions run n knew, with or without
      the selected row. */
  lemma SeesOwnVersions(h: History, cat: Catalog, n: int, key: FileKey, rows: seq<JobRow>, own: seq<JobRow>)
    requires Lists(h, n, rows, own) && Numbered(h, cat, n, key, own) && AsksForOwn(h, n, rows, own)
    ensures var vs := OwnVersions(h, cat, n, key, own);
            MissingDelta(cat, JobIds(rows), key) ==
            Kept(cat, if h.jobs[n].jobId in AskedIds(rows) then vs else vs[..|vs| - 1], key)
  {
    AccurateListInOrder(h, cat, n, rows, own);
    OwnVersionsEnd(h, cat, n, key, rows, own);
    QueryOnOwn(cat, key, AskedIds(rows), JobIds(own), h.jobs[n].jobId);
  }

  /** If it asks for run n's own list, insert_missing_delta adds parts 0..n-1 of the
      selected part's own run; any other row it adds for the file is one run n knew, with a
      part number of n or more. */
  lemma MissingDeltaCompletesRun(h: History, cat: Catalog, n: int, key: FileKey, rows: seq<JobRow>,
                                 own: seq<JobRow>, i: nat)
    requires Lists(h, n, rows, own) && Numbered(h, cat, n, key, own) && AsksForOwn(h, n, rows, own)
    requires i < |OwnVersions(h, cat, n, key, own)| - 1
    ensures var vs, added := OwnVersions(h, cat, n, key, own), MissingDelta(cat, JobIds(rows), key);
            && (i >= RunStart(vs) ==> vs[i] in added)
            && (i < RunStart(vs) && vs[i] in added ==> vs[i].deltaSeq >= LastPart(vs))
            && (forall f :: f in added ==> f in vs)
  {
    var vs := OwnVersions(h, cat, n, key, own);
    OwnVersionsEnd(h, cat, n, key, rows, own);
    SeesOwnVersions(h, cat, n, key, rows, own);
    KeptParts(cat, vs, key, i);
    StrippedListParts(cat, vs, key, i);
  }

  /** A stale part n is added exactly when run n is not asked about itself and an earlier
      version it knew had part number n. */
  lemma StalePartCondition(h: History, cat: Catalog, n: int, key: FileKey, rows: seq<JobRow>, own: seq<JobRow>)
    requires Lists(h, n, rows, own) && Numbered(h, cat, n, key, own) && AsksForOwn(h, n, rows, own)
    ensures var vs := OwnVersions(h, cat, n, key, own);
            var stale := vs[..|vs| - 1];
            (exists f :: f in MissingDelta(cat, JobIds(rows), key) && f.deltaSeq == LastPart(vs) && f in stale) <==>
            h.jobs[n].jobId !in AskedIds(rows) && HasPart(stale, LastPart(vs))
  {
    var vs := OwnVersions(h, cat, n, key, own);
    OwnVersionsEnd(h, cat, n, key, rows, own);
    SeesOwnVersions(h, cat, n, key, rows, own);
    KeepsSomeOfEachPart(cat, vs[..|vs| - 1], key, LastPart(vs));
    if h.jobs[n].jobId in AskedIds(rows) {
      forall i | 0 <= i < |vs| - 1 && vs[i].deltaSeq == LastPart(vs) ensures vs[i] !in Kept(cat, vs, key) {
        NewestPart(cat, vs, key, i);
      }
    }
  }

  // ------------------------------------------------- when a part is not added

  /** A version of the file in run i. */
  function PartAt(h: History, i: nat, part: nat): FileRow
    requires i < |h.jobs|
  {
    FileRow(i, 1, h.jobs[i].jobId, FILE.pathId, FILE.filename, "", part)
  }

  /** Versions in increasing order of which all are one row. */
  lemma OneVersion(cat: Catalog, vs: seq<FileRow>, f: FileRow)
    requires DatesIncrease(cat, vs) && vs != [] && forall i :: 0 <= i < |vs| ==> vs[i] == f
    ensures vs == [f]
  {
    assert vs[0] == vs[|vs| - 1];
  }

  lemma LastNotBefore(cat: Catalog, list: seq<JobId>)
    requires ListInOrder(cat, list) && list != []
    ensures list[|list| - 1] !in list[..|list| - 1]
  {
  }

  lemma OnlyVersion(cat: Catalog, key: FileKey, ids: seq<JobId>, f: FileRow)
    requires ListInOrder(cat, ids) && IsVersion(cat, key, f.jobId, f) && f.jobId in ids
    requires forall x :: x in cat.files && x.jobId in ids ==> x == f
    ensures Versions(cat, key, ids) == [f]
  {
    var vs := Versions(cat, key, ids);
    ListHasOneVersionEach(cat, ids);
    VersionsInOrder(cat, key, ids);
    forall x ensures x in vs <==> x == f { VersionsElems(cat, key, ids, x); }
    assert f in vs && forall i :: 0 <= i < |vs| ==> vs[i] in vs;
    OneVersion(cat, vs, f);
  }

  lemma TwoVersions(cat: Catalog, key: FileKey, ids: seq<JobId>, id: JobId, f: FileRow, g: FileRow)
    requires ListInOrder(cat, ids + [id]) && IsVersion(cat, key, f.jobId, f) && f.jobId in ids
    requires IsVersion(cat, key, id, g) && forall x :: x in cat.files && x.jobId in ids + [id] ==> x == f || x == g
    ensures Versions(cat, key, ids + [id]) == [f, g]
  {
    var all := ids + [id];
    assert all[..|all| - 1] == ids;
    PrefixInOrder(cat, all);
    LastNotBefore(cat, all);
    OnlyVersion(cat, key, ids, f);
    assert VersionIn(cat, key, id) == [g];
  }

  /** The file has part 0 in run x and part 1 in run n, and nothing else that run n knew. */
  ghost predicate HasTwoParts(h: History, cat: Catalog, n: int, own: seq<JobRow>, x: int)
    requires 0 <= n < |h.jobs| && 0 <= x < |h.jobs|
  {
    && Fits(h, cat) && cat.base == {} && PartAt(h, x, 0) in cat.files && PartAt(h, n, 1) in cat.files
    && forall f :: f in cat.files && f.jobId in JobIds(own) + [h.jobs[n].jobId] ==>
         f == PartAt(h, x, 0) || f == PartAt(h, n, 1)
  }

  lemma TwoPartsVersions(h: History, cat: Catalog, n: int, rows: seq<JobRow>, own: seq<JobRow>, x: int)
    requires Lists(h, n, rows, own) && x in OwnList(h, n) && HasTwoParts(h, cat, n, own, x)
    ensures OwnVersions(h, cat, n, FILE, own) == [PartAt(h, x, 0), PartAt(h, n, 1)]
  {
    var ids, f, g := JobIds(own), PartAt(h, x, 0), PartAt(h, n, 1);
    AccurateListInOrder(h, cat, n, rows, own);
    OwnRunListed(h, n, rows, own, x);
    TwoVersions(cat, FILE, ids, h.jobs[n].jobId, f, g);
  }

  /** If part 0 of run x is not added, the run of the selected part is not completed. */
  lemma TwoPartsNotCompleted(h: History, cat: Catalog, n: int, rows: seq<JobRow>, own: seq<JobRow>, x: int)
    requires Lists(h, n, rows, own) && x in OwnList(h, n) && HasTwoParts(h, cat, n, own, x)
    requires PartAt(h, x, 0) !in MaxJoin(cat, AskedIds(rows), Query(true, Some(FILE)))
    ensures Numbered(h, cat, n, FILE, own) && !Completed(h, cat, n, FILE, rows, own)
  {
    TwoPartsVersions(h, cat, n, rows, own, x);
    assert IsVersion(cat, FILE, h.jobs[n].jobId, PartAt(h, n, 1));
    var vs := OwnVersions(h, cat, n, FILE, own);
    assert RunStart(vs) == 0 && vs[0] !in MissingDelta(cat, JobIds(rows), FILE);
  }

  lemma OwnRunListed(h: History, n: int, rows: seq<JobRow>, own: seq<JobRow>, x: int)
    requires Lists(h, n, rows, own) && 0 <= x < |h.jobs|
    ensures h.jobs[x].jobId in JobIds(own) <==> x in OwnList(h, n)
  {
    ListsArePositions(h, n, rows, own);
    if x in OwnList(h, n) {
      assert h.jobs[x] in Rows(own);
      var k :| 0 <= k < |own| && own[k] == h.jobs[x];
      assert JobIds(own)[k] == h.jobs[x].jobId;
    }
    if h.jobs[x].jobId in JobIds(own) {
      var k :| 0 <= k < |own| && JobIds(own)[k] == h.jobs[x].jobId;
      var i := RunOfRow(h, OwnList(h, n), own, k);
      assert SameJobId(h, i, x);
    }
  }

  /** A run of the own list that is not asked about: its part is lost. */
  lemma UnaskedPartIsLost(h: History, n: int, rows: seq<JobRow>, own: seq<JobRow>, x: int) returns (cat: Catalog)
    requires Lists(h, n, rows, own) && x in OwnList(h, n) && h.jobs[x].jobId !in AskedIds(rows)
    ensures Numbered(h, cat, n, FILE, own) && !Completed(h, cat, n, FILE, rows, own)
  {
    var files := {PartAt(h, x, 0), PartAt(h, n, 1)};
    assert !SameJobId(h, x, n);
    cat := CatalogOf(h, files);
    CatalogFits(h, files);
    TwoPartsNotCompleted(h, cat, n, rows, own, x);
  }

  /** Everything listed comes at or after the last Full. */
  lemma ListedFromFull(h: History, n: int, y: int)
    requires Sequential(h) && Good(h, n) && y in Picked(h, LastSeen(h, n)) && OwnList(h, n) != {}
    ensures var f := FullAt(OwnView(h, n), n - 1); f in OwnList(h, n) && f <= y
  {
    var k, f := LastSeen(h, n), FullAt(OwnView(h, n), n - 1);
    OwnViewIs(h, n);
    assert At(h, f, Full, None) && f <= FullAt(h, k);
    var last, a := FullAt(h, k), AnchorAt(h, k);
    if a != last { StartedAfterIsLater(h, last, a); }
    if y in IncrementalsAt(h, k) { StartedAfterIsLater(h, a, y); }
  }

  lemma ThreeParts(h: History, n: int, own: seq<JobRow>, x: int, y: int) returns (cat: Catalog)
    requires Sequential(h) && Good(h, n) && Good(h, x) && Good(h, y) && x < y && x != n && y != n
    requires h.jobs[y].jobId !in JobIds(own)
    ensures cat.files == {PartAt(h, x, 0), PartAt(h, y, 0), PartAt(h, n, 1)} && HasTwoParts(h, cat, n, own, x)
    ensures DateOf(cat, PartAt(h, x, 0)) < DateOf(cat, PartAt(h, y, 0)) && h.jobs[y].jobId in cat.jobs
  {
    var files := {PartAt(h, x, 0), PartAt(h, y, 0), PartAt(h, n, 1)};
    assert !SameJobId(h, x, y) && !SameJobId(h, x, n) && !SameJobId(h, y, n);
    cat := CatalogOf(h, files);
    CatalogFits(h, files);
    JobMapHolds(h, x);
    JobMapHolds(h, y);
    InOrder(h, x, y);
  }

  lemma AskedUnambiguous(h: History, cat: Catalog, n: int, rows: seq<JobRow>, own: seq<JobRow>)
    requires Lists(h, n, rows, own) && Fits(h, cat) && cat.base == {}
    ensures Unambiguous(cat, AskedIds(rows))
  {
    AccurateListInOrder(h, cat, n, rows, own);
    assert AskedIds(rows) <= IdSet(JobIds(rows));
  }

  /** A run outside the own list that is asked about: its part shadows the one needed. */
  lemma ForeignPartShadows(h: History, n: int, rows: seq<JobRow>, own: seq<JobRow>, y: int) returns (cat: Catalog)
    requires Lists(h, n, rows, own) && y != n && y in Picked(h, LastSeen(h, n))
    requires h.jobs[y].jobId in AskedIds(rows) && h.jobs[y].jobId !in JobIds(own)
    ensures Numbered(h, cat, n, FILE, own) && !Completed(h, cat, n, FILE, rows, own)
  {
    var x := FullAt(OwnView(h, n), n - 1);
    OwnFull(h, n, rows, own);
    ListedFromFull(h, n, y);
    OwnRunListed(h, n, rows, own, x);
    cat := ThreeParts(h, n, own, x, y);
    AskedUnambiguous(h, cat, n, rows, own);
    ShadowedIsNotKept(cat, AskedIds(rows), PartAt(h, x, 0), PartAt(h, y, 0));
    TwoPartsNotCompleted(h, cat, n, rows, own, x);
  }

  lemma OwnFull(h: History, n: int, rows: seq<JobRow>, own: seq<JobRow>)
    requires Lists(h, n, rows, own)
    ensures OwnList(h, n) != {}
  {
    ListsArePositions(h, n, rows, own);
    assert own[0] in Rows(own);
  }

  lemma ShadowedIsNotKept(cat: Catalog, asked: set<JobId>, f: FileRow, g: FileRow)
    requires Unambiguous(cat, asked) && f in cat.files && g in cat.files && g.jobId in asked && g.jobId in cat.jobs
    requires KeyOf(f) == KeyOf(g) && f.deltaSeq == g.deltaSeq && DateOf(cat, f) < DateOf(cat, g)
    ensures f !in MaxJoin(cat, asked, Query(true, Some(KeyOf(f))))
  {
    var q := Query(true, Some(KeyOf(f)));
    MaxJoinIsNewest(cat, asked, q);
    assert g in Candidates(cat, asked, q) && GroupOf(q, f) == GroupOf(q, g);
  }

  lemma AskedAreGood(h: History, n: int, rows: seq<JobRow>, own: seq<JobRow>, j: JobId) returns (y: int)
    requires Lists(h, n, rows, own) && j in AskedIds(rows)
    ensures y in Picked(h, LastSeen(h, n)) && Good(h, y) && h.jobs[y].jobId == j
  {
    ListsArePositions(h, n, rows, own);
    var k :| 0 <= k < |rows| && JobIds(rows)[k] == j;
    y := RunOfRow(h, Picked(h, LastSeen(h, n)), rows, k);
  }

  /** insert_missing_delta completes the own run of the selected part, on every catalog,
      exactly when it asks for run n's own list. */
  lemma MissingDeltaExact(h: History, n: int, rows: seq<JobRow>, own: seq<JobRow>)
    requires Lists(h, n, rows, own)
    ensures (forall cat, key :: Numbered(h, cat, n, key, own) ==> Completed(h, cat, n, key, rows, own)) <==>
            AsksForOwn(h, n, rows, own)
  {
    if AsksForOwn(h, n, rows, own) {
      forall cat, key | Numbered(h, cat, n, key, own) ensures Completed(h, cat, n, key, rows, own) {
        var vs := OwnVersions(h, cat, n, key, own);
        forall i | 0 <= i < |vs| - 1 && RunStart(vs) <= i ensures vs[i] in MissingDelta(cat, JobIds(rows), key) {
          MissingDeltaCompletesRun(h, cat, n, key, rows, own, i);
        }
      }
    } else {
      var cat := SomePartIsLost(h, n, rows, own);
    }
  }

  lemma SomePartIsLost(h: History, n: int, rows: seq<JobRow>, own: seq<JobRow>) returns (cat: Catalog)
    requires Lists(h, n, rows, own) && !AsksForOwn(h, n, rows, own)
    ensures Numbered(h, cat, n, FILE, own) && !Completed(h, cat, n, FILE, rows, own)
  {
    var asked, id := AskedIds(rows), h.jobs[n].jobId;
    if j :| j in IdSet(JobIds(own)) && j !in asked - {id} {
      ListsArePositions(h, n, rows, own);
      var k :| 0 <= k < |own| && JobIds(own)[k] == j;
      var x := RunOfRow(h, OwnList(h, n), own, k);
      assert !SameJobId(h, x, n);
      cat := UnaskedPartIsLost(h, n, rows, own, x);
    } else {
      var j :| j in asked - {id} && j !in IdSet(JobIds(own));
      var y := AskedAreGood(h, n, rows, own, j);
      cat := ForeignPartShadows(h, n, rows, own, y);
    }
  }

  lemma ListIsOwnAndRun(h: History, n: int, rows: seq<JobRow>, own: seq<JobRow>)
    requires Lists(h, n, rows, own) && JoinsList(h, n) && OneName(h, n) && NothingOnTop(h, n)
    ensures Rows(rows) == Rows(own) + {h.jobs[n]}
  {
    JoinsOwnListExact(h, n);
    SeenExact(h, n, OwnList(h, n) + {n});
    ListsArePositions(h, n, rows, own);
    JobsAtUnion(h, OwnList(h, n), {n});
    assert JobsAt(h, {n}) == {h.jobs[n]};
  }

  /** A run that joins a list of its own name, with nothing on top, asks for its own list. */
  lemma JoinedAsksForOwn(h: History, n: int, rows: seq<JobRow>, own: seq<JobRow>)
    requires Lists(h, n, rows, own) && JoinsList(h, n) && OneName(h, n) && NothingOnTop(h, n)
    ensures AsksForOwn(h, n, rows, own)
  {
    ListIsOwnAndRun(h, n, rows, own);
    EndsWithRun(h, n, rows);
    OwnRunListed(h, n, rows, own, n);
    forall k | 0 <= k < |own| ensures own[k].jobId != h.jobs[n].jobId { assert JobIds(own)[k] == own[k].jobId; }
    FrontIsOwn(rows, own, h.jobs[n]);
  }

  lemma FrontIsOwn(rows: seq<JobRow>, own: seq<JobRow>, j: JobRow)
    requires rows != [] && rows[|rows| - 1] == j && NoRepeats(rows) && Rows(rows) == Rows(own) + {j} && own != []
    requires forall k :: 0 <= k < |own| ==> own[k].jobId != j.jobId
    ensures AskedIds(rows) - {j.jobId} == IdSet(JobIds(own))
  {
    assert own[0] in Rows(own) && own[0] != j;
    assert |rows| > 1;
    forall i | i in IdSet(JobIds(own)) ensures i in AskedIds(rows) {
      var k :| 0 <= k < |own| && JobIds(own)[k] == i;
      assert own[k] in Rows(rows);
      var m :| 0 <= m < |rows| && rows[m] == own[k];
      assert m < |rows| - 1 && StripLast(JobIds(rows))[m] == i;
    }
    forall i | i in AskedIds(rows) - {j.jobId} ensures i in IdSet(JobIds(own)) {
      var m :| 0 <= m < |rows| - 1 && JobIds(rows)[m] == i;
      assert rows[m] in Rows(rows) && rows[m] in Rows(own);
      var k :| 0 <= k < |own| && own[k] == rows[m];
      assert JobIds(own)[k] == i;
    }
  }
}
