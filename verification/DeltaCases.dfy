/** Small histories at which insert_missing_delta adds too little or too much. */
module DeltaCases {
  import opened CatalogTables
  import opened RecentVersions
  import opened AccurateJobs
  import opened JobHistories
  import opened RestoreHistory
  import opened RestoreCases
  import opened DeltaParts

  /** Ordered lists of the right positions are the two lists of a selected part. */
  lemma ListsAre(h: History, n: int, rows: seq<JobRow>, own: seq<JobRow>)
    requires Sequential(h) && Good(h, n) && h.jobs[n].level != Full && own != []
    requires AsOf(h, n) == DeltaRequest(h.jobs[n])
    requires Rows(rows) == JobsAt(h, Picked(h, LastSeen(h, n))) && SortedByDate(rows) && NoRepeats(rows)
    requires Rows(own) == JobsAt(h, OwnList(h, n)) && SortedByDate(own) && NoRepeats(own)
    ensures Lists(h, n, rows, own)
  {
    WholeTableSees(h, n);
    ChainIsPicked(h, WholeTable(h), AsOf(h, n), LastSeen(h, n), Rows(rows));
    OwnListIsChain(h, n, Rows(own));
  }

  ghost predicate AreFirst(s: set<int>, m: int) {
    forall i :: i in s <==> 0 <= i < m
  }

  /** The same where both are the first runs of the history. */
  lemma FirstRunsListed(h: History, n: int, a: nat, b: nat)
    requires Sequential(h) && Good(h, n) && h.jobs[n].level != Full && AsOf(h, n) == DeltaRequest(h.jobs[n])
    requires a <= |h.jobs| && 0 < b <= |h.jobs|
    requires AreFirst(Picked(h, LastSeen(h, n)), a) && AreFirst(OwnList(h, n), b)
    ensures Lists(h, n, h.jobs[..a], h.jobs[..b])
  {
    FirstRunsOrdered(h, Picked(h, LastSeen(h, n)), a);
    FirstRunsOrdered(h, OwnList(h, n), b);
    ListsAre(h, n, h.jobs[..a], h.jobs[..b]);
  }

  lemma FirstRunsOrdered(h: History, s: set<int>, m: nat)
    requires Sequential(h) && m <= |h.jobs| && AreFirst(s, m) && AllGood(h, s)
    ensures SortedByDate(h.jobs[..m]) && NoRepeats(h.jobs[..m]) && Rows(h.jobs[..m]) == JobsAt(h, s)
  {
    var rows := h.jobs[..m];
    forall i, k | 0 <= i < k < m ensures rows[i].tdate <= rows[k].tdate && rows[i] != rows[k] {
      assert i in s && k in s;
      InOrder(h, i, k);
    }
    forall i | i in s ensures h.jobs[i] in rows { assert rows[i] == h.jobs[i]; }
    forall j | j in rows ensures j in JobsAt(h, s) {
      var i :| 0 <= i < m && rows[i] == j;
      assert i in s;
    }
  }

  // ------------------------------------------------- a part in each of the first runs

  /** Run i saved part parts[i] of the file. */
  function PartsOf(h: History, parts: seq<nat>): seq<FileRow>
    requires |parts| <= |h.jobs|
  {
    seq(|parts|, i requires 0 <= i < |parts| => PartAt(h, i, parts[i]))
  }

  ghost function PartsCatalog(h: History, parts: seq<nat>): Catalog
    requires Sequential(h) && |parts| <= |h.jobs|
  {
    CatalogOf(h, Elems(PartsOf(h, parts)))
  }

  lemma {:induction false} VersionsAre(cat: Catalog, key: FileKey, ids: seq<JobId>, vs: seq<FileRow>)
    requires |ids| == |vs| && forall i :: 0 <= i < |vs| ==> VersionIn(cat, key, ids[i]) == [vs[i]]
    ensures Versions(cat, key, ids) == vs
  {
    if ids != [] {
      VersionsAre(cat, key, ids[..|ids| - 1], vs[..|vs| - 1]);
      assert vs == vs[..|vs| - 1] + [vs[|vs| - 1]];
    }
  }

  lemma PartsCatalogRows(h: History, parts: seq<nat>, i: nat, f: FileRow)
    requires Sequential(h) && i < |parts| <= |h.jobs| && f in Elems(PartsOf(h, parts)) && f.jobId == h.jobs[i].jobId
    ensures f == PartAt(h, i, parts[i])
  {
    var k :| 0 <= k < |parts| && f == PartsOf(h, parts)[k];
    assert SameJobId(h, i, k);
  }

  lemma PartsCatalogFits(h: History, parts: seq<nat>)
    requires Sequential(h) && |parts| <= |h.jobs|
    ensures Fits(h, PartsCatalog(h, parts))
  {
    var files := Elems(PartsOf(h, parts));
    forall f, g | SameJobAndFile(files, f, g) ensures f == g {
      var k :| 0 <= k < |parts| && f == PartsOf(h, parts)[k];
      PartsCatalogRows(h, parts, k, g);
    }
    CatalogFits(h, files);
  }

  lemma PartsVersions(h: History, parts: seq<nat>)
    requires Sequential(h) && |parts| <= |h.jobs|
    ensures Versions(PartsCatalog(h, parts), FILE, JobIds(h.jobs[..|parts|])) == PartsOf(h, parts)
  {
    var cat, ids := PartsCatalog(h, parts), JobIds(h.jobs[..|parts|]);
    forall i | 0 <= i < |parts| ensures VersionIn(cat, FILE, ids[i]) == [PartsOf(h, parts)[i]] {
      var f := PartsOf(h, parts)[i];
      assert f in Elems(PartsOf(h, parts)) && IsVersion(cat, FILE, ids[i], f);
      forall g | IsVersion(cat, FILE, ids[i], g) ensures g == f { PartsCatalogRows(h, parts, i, g); }
    }
    VersionsAre(cat, FILE, ids, PartsOf(h, parts));
  }

  /** The run after the first n saved the last of the parts, and compared with these. */
  lemma PartsNumbered(h: History, parts: seq<nat>, n: nat)
    requires Sequential(h) && |parts| == n + 1 <= |h.jobs| && IsDeltaHistory(PartsOf(h, parts))
    ensures Numbered(h, PartsCatalog(h, parts), n, FILE, h.jobs[..n])
    ensures OwnVersions(h, PartsCatalog(h, parts), n, FILE, h.jobs[..n]) == PartsOf(h, parts)
  {
    var cat, f := PartsCatalog(h, parts), PartAt(h, n, parts[n]);
    PartsCatalogFits(h, parts);
    PartsVersions(h, parts);
    assert h.jobs[..n] + [h.jobs[n]] == h.jobs[..n + 1];
    assert PartsOf(h, parts)[n] == f && f in Elems(PartsOf(h, parts));
    assert IsVersion(cat, FILE, h.jobs[n].jobId, f);
  }

  // ------------------------------------------------------------- two names

  lemma TwoNamesLists(h: History, rows: seq<JobRow>, own: seq<JobRow>)
    requires h == TwoNames() && rows == [h.jobs[1], h.jobs[2]] && own == [h.jobs[0]]
    ensures Lists(h, 2, rows, own) && JoinsList(h, 2) && NothingOnTop(h, 2)
  {
    TwoNamesPicked();
    TwoNamesOwn();
    assert JobsAt(h, {1, 2}) == Rows(rows) && JobsAt(h, {0}) == Rows(own);
    ListsAre(h, 2, rows, own);
  }

  lemma FirstPartIsShadowed(h: History, rows: seq<JobRow>, own: seq<JobRow>) returns (cat: Catalog)
    requires Lists(h, 2, rows, own) && |h.jobs| == 3 && Good(h, 0) && Good(h, 1) && OwnList(h, 2) == {0}
    requires rows == [h.jobs[1], h.jobs[2]] && own == [h.jobs[0]]
    ensures cat.files == {PartAt(h, 0, 0), PartAt(h, 1, 0), PartAt(h, 2, 1)}
    ensures Numbered(h, cat, 2, FILE, own) && PartAt(h, 0, 0) !in MissingDelta(cat, JobIds(rows), FILE)
  {
    assert !SameJobId(h, 0, 1);
    cat := ThreeParts(h, 2, own, 0, 1);
    assert StripLast(JobIds(rows)) == [h.jobs[1].jobId];
    AskedUnambiguous(h, cat, 2, rows, own);
    ShadowedIsNotKept(cat, AskedIds(rows), PartAt(h, 0, 0), PartAt(h, 1, 0));
    TwoPartsNotCompleted(h, cat, 2, rows, own, 0);
  }

  /** Part 1 of job "a" is selected: part 0 of job "b" takes the place of the part 0 it
      builds on, although the run joins its list. */
  lemma OtherNameShadowsPart(h: History, rows: seq<JobRow>, own: seq<JobRow>) returns (cat: Catalog)
    requires h == TwoNames() && rows == [h.jobs[1], h.jobs[2]] && own == [h.jobs[0]]
    ensures Lists(h, 2, rows, own) && JoinsList(h, 2) && NothingOnTop(h, 2)
    ensures cat.files == {PartAt(h, 0, 0), PartAt(h, 1, 0), PartAt(h, 2, 1)}
    ensures Numbered(h, cat, 2, FILE, own) && PartAt(h, 0, 0) !in MissingDelta(cat, JobIds(rows), FILE)
  {
    TwoNamesLists(h, rows, own);
    TwoNamesOwn();
    TwoNamesPicked();
    cat := FirstPartIsShadowed(h, rows, own);
  }

  // ------------------------------------------------------------- the same second

  /** An Incremental that starts in the second in which the Differential ended. */
  function AfterDifferential(): History {
    History([Backup(1, 1, Full, 0, 10), Backup(2, 1, Differential, 20, 30), Backup(3, 1, Incremental, 30, 40)],
            map[1 := "set"], "", 5, 1)
  }

  lemma AfterDifferentialPicked(h: History)
    requires h == AfterDifferential()
    ensures Sequential(h) && Good(h, 0) && Good(h, 1) && Good(h, 2)
    ensures LastSeen(h, 2) == 2 && Picked(h, 2) == {0, 1}
  {
    assert FullAt(h, 2) == 0 by { assert At(h, 0, Full, None); }
    assert AnchorAt(h, 2) == 1 by { assert At(h, 1, Differential, Some(10)); }
    assert IncrementalsAt(h, 2) == {};
  }

  lemma AfterDifferentialOwn(h: History)
    requires h == AfterDifferential()
    ensures Good(h, 2) && OwnList(h, 2) == {0, 1}
  {
    var o := OwnView(h, 2);
    assert FullAt(o, 1) == 0 by { assert At(o, 0, Full, None); }
    assert AnchorAt(o, 1) == 1 by { assert At(o, 1, Differential, Some(10)); }
    assert IncrementalsAt(o, 1) == {};
  }

  lemma AfterDifferentialLists(h: History)
    requires h == AfterDifferential()
    ensures Lists(h, 2, h.jobs[..2], h.jobs[..2])
  {
    AfterDifferentialPicked(h);
    AfterDifferentialOwn(h);
    FirstRunsListed(h, 2, 2, 2);
  }

  lemma ThreePartsNumbered(h: History, cat: Catalog)
    requires Sequential(h) && |h.jobs| == 3 && cat == PartsCatalog(h, [0, 1, 2])
    ensures Numbered(h, cat, 2, FILE, h.jobs[..2])
  {
    PartsNumbered(h, [0, 1, 2], 2);
  }

  /** With a list of the first two runs the second is not asked about. */
  lemma SecondIsNotAsked(h: History, cat: Catalog, rows: seq<JobRow>)
    requires Sequential(h) && |h.jobs| == 3 && rows == h.jobs[..2] && cat.base == {}
    ensures PartAt(h, 1, 1) !in MissingDelta(cat, JobIds(rows), FILE)
  {
    assert StripLast(JobIds(rows)) == [h.jobs[0].jobId] && !SameJobId(h, 0, 1);
  }

  /** Part 2 of the Incremental is selected: the list is cut to the Full, and part 1 of the
      Differential is lost. */
  lemma CutOffPartIsLost(h: History, rows: seq<JobRow>)
    requires h == AfterDifferential() && rows == h.jobs[..2]
    ensures Sequential(h) && Lists(h, 2, rows, rows)
    ensures var cat := PartsCatalog(h, [0, 1, 2]);
            Numbered(h, cat, 2, FILE, rows) && PartAt(h, 1, 1) !in MissingDelta(cat, JobIds(rows), FILE)
  {
    AfterDifferentialLists(h);
    ThreePartsNumbered(h, PartsCatalog(h, [0, 1, 2]));
    SecondIsNotAsked(h, PartsCatalog(h, [0, 1, 2]), rows);
  }

  /** Not joining the list does no harm when the list is the Full alone: it has no comma,
      and nothing is cut off. */
  lemma ShortListIsNotCut(h: History, rows: seq<JobRow>)
    requires h == SameSecond() && rows == h.jobs[..1]
    ensures Lists(h, 1, rows, rows) && !JoinsList(h, 1) && AsksForOwn(h, 1, rows, rows)
  {
    var o := OwnView(h, 1);
    SameSecondFacts();
    assert FullAt(o, 0) == 0 by { assert At(o, 0, Full, None); }
    assert AnchorAt(o, 0) == 0 && IncrementalsAt(o, 0) == {};
    FirstRunsListed(h, 1, 1, 1);
    JoinsListExact(h, 1);
    assert JobIds(rows) == [1] && StripLast([1]) == [1];
  }

  // ------------------------------------------------------- parts 0, 1, 0, 1

  /** Four versions of one file in four jobs: a Full and three Incrementals. */
  function FourVersions(): History {
    History([Backup(1, 1, Full, 0, 10), Backup(2, 1, Incremental, 20, 30), Backup(3, 1, Incremental, 40, 50),
             Backup(4, 1, Incremental, 60, 70)],
            map[1 := "set"], "", 5, 1)
  }

  lemma FourVersionsPicked(h: History)
    requires h == FourVersions()
    ensures Sequential(h) && Good(h, 3) && LastSeen(h, 3) == 3 && Picked(h, 3) == {0, 1, 2, 3}
  {
    assert FullAt(h, 3) == 0 by { assert At(h, 0, Full, None); }
    assert AnchorAt(h, 3) == 0;
    forall i | 1 <= i <= 3 ensures i in IncrementalsAt(h, 3) { assert At(h, i, Incremental, Some(10)); }
  }

  lemma FourVersionsOwn(h: History)
    requires h == FourVersions()
    ensures Good(h, 3) && OwnList(h, 3) == {0, 1, 2}
  {
    var o := OwnView(h, 3);
    assert FullAt(o, 2) == 0 by { assert At(o, 0, Full, None); }
    assert AnchorAt(o, 2) == 0;
    forall i | 1 <= i <= 2 ensures i in IncrementalsAt(o, 2) { assert At(o, i, Incremental, Some(10)); }
  }

  lemma FourVersionsLists(h: History)
    requires h == FourVersions()
    ensures Lists(h, 3, h.jobs[..4], h.jobs[..3])
  {
    FourVersionsPicked(h);
    FourVersionsOwn(h);
    FirstRunsListed(h, 3, 4, 3);
  }

  lemma FirstThreeAsked(h: History, rows: seq<JobRow>)
    requires Sequential(h) && |h.jobs| == 4 && rows == h.jobs[..4]
    ensures AsksForOwn(h, 3, rows, h.jobs[..3]) && h.jobs[3].jobId !in AskedIds(rows)
  {
    assert StripLast(JobIds(rows)) == JobIds(h.jobs[..3]);
    forall k | 0 <= k < 3 ensures JobIds(h.jobs[..3])[k] != h.jobs[3].jobId { assert !SameJobId(h, k, 3); }
  }

  /** Parts 0, 1, 0, 1 in four runs, of which the first three are asked about: the second
      is added. */
  lemma SecondPartIsStale(h: History, cat: Catalog, rows: seq<JobRow>, own: seq<JobRow>)
    requires Lists(h, 3, rows, own) && Numbered(h, cat, 3, FILE, own) && AsksForOwn(h, 3, rows, own)
    requires |h.jobs| == 4 && h.jobs[3].jobId !in AskedIds(rows)
    requires OwnVersions(h, cat, 3, FILE, own) == PartsOf(h, [0, 1, 0, 1])
    ensures PartAt(h, 1, 1) in MissingDelta(cat, JobIds(rows), FILE)
  {
    var vs := PartsOf(h, [0, 1, 0, 1]);
    assert vs[..3][1] == PartAt(h, 1, 1) && HasPart(vs[..3], 1);
    StalePartCondition(h, cat, 3, FILE, rows, own);
    var f :| f in MissingDelta(cat, JobIds(rows), FILE) && f.deltaSeq == 1 && f in vs[..3];
    OnlySecondHasPart1(h, f);
  }

  lemma OnlySecondHasPart1(h: History, f: FileRow)
    requires |h.jobs| == 4 && f in PartsOf(h, [0, 1, 0, 1])[..3] && f.deltaSeq == 1
    ensures f == PartAt(h, 1, 1)
  {
    var vs := PartsOf(h, [0, 1, 0, 1]);
    var i :| 0 <= i < 3 && vs[..3][i] == f;
    assert i == 1;
  }

  lemma FourPartsNumbered(h: History, cat: Catalog)
    requires Sequential(h) && |h.jobs| == 4 && cat == PartsCatalog(h, [0, 1, 0, 1])
    ensures Numbered(h, cat, 3, FILE, h.jobs[..3])
    ensures OwnVersions(h, cat, 3, FILE, h.jobs[..3]) == PartsOf(h, [0, 1, 0, 1])
  {
    PartsNumbered(h, [0, 1, 0, 1], 3);
  }

  /** Part 1 of the last job is selected; part 1 of the second job is added to the list. */
  lemma StalePartIsAdded(h: History, cat: Catalog, rows: seq<JobRow>, own: seq<JobRow>)
    requires h == FourVersions() && rows == h.jobs[..4] && own == h.jobs[..3]
    requires Sequential(h) && cat == PartsCatalog(h, [0, 1, 0, 1])
    ensures Lists(h, 3, rows, own) && Numbered(h, cat, 3, FILE, own) && AsksForOwn(h, 3, rows, own)
    ensures PartAt(h, 1, 1) in MissingDelta(cat, JobIds(rows), FILE)
  {
    FourVersionsLists(h);
    FirstThreeAsked(h, rows);
    FourPartsNumbered(h, cat);
    SecondPartIsStale(h, cat, rows, own);
  }
}
