/** Two small histories that the conditions of RestoreHistory shut out. */
module RestoreCases {
  import opened CatalogTables
  import opened RecentVersions
  import opened AccurateJobs
  import opened JobHistories
  import opened JobReferences
  import opened RestoreHistory

  function Backup(id: JobId, fileSetId: nat, level: Level, start: int, end: int): JobRow {
    JobRow(id, "job", 5, fileSetId, level, 'T', 'B', start, end, end)
  }

  lemma SameFileSystem(cat: Catalog, ids: set<JobId>, a: FileSystem, b: FileSystem)
    requires IsListed(cat, ids, a) && IsListed(cat, ids, b)
    ensures a == b
  {
  }

  // ---------------------------------------------------------- the same second

  /** An Incremental that starts in the second in which the Full ended. */
  function SameSecond(): History {
    History([Backup(1, 1, Full, 0, 10), Backup(2, 1, Incremental, 10, 20)], map[1 := "set"], "", 5, 1)
  }

  lemma SameSecondFacts()
    ensures var h := SameSecond();
            && Sequential(h) && Good(h, 0) && Good(h, 1)
            && LastSeen(h, 0) == 0 && LastSeen(h, 1) == 1 && Picked(h, 0) == {0} && Picked(h, 1) == {0}
  {
  }

  /** The list as of the Incremental is the Full alone: a restore as of the Incremental is
      right only if nothing had changed. */
  lemma SameSecondIsDropped(w: Story)
    requires IsWholeStory(SameSecond(), [-1, 0], w)
    ensures var h := SameSecond();
            && Sequential(h) && Good(h, 1)
            && (forall chain :: IsChain(WholeTable(h), AsOf(h, 1), chain) <==> chain == {h.jobs[0]})
            && (Restored(h, w, 1) <==> w.fs[1] == w.fs[0])
  {
    var h := SameSecond();
    SameSecondFacts();
    assert JobsAt(h, {0}) == {h.jobs[0]};
    WholeTableSees(h, 1);
    forall chain ensures IsChain(WholeTable(h), AsOf(h, 1), chain) <==> chain == {h.jobs[0]} {
      ChainIsPicked(h, WholeTable(h), AsOf(h, 1), 1, chain);
    }
    AncestorsRestore(h, [-1, 0], w, 0);
    RestoredIs(h, w, 0);
    RestoredIs(h, w, 1);
    if Restored(h, w, 1) { SameFileSystem(w.cat, IdsAt(h, {0}), w.fs[0], w.fs[1]); }
  }

  /** A file that the Incremental found is not restored. */
  lemma SameSecondLosesFile()
    ensures var h := SameSecond();
            Sequential(h) && var w := CreatedAt(h, [-1, 0], 1);
            IsWholeStory(h, [-1, 0], w) && FILE in w.fs[1] && !Restored(h, w, 1)
  {
    var h := SameSecond();
    SameSecondFacts();
    assert Competes(h, 1, 0);
    RefersToIs(h, 1, 0);
    CreatedAtIsStory(h, [-1, 0], 1);
    SameSecondIsDropped(CreatedAt(h, [-1, 0], 1));
  }

  // ---------------------------------------------- two FileSetIds of one FileSet

  /** Fulls under two FileSetIds of one name, and an Incremental under the first. */
  function TwoFileSets(): History {
    History([Backup(1, 1, Full, 0, 10), Backup(2, 2, Full, 20, 30), Backup(3, 1, Incremental, 40, 50)],
            map[1 := "set", 2 := "set"], "", 5, 1)
  }

  lemma TwoFileSetsFacts()
    ensures var h := TwoFileSets();
            && Sequential(h) && Good(h, 0) && Good(h, 1) && Good(h, 2)
            && LastSeen(h, 1) == 1 && LastSeen(h, 2) == 2 && Picked(h, 1) == {1} && Picked(h, 2) == {1, 2}
            && forall r :: RefersTo(h, 2, r) <==> r == 0
  {
    var h := TwoFileSets();
    assert FullAt(h, 1) == 1 && FullAt(h, 2) == 1;
    assert At(h, 1, Full, None) && !At(h, 2, Full, None) && At(h, 2, Incremental, Some(30));
    assert !At(h, 0, Differential, Some(30)) && !At(h, 1, Differential, Some(30)) && !At(h, 2, Differential, Some(30));
    assert AnchorAt(h, 1) == 1 && AnchorAt(h, 2) == 1;
    assert IncrementalsAt(h, 1) == {} && IncrementalsAt(h, 2) == {2};
    assert Competes(h, 2, 0) && !Competes(h, 2, 1);
    forall r ensures RefersTo(h, 2, r) <==> r == 0 { RefersToIs(h, 2, r); }
  }

  /** The Incremental is recorded since the first Full and restored on top of the second:
      if it saw what the first Full saw, the restore gives what the second Full saw. */
  lemma OtherFileSetIdIsMixedIn(w: Story)
    requires IsWholeStory(TwoFileSets(), [-1, -1, 0], w) && w.fs[2] == w.fs[0]
    ensures var h := TwoFileSets();
            && Sequential(h) && Good(h, 2) && (forall r :: RefersTo(h, 2, r) <==> r == 0)
            && IsListed(w.cat, IdsAt(h, Picked(h, LastSeen(h, 2))), w.fs[1])
            && (Restored(h, w, 2) <==> w.fs[1] == w.fs[0])
  {
    var h := TwoFileSets();
    TwoFileSetsFacts();
    forall key ensures Tells(w.cat, IdsAt(h, {1} + {2}), w.fs[1], key) {
      AncestorsTell(h, [-1, -1, 0], w, 1, key);
      NothingRecorded(w.cat, 3, w.fs[0], w.fs[1]);
      NextRunTells(h, w.cat, {1}, 2, w.fs[1], w.fs[1], key);
    }
    assert {1} + {2} == {1, 2};
    FitsUnambiguous(h, w.cat, {1, 2});
    TellsIsListed(w.cat, IdsAt(h, {1, 2}), w.fs[1]);
    RestoredIs(h, w, 2);
    if Restored(h, w, 2) { SameFileSystem(w.cat, IdsAt(h, {1, 2}), w.fs[1], w.fs[2]); }
  }

  lemma SeenByTheFulls(h: History, since: seq<int>)
    requires Sequential(h) && |h.jobs| == 3 && since == [-1, -1, 0]
    requires h.jobs[0].level == Full && h.jobs[1].level == Full && h.jobs[2].level == Incremental
    ensures CreatedAt(h, since, 1).fs == [OneFile(false), OneFile(true), OneFile(false)]
  {
  }

  lemma ReferToFirst(h: History, since: seq<int>)
    requires |h.jobs| == 3 && since == [-1, -1, 0] && RefersTo(h, 2, 0)
    requires h.jobs[0].level == Full && h.jobs[1].level == Full
    ensures Refer(h, since, 3)
  {
  }

  /** A file that only the second Full saw comes back. */
  lemma OtherFileSetIdBringsFileBack(h: History, since: seq<int>)
    requires h == TwoFileSets() && since == [-1, -1, 0]
    ensures Sequential(h) && var w := CreatedAt(h, since, 1);
            IsWholeStory(h, since, w) && FILE !in w.fs[2] && !Restored(h, w, 2)
  {
    TwoFileSetsFacts();
    SeenByTheFulls(h, since);
    ReferToFirst(h, since);
    CreatedAtIsStory(h, since, 1);
    OtherFileSetIdIsMixedIn(CreatedAt(h, since, 1));
  }

  /** A job that recorded no difference recorded none to anything else either. */
  lemma NothingRecorded(cat: Catalog, job: JobId, fs: FileSystem, other: FileSystem)
    requires RecordsChanges(cat, job, fs, fs)
    ensures RecordsChanges(cat, job, other, other)
  {
    forall key ensures !HasRow(cat, {job}, key) { assert Lookup(fs, key) == Lookup(fs, key); }
    forall f ensures f !in RowsOf(cat, {job}) { assert f in RowsOf(cat, {job}) ==> HasRow(cat, {job}, KeyOf(f)); }
  }

  // ------------------------------------------------- two names, asked by no name

  /** Fulls of two jobs and an Incremental of the first; the request gives no name. */
  function TwoNames(): History {
    History([Backup(1, 1, Full, 0, 10).(name := "a"), Backup(2, 1, Full, 20, 30).(name := "b"),
             Backup(3, 1, Incremental, 40, 50).(name := "a")],
            map[1 := "set"], "", 5, 1)
  }

  lemma TwoNamesPicked()
    ensures var h := TwoNames();
            && Sequential(h) && Good(h, 0) && Good(h, 1) && Good(h, 2)
            && LastSeen(h, 2) == 2 && Picked(h, 2) == {1, 2} && JoinsList(h, 2) && NothingOnTop(h, 2)
  {
    var h := TwoNames();
    assert FullAt(h, 1) == 1 && FullAt(h, 2) == 1;
    assert At(h, 1, Full, None) && !At(h, 2, Full, None) && At(h, 2, Incremental, Some(30));
    assert AnchorAt(h, 1) == 1 && AnchorAt(h, 2) == 1;
    assert IncrementalsAt(h, 2) == {2};
  }

  lemma TwoNamesOwn()
    ensures Good(TwoNames(), 2) && OwnList(TwoNames(), 2) == {0}
  {
    var o := OwnView(TwoNames(), 2);
    assert Good(o, 0) && !Good(o, 1);
    assert FullAt(o, 1) == 0 by { assert At(o, 0, Full, None); }
    assert AnchorAt(o, 1) == 0 && IncrementalsAt(o, 1) == {};
  }

  lemma ForeignRunAccurate(h: History, own: set<int>)
    requires Sequential(h) && |h.jobs| == 3 && Good(h, 2) && OwnList(h, 2) == own == {0}
    ensures IsAccurateStory(h, OneRowStory(h, 2, 1), 2)
  {
    assert 0 in own;
    OneRowIsAccurate(h, 2, 1);
  }

  lemma ForeignRunNotRestored(h: History, own: set<int>)
    requires Sequential(h) && |h.jobs| == 3 && Good(h, 2) && OwnList(h, 2) == own == {0}
    requires LastSeen(h, 2) == 2 && Picked(h, 2) == {1, 2}
    ensures FILE !in OneRowStory(h, 2, 1).fs[2] && !Restored(h, OneRowStory(h, 2, 1), 2)
  {
    assert 1 !in own + {2};
    OneRowNotRestored(h, 2, 1);
  }

  /** The Incremental compared with the first Full alone; a file that only the Full of the
      other job saw comes back, although the Incremental joins the list. */
  lemma OtherNameBringsFileBack(h: History)
    requires h == TwoNames()
    ensures Sequential(h) && Good(h, 2) && JoinsList(h, 2) && NothingOnTop(h, 2)
    ensures var w := OneRowStory(h, 2, 1);
            IsAccurateStory(h, w, 2) && FILE !in w.fs[2] && !Restored(h, w, 2)
  {
    TwoNamesPicked();
    TwoNamesOwn();
    ForeignRunAccurate(h, {0});
    ForeignRunNotRestored(h, {0});
  }

  // ------------------------------------------------------ two runs in one second

  /** An Incremental that took no time, and another in the same second. */
  function OneSecond(): History {
    History([Backup(1, 1, Full, 0, 10), Backup(2, 1, Incremental, 20, 20).(tdate := 20),
             Backup(3, 1, Incremental, 20, 30)],
            map[1 := "set"], "", 5, 1)
  }

  lemma OneSecondPicked(h: History)
    requires h == OneSecond()
    ensures Sequential(h) && Good(h, 1) && Good(h, 2) && LastSeen(h, 1) == 2 && Picked(h, 2) == {0, 1, 2}
  {
    assert FullAt(h, 2) == 0 by { assert At(h, 0, Full, None); }
    assert AnchorAt(h, 2) == 0;
    assert At(h, 1, Incremental, Some(10)) && At(h, 2, Incremental, Some(10));
  }

  /** A restore as of the first of them holds a file that only the second saw. */
  lemma NextRunOfTheSecondIsMixedIn(h: History)
    requires h == OneSecond()
    ensures Sequential(h) && Good(h, 1) && JoinsList(h, 1) && !NothingOnTop(h, 1)
    ensures var w := OneRowStory(h, 1, 2);
            IsAccurateStory(h, w, 1) && FILE !in w.fs[1] && !Restored(h, w, 1)
  {
    OneSecondPicked(h);
    OneSecondJoins(h);
    OneRowIsAccurate(h, 1, 2);
    OneRowNotRestored(h, 1, 2);
  }

  lemma OneSecondJoins(h: History)
    requires h == OneSecond()
    ensures Good(h, 1) && JoinsList(h, 1) && OwnList(h, 1) == {0}
  {
    var o := OwnView(h, 1);
    assert FullAt(h, 0) == 0 by { assert At(h, 0, Full, None); }
    assert FullAt(o, 0) == 0 by { assert At(o, 0, Full, None); }
    assert AnchorAt(h, 0) == 0 && AnchorAt(o, 0) == 0 && IncrementalsAt(o, 0) == {};
  }
}
