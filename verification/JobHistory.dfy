/**
 A history of backup runs, and what the two selections of jobs make of it, by position:
 the accurate list of bdb_get_accurate_jobids and the reference job of
 bdb_find_job_start_time.
 */
module JobHistories {
  import opened CatalogTables
  import opened AccurateJobs

  /** All runs of the catalog in order, and the client, the FileSet and (unless empty)
      the job name that a request gives. */
  datatype History = History(jobs: seq<JobRow>, fileSets: map<nat, string>,
                             name: string, clientId: nat, fileSetId: nat)

  ghost function TableUpTo(h: History, n: nat): JobTable
    requires n <= |h.jobs|
  {
    JobTable(set i | 0 <= i < n :: h.jobs[i], h.fileSets)
  }

  ghost function WholeTable(h: History): JobTable {
    TableUpTo(h, |h.jobs|)
  }

  /** The request "as of run n". */
  function AsOf(h: History, n: nat): Request
    requires n < |h.jobs|
  {
    Request(h.name, h.clientId, h.fileSetId, Incremental, h.jobs[n].start)
  }

  /** The record a run asks with when it starts: its own name, FileSet and level. */
  function SearchOf(h: History, i: nat): Request
    requires i < |h.jobs|
  {
    var j := h.jobs[i];
    Request(j.name, j.clientId, j.fileSetId, j.level, j.start)
  }

  /** Run i is a good backup of the client, FileSet and name under study. */
  ghost predicate Good(h: History, i: int) {
    && 0 <= i < |h.jobs|
    && var j := h.jobs[i];
       && GoodBackup(j) && j.clientId == h.clientId
       && j.level in {Full, Differential, Incremental}
       && SameFileSet(h.fileSets, j.fileSetId, h.fileSetId)
       && (h.name != "" ==> j.name == h.name)
  }

  ghost predicate GoodInOrder(h: History, i: int, k: int) {
    Good(h, i) && Good(h, k) && i < k
  }

  ghost predicate SameJobId(h: History, i: int, k: int) {
    0 <= i < |h.jobs| && 0 <= k < |h.jobs| && h.jobs[i].jobId == h.jobs[k].jobId
  }

  /** Times are whole seconds: a run may start in the second an earlier one ended. */
  ghost predicate Precedes(a: JobRow, b: JobRow) {
    a.end <= b.start && a.tdate < b.tdate
  }

  /** Keys are unique and not 0; good runs do not overlap and are dated in order.  Other
      runs are free. */
  ghost predicate Sequential(h: History) {
    && 0 !in h.fileSets
    && (forall i, k :: SameJobId(h, i, k) ==> i == k)
    && (forall i {:trigger Good(h, i)} :: Good(h, i) ==> h.jobs[i].start <= h.jobs[i].end)
    && (forall i, k :: GoodInOrder(h, i, k) ==> Precedes(h.jobs[i], h.jobs[k]))
  }

  lemma InOrder(h: History, i: int, k: int)
    requires Sequential(h) && GoodInOrder(h, i, k)
    ensures h.jobs[i].start <= h.jobs[i].end <= h.jobs[k].start <= h.jobs[k].end
    ensures h.jobs[i].tdate < h.jobs[k].tdate
  {
  }

  /** "Started after i ended" implies "comes after i". */
  lemma StartedAfterIsLater(h: History, i: int, k: int)
    requires Sequential(h) && Good(h, i) && Good(h, k) && h.jobs[k].start > h.jobs[i].end
    ensures k > i
  {
  }

  // ------------------------------------------------ what the queries select

  /** Run i is good, of the level, and started after the given time if there is one. */
  ghost predicate At(h: History, i: int, level: Level, after: Option<int>) {
    Good(h, i) && h.jobs[i].level == level && (after.Some? ==> h.jobs[i].start > after.value)
  }

  /** The last such run up to k, or -1. */
  ghost function Last(h: History, k: int, level: Level, after: Option<int>): (r: int)
    requires k < |h.jobs|
    ensures -1 <= r && (k < 0 ==> r == -1) && (k >= 0 ==> r <= k)
    ensures r >= 0 ==> At(h, r, level, after)
    ensures forall i :: r < i <= k ==> !At(h, i, level, after)
    decreases k
  {
    if k < 0 then -1
    else if At(h, k, level, after) then k
    else Last(h, k - 1, level, after)
  }

  ghost function RunsAt(h: History, k: int, level: Level, after: Option<int>): set<int>
    requires k < |h.jobs|
  {
    set i | 0 <= i <= k && At(h, i, level, after)
  }

  ghost function FullAt(h: History, k: int): int
    requires k < |h.jobs|
  {
    Last(h, k, Full, None)
  }

  /** The Differential the second query selects, or else the Full. */
  ghost function AnchorAt(h: History, k: int): (a: int)
    requires k < |h.jobs| && FullAt(h, k) >= 0
    ensures 0 <= a <= k && Good(h, a)
  {
    var d := Last(h, k, Differential, Some(h.jobs[FullAt(h, k)].end));
    if d >= 0 then d else FullAt(h, k)
  }

  ghost function IncrementalsAt(h: History, k: int): set<int>
    requires k < |h.jobs| && FullAt(h, k) >= 0
  {
    RunsAt(h, k, Incremental, Some(h.jobs[AnchorAt(h, k)].end))
  }

  /** The accurate list among the runs up to k. */
  ghost function Picked(h: History, k: int): (s: set<int>)
    requires k < |h.jobs|
    ensures forall i :: i in s ==> 0 <= i <= k && Good(h, i)
  {
    if FullAt(h, k) < 0 then {} else {FullAt(h, k), AnchorAt(h, k)} + IncrementalsAt(h, k)
  }

  ghost function JobsAt(h: History, s: set<int>): set<JobRow> {
    set i | i in s && 0 <= i < |h.jobs| :: h.jobs[i]
  }

  lemma JobsAtUnion(h: History, a: set<int>, b: set<int>)
    ensures JobsAt(h, a + b) == JobsAt(h, a) + JobsAt(h, b)
  {
  }

  lemma JobsAtPair(h: History, i: nat, k: nat)
    requires i < |h.jobs| && k < |h.jobs|
    ensures JobsAt(h, {i, k}) == {h.jobs[i], h.jobs[k]}
  {
  }

  /** The queries on `tbl` accept exactly the good runs up to k. */
  ghost predicate Sees(h: History, tbl: JobTable, req: Request, k: int) {
    k < |h.jobs| && forall level, j :: level in {Full, Differential, Incremental} ==>
      (Eligible(tbl, req, level, j) <==> IsRunUpTo(h, k, level, j))
  }

  ghost predicate IsRunUpTo(h: History, k: int, level: Level, j: JobRow) {
    exists i :: i <= k && At(h, i, level, None) && j == h.jobs[i]
  }

  lemma QueriesArePositions(h: History, tbl: JobTable, req: Request, k: int, level: Level, t: int)
    requires Sees(h, tbl, req, k) && level in {Full, Differential, Incremental}
    ensures AnyTime(tbl, req, level) == JobsAt(h, RunsAt(h, k, level, None))
    ensures After(tbl, req, level, t) == JobsAt(h, RunsAt(h, k, level, Some(t)))
  {
    forall j ensures j in AnyTime(tbl, req, level) <==> j in JobsAt(h, RunsAt(h, k, level, None)) {
      assert Eligible(tbl, req, level, j) <==> IsRunUpTo(h, k, level, j);
    }
    forall j ensures j in After(tbl, req, level, t) <==> j in JobsAt(h, RunsAt(h, k, level, Some(t))) {
      assert Eligible(tbl, req, level, j) <==> IsRunUpTo(h, k, level, j);
    }
  }

  lemma LatestIsLast(h: History, k: int, level: Level, after: Option<int>)
    requires Sequential(h) && k < |h.jobs|
    ensures var l, s := Last(h, k, level, after), JobsAt(h, RunsAt(h, k, level, after));
            if l < 0 then s == {} else h.jobs[l] in s && forall j :: IsLatest(s, j) <==> j == h.jobs[l]
  {
  }

  /** From the chosen Full on. */
  lemma ChainFromIsPicked(h: History, tbl: JobTable, req: Request, k: int, s: set<JobRow>)
    requires Sequential(h) && Sees(h, tbl, req, k) && FullAt(h, k) >= 0 && req.level == Incremental
    ensures IsChainFrom(tbl, req, h.jobs[FullAt(h, k)], s) <==> s == JobsAt(h, Picked(h, k))
  {
    var fi, ai := FullAt(h, k), AnchorAt(h, k);
    var f, a := h.jobs[fi], h.jobs[ai];
    QueriesArePositions(h, tbl, req, k, Differential, f.end);
    LatestIsLast(h, k, Differential, Some(f.end));
    QueriesArePositions(h, tbl, req, k, Incremental, a.end);
    JobsAtUnion(h, {fi, ai}, IncrementalsAt(h, k));
    JobsAtPair(h, fi, ai);
    if fi == ai {
      assert {f, f} == {f};
    } else {
      assert Later(f.end, a.end) == a.end;
    }
  }

  /** The accurate list is the list of picked positions; for a Differential it is the
      last Full. */
  lemma ChainIsPicked(h: History, tbl: JobTable, req: Request, k: int, s: set<JobRow>)
    requires Sequential(h) && Sees(h, tbl, req, k)
    ensures req.level == Incremental ==> (IsChain(tbl, req, s) <==> s == JobsAt(h, Picked(h, k)))
    ensures req.level == Differential ==>
              (IsChain(tbl, req, s) <==> s == JobsAt(h, if FullAt(h, k) < 0 then {} else {FullAt(h, k)}))
  {
    var fi := FullAt(h, k);
    QueriesArePositions(h, tbl, req, k, Full, 0);
    LatestIsLast(h, k, Full, None);
    if fi < 0 {
      assert JobsAt(h, {}) == {};
    } else {
      if req.level == Incremental { ChainFromIsPicked(h, tbl, req, k, s); }
      JobsAtPair(h, fi, fi);
      assert {fi, fi} == {fi};
      assert IsLatest(AnyTime(tbl, req, Full), h.jobs[fi]);
    }
  }

  // ------------------------------------------------------- which runs are seen

  /** The last good run that started no later than run n: run n itself, unless others
      started in the same second. */
  ghost function LastSeen(h: History, n: int): (k: int)
    requires Good(h, n)
    ensures n <= k < |h.jobs| && Good(h, k) && h.jobs[k].start <= h.jobs[n].start
    ensures forall i :: i > k && Good(h, i) ==> h.jobs[i].start > h.jobs[n].start
  {
    LastSeenFrom(h, n, |h.jobs| - 1)
  }

  ghost function LastSeenFrom(h: History, n: int, k: int): (r: int)
    requires Good(h, n) && n <= k < |h.jobs|
    ensures n <= r <= k && Good(h, r) && h.jobs[r].start <= h.jobs[n].start
    ensures forall i :: r < i <= k && Good(h, i) ==> h.jobs[i].start > h.jobs[n].start
    decreases k
  {
    if Good(h, k) && h.jobs[k].start <= h.jobs[n].start then k else LastSeenFrom(h, n, k - 1)
  }

  lemma StartsNoLater(h: History, i: int, k: int)
    requires Sequential(h) && Good(h, i) && Good(h, k) && i <= k
    ensures h.jobs[i].start <= h.jobs[k].start
  {
  }

  /** As of run n the whole table shows the runs up to the last that started no later. */
  lemma WholeTableSees(h: History, n: nat)
    requires Sequential(h) && Good(h, n)
    ensures Sees(h, WholeTable(h), AsOf(h, n), LastSeen(h, n))
  {
  }

  /** The table when run n started shows the runs before it. */
  lemma TableBeforeSees(h: History, n: nat, level: Level)
    requires Sequential(h) && Good(h, n)
    ensures Sees(h, TableUpTo(h, n), AsOf(h, n).(level := level), n - 1)
  {
  }

  // ----------------------------------------------------- the list as of run n

  function Rank(level: Level): nat {
    match level
    case Full => 0
    case Differential => 1
    case _ => 2
  }

  /** A run that comes after run n and starts in the same second is of a lower kind. */
  ghost predicate NothingOnTop(h: History, n: int)
    requires 0 <= n < |h.jobs|
  {
    forall m {:trigger Good(h, m)} :: Good(h, m) && m > n && h.jobs[m].start <= h.jobs[n].start ==>
      Rank(h.jobs[m].level) > Rank(h.jobs[n].level)
  }

  /** If nothing on the list comes after run n, the later runs made no difference. */
  lemma NothingLaterPicked(h: History, n: int, k: int)
    requires Sequential(h) && 0 <= n <= k < |h.jobs| && Picked(h, k) != {} && forall i :: i in Picked(h, k) ==> i <= n
    ensures Picked(h, n) == Picked(h, k)
  {
    assert FullAt(h, k) in Picked(h, k) && AnchorAt(h, k) in Picked(h, k);
    assert FullAt(h, n) == FullAt(h, k);
    assert AnchorAt(h, n) == AnchorAt(h, k);
    assert IncrementalsAt(h, k) <= Picked(h, k);
    assert IncrementalsAt(h, n) == IncrementalsAt(h, k);
  }

  lemma NothingOnTopIsSeen(h: History, n: int)
    requires Sequential(h) && Good(h, n) && FullAt(h, n) >= 0 && NothingOnTop(h, n)
    ensures Picked(h, LastSeen(h, n)) == Picked(h, n)
  {
    var k := LastSeen(h, n);
    forall m | n < m <= k && Good(h, m) ensures m !in Picked(h, k) {
      NothingOnTopNotPicked(h, n, m);
    }
    assert FullAt(h, k) >= 0;
    assert FullAt(h, k) in Picked(h, k);
    NothingLaterPicked(h, n, k);
  }

  lemma NothingOnTopNotPicked(h: History, n: int, m: int)
    requires Sequential(h) && Good(h, n) && FullAt(h, n) >= 0 && NothingOnTop(h, n)
    requires n < m <= LastSeen(h, n) && Good(h, m)
    ensures m !in Picked(h, LastSeen(h, n))
  {
    var k := LastSeen(h, n);
    StartsNoLater(h, m, k);
    forall i | n < i <= k && Good(h, i) ensures h.jobs[i].start <= h.jobs[n].start && h.jobs[i].level != Full {
      StartsNoLater(h, i, k);
    }
    var f, a := FullAt(h, n), AnchorAt(h, k);
    assert FullAt(h, k) == f;
    assert h.jobs[a].end >= h.jobs[f].end;
    if h.jobs[n].level == Full {
      assert f == n;
    } else if h.jobs[n].start > h.jobs[f].end {
      assert At(h, n, Differential, Some(h.jobs[f].end)) && a >= n;
      StartsNoLater(h, n, a);
    }
  }

  /** A run of run n's rank or above that is seen on top of it pushes it off the list, or
      joins it there. */
  lemma OnTopIsPicked(h: History, n: int, m: int)
    requires Sequential(h) && Good(h, n) && n in Picked(h, LastSeen(h, n))
    requires Good(h, m) && m > n && h.jobs[m].start <= h.jobs[n].start
    requires Rank(h.jobs[m].level) <= Rank(h.jobs[n].level)
    ensures exists i :: i in Picked(h, LastSeen(h, n)) && i > n
  {
    var k := LastSeen(h, n);
    var f, a := FullAt(h, k), AnchorAt(h, k);
    InOrder(h, n, m);
    assert f in Picked(h, k) && a in Picked(h, k);
    if f <= n && a <= n {
      assert m <= k && !At(h, m, Full, None);
      assert h.jobs[a].end >= h.jobs[f].end;
      assert h.jobs[n].level != Full && n != f;
      assert h.jobs[n].start > h.jobs[f].end;
      assert !At(h, m, Differential, Some(h.jobs[f].end));
      assert m in IncrementalsAt(h, k);
      assert m in Picked(h, k);
    }
  }

  /** The request as of run n lists the runs s, of which run n is the last, exactly when
      the runs up to n make that list and nothing is on top of run n. */
  lemma SeenExact(h: History, n: int, s: set<int>)
    requires Sequential(h) && Good(h, n) && n in s && forall i :: i in s ==> i <= n
    ensures Picked(h, LastSeen(h, n)) == s <==> Picked(h, n) == s && NothingOnTop(h, n)
  {
    if Picked(h, LastSeen(h, n)) == s {
      NothingLaterPicked(h, n, LastSeen(h, n));
      forall m | Good(h, m) && m > n && h.jobs[m].start <= h.jobs[n].start
        ensures Rank(h.jobs[m].level) > Rank(h.jobs[n].level)
      {
        if Rank(h.jobs[m].level) <= Rank(h.jobs[n].level) { OnTopIsPicked(h, n, m); }
      }
    }
    if Picked(h, n) == s && NothingOnTop(h, n) {
      NothingOnTopIsSeen(h, n);
    }
  }

  // --------------------------------------- the list the documentation promises

  /** The last Differential after the last Full, or else that Full, by position. */
  ghost function PlainAnchor(h: History, n: int): (a: int)
    requires n < |h.jobs| && FullAt(h, n) >= 0
    ensures FullAt(h, n) <= a <= n && Good(h, a)
  {
    var f, d := FullAt(h, n), Last(h, n, Differential, None);
    if d > f then d else f
  }

  ghost function IncrementalsAfter(h: History, a: int, n: int): set<int>
    requires n < |h.jobs|
  {
    set i | a < i <= n && At(h, i, Incremental, None)
  }

  /** The last Full, the last Differential after it, and all Incrementals after these. */
  ghost function Promised(h: History, n: int): set<int>
    requires n < |h.jobs| && FullAt(h, n) >= 0
  {
    {FullAt(h, n), PlainAnchor(h, n)} + IncrementalsAfter(h, PlainAnchor(h, n), n)
  }

  /** The Differential does not start in the second in which the Full ended, nor an
      Incremental in that in which the run before all Incrementals ended. */
  ghost predicate Spaced(h: History, n: int)
    requires n < |h.jobs| && FullAt(h, n) >= 0
  {
    var f, a := FullAt(h, n), PlainAnchor(h, n);
    && (a != f ==> h.jobs[a].start > h.jobs[f].end)
    && (forall i :: i in IncrementalsAfter(h, a, n) ==> h.jobs[i].start > h.jobs[a].end)
  }

  lemma PickedIsPromised(h: History, n: int)
    requires Sequential(h) && n < |h.jobs| && FullAt(h, n) >= 0
    ensures Picked(h, n) == Promised(h, n) <==> Spaced(h, n)
  {
    var f, a, a' := FullAt(h, n), PlainAnchor(h, n), AnchorAt(h, n);
    if Spaced(h, n) {
      var d := Last(h, n, Differential, Some(h.jobs[f].end));
      assert a != f ==> At(h, a, Differential, Some(h.jobs[f].end));
      if d >= 0 {
        StartedAfterIsLater(h, f, d);
        assert At(h, d, Differential, None);
      }
      assert a' == a;
      forall i | i in IncrementalsAt(h, n) ensures i > a { StartedAfterIsLater(h, a, i); }
      assert IncrementalsAt(h, n) == IncrementalsAfter(h, a, n);
    }
    if Picked(h, n) == Promised(h, n) {
      assert a in Picked(h, n) && a' in Promised(h, n);
      assert a == a';
      forall i | i in IncrementalsAfter(h, a, n) ensures h.jobs[i].start > h.jobs[a].end {
        assert i in Promised(h, n) && i in Picked(h, n);
      }
    }
  }

  // ------------------------------------------------- the list when run n started

  /** The accurate list of run n's level under the request's name, among the runs before. */
  ghost function ListBefore(h: History, n: int): (s: set<int>)
    requires Good(h, n)
    ensures forall i :: i in s ==> 0 <= i < n && Good(h, i)
  {
    match h.jobs[n].level
    case Incremental => Picked(h, n - 1)
    case Differential => if FullAt(h, n - 1) < 0 then {} else {FullAt(h, n - 1)}
    case _ => {}
  }

  /** Run n starts after the last run it is added to had ended. */
  ghost predicate JoinsList(h: History, n: int)
    requires Good(h, n)
  {
    match h.jobs[n].level
    case Incremental => FullAt(h, n - 1) >= 0 && h.jobs[n].start > h.jobs[AnchorAt(h, n - 1)].end
    case Differential => FullAt(h, n - 1) >= 0 && h.jobs[n].start > h.jobs[FullAt(h, n - 1)].end
    case _ => true
  }

  lemma JoinsListExact(h: History, n: int)
    requires Sequential(h) && Good(h, n)
    ensures Picked(h, n) == ListBefore(h, n) + {n} <==> JoinsList(h, n)
    ensures n in Picked(h, n) <==> JoinsList(h, n)
  {
    match h.jobs[n].level
    case Full =>
      assert FullAt(h, n) == n;
      assert AnchorAt(h, n) == n;
      assert IncrementalsAt(h, n) == {};
    case Differential =>
      assert FullAt(h, n) == FullAt(h, n - 1);
      if JoinsList(h, n) {
        assert AnchorAt(h, n) == n;
        assert IncrementalsAt(h, n) == {};
      }
    case Incremental =>
      assert FullAt(h, n) == FullAt(h, n - 1);
      if FullAt(h, n) >= 0 {
        assert AnchorAt(h, n) == AnchorAt(h, n - 1);
        if JoinsList(h, n) {
          assert IncrementalsAt(h, n) == IncrementalsAt(h, n - 1) + {n};
        }
      }
  }

  // --------------------------------------------- the list under the run's own name

  /** The history as run n itself asks for it. */
  function OwnView(h: History, n: nat): History
    requires n < |h.jobs|
  {
    h.(name := h.jobs[n].name, fileSetId := h.jobs[n].fileSetId)
  }

  lemma OwnViewIs(h: History, n: int)
    requires Sequential(h) && Good(h, n)
    ensures var o := OwnView(h, n);
            && Sequential(o) && Good(o, n)
            && (forall i :: Good(o, i) <==> Good(h, i) && (o.name != "" ==> h.jobs[i].name == o.name))
            && AsOf(o, n).(level := h.jobs[n].level) == SearchOf(h, n) && TableUpTo(o, n) == TableUpTo(h, n)
  {
    var o := OwnView(h, n);
    assert forall i, k :: GoodInOrder(o, i, k) ==> GoodInOrder(h, i, k);
    assert forall i, k :: SameJobId(o, i, k) ==> SameJobId(h, i, k);
  }

  /** The accurate list that run n compares with. */
  ghost function OwnList(h: History, n: int): (s: set<int>)
    requires Good(h, n)
    ensures forall i :: i in s ==> 0 <= i < n && Good(h, i)
  {
    ListBefore(OwnView(h, n), n)
  }

  lemma OwnListIsChain(h: History, n: int, chain: set<JobRow>)
    requires Sequential(h) && Good(h, n) && h.jobs[n].level != Full
    ensures IsChain(TableUpTo(h, n), SearchOf(h, n), chain) <==> chain == JobsAt(h, OwnList(h, n))
  {
    var o, level := OwnView(h, n), h.jobs[n].level;
    OwnViewIs(h, n);
    TableBeforeSees(o, n, level);
    ChainIsPicked(o, TableUpTo(o, n), AsOf(o, n).(level := level), n - 1, chain);
  }

  /** The list before run n, as the request of the history gives it, holds only runs of
      run n's name; a run without a name asks for any. */
  ghost predicate OneName(h: History, n: int)
    requires Good(h, n)
  {
    h.jobs[n].name == "" || forall i :: i in ListBefore(h, n) ==> h.jobs[i].name == h.jobs[n].name
  }

  lemma OwnListExact(h: History, n: int)
    requires Sequential(h) && Good(h, n)
    ensures ListBefore(h, n) == OwnList(h, n) <==> OneName(h, n)
  {
    var o := OwnView(h, n);
    OwnViewIs(h, n);
    if OneName(h, n) && h.jobs[n].level != Full {
      var f := FullAt(h, n - 1);
      assert f >= 0 ==> f in ListBefore(h, n);
      SameLast(h, o, n - 1, Full, None);
      if f >= 0 && h.jobs[n].level == Incremental { SamePicked(h, o, n - 1); }
    }
  }

  lemma SameLast(h: History, o: History, k: int, level: Level, after: Option<int>)
    requires o.jobs == h.jobs && k < |h.jobs| && (forall i :: Good(o, i) ==> Good(h, i))
    requires Last(h, k, level, after) < 0 || Good(o, Last(h, k, level, after))
    ensures Last(o, k, level, after) == Last(h, k, level, after)
  {
    var l, m := Last(h, k, level, after), Last(o, k, level, after);
    assert l >= 0 ==> At(o, l, level, after);
    assert m >= 0 ==> At(h, m, level, after);
  }

  /** If all that h picks is good in the narrower history o, o picks the same. */
  lemma SamePicked(h: History, o: History, k: int)
    requires o.jobs == h.jobs && k < |h.jobs| && (forall i :: Good(o, i) ==> Good(h, i))
    requires FullAt(h, k) >= 0 && forall i :: i in Picked(h, k) ==> Good(o, i)
    ensures Picked(o, k) == Picked(h, k)
  {
    var f, a := FullAt(h, k), AnchorAt(h, k);
    assert f in Picked(h, k) && a in Picked(h, k);
    SameLast(h, o, k, Full, None);
    SameLast(h, o, k, Differential, Some(h.jobs[f].end));
    assert IncrementalsAt(h, k) <= Picked(h, k);
    assert IncrementalsAt(o, k) == IncrementalsAt(h, k);
  }

  /** A run extends its own list by itself exactly when it joins the list of the request
      and that holds only its own name. */
  lemma JoinsOwnListExact(h: History, n: int)
    requires Sequential(h) && Good(h, n)
    ensures Picked(h, n) == OwnList(h, n) + {n} <==> JoinsList(h, n) && OneName(h, n)
  {
    JoinsListExact(h, n);
    OwnListExact(h, n);
    if Picked(h, n) == OwnList(h, n) + {n} {
      assert n in Picked(h, n);
      assert ListBefore(h, n) == Picked(h, n) - {n} == OwnList(h, n);
    }
  }

  /** The accurate list as of run n ends with run n exactly when run n joins the list and
      nothing is on top of it. */
  lemma EndsWithRun(h: History, n: int, rows: seq<JobRow>)
    requires Sequential(h) && Good(h, n) && IsOrderedChain(WholeTable(h), AsOf(h, n), rows)
    ensures rows != [] && rows[|rows| - 1] == h.jobs[n] <==> JoinsList(h, n) && NothingOnTop(h, n)
  {
    var s := Picked(h, LastSeen(h, n));
    WholeTableSees(h, n);
    ChainIsPicked(h, WholeTable(h), AsOf(h, n), LastSeen(h, n), Rows(rows));
    JoinsListExact(h, n);
    if JoinsList(h, n) && NothingOnTop(h, n) {
      SeenExact(h, n, Picked(h, n));
      assert h.jobs[n] in Rows(rows);
      EndsWithLatest(h, s, n, rows);
    }
    if rows != [] && rows[|rows| - 1] == h.jobs[n] {
      assert h.jobs[n] in Rows(rows);
      NothingAfterLast(h, s, n, rows);
      SeenExact(h, n, s);
    }
  }

  lemma EndsWithLatest(h: History, s: set<int>, n: int, rows: seq<JobRow>)
    requires Sequential(h) && Good(h, n) && n in s && (forall i :: i in s ==> i <= n && Good(h, i))
    requires Rows(rows) == JobsAt(h, s) && SortedByDate(rows)
    ensures rows != [] && rows[|rows| - 1] == h.jobs[n]
  {
    assert h.jobs[n] in Rows(rows);
    var last := rows[|rows| - 1];
    assert last in Rows(rows);
    var i :| i in s && h.jobs[i] == last;
    assert i < n ==> GoodInOrder(h, i, n);
  }

  lemma NothingAfterLast(h: History, s: set<int>, n: int, rows: seq<JobRow>)
    requires Sequential(h) && Good(h, n) && (forall i :: i in s ==> Good(h, i))
    requires Rows(rows) == JobsAt(h, s) && SortedByDate(rows) && rows != [] && rows[|rows| - 1] == h.jobs[n]
    ensures n in s && forall i :: i in s ==> i <= n
  {
    assert h.jobs[n] in Rows(rows);
    var k :| k in s && h.jobs[k] == h.jobs[n];
    assert SameJobId(h, k, n);
    forall i | i in s ensures i <= n {
      assert h.jobs[i] in Rows(rows);
      assert i > n ==> GoodInOrder(h, n, i);
    }
  }
}
