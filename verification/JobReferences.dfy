/**
 The reference job of each run in a history, and the runs a restore needs: a run, its
 reference, the reference of that, back to a Full.
 */
module JobReferences {
  import opened CatalogTables
  import opened AccurateJobs
  import opened JobHistories

  /** bdb_find_job_start_time may answer run r when run i starts. */
  ghost predicate RefersTo(h: History, i: int, r: int) {
    && 0 <= r < i < |h.jobs|
    && IsReference(TableUpTo(h, i), SearchOf(h, i), Some(h.jobs[r]))
  }

  ghost predicate SameNames(a: JobRow, b: JobRow) {
    a.name == b.name && a.fileSetId == b.fileSetId
  }

  /** What the search for run i looks at. */
  ghost predicate Competes(h: History, i: int, k: int)
    requires 0 <= i < |h.jobs|
  {
    && Good(h, k) && k < i && SameNames(h.jobs[k], h.jobs[i])
    && (h.jobs[i].level == Differential ==> h.jobs[k].level == Full)
  }

  lemma SearchedIsGood(h: History, i: int, j: JobRow, levels: set<Level>) returns (k: int)
    requires Sequential(h) && Good(h, i) && levels <= {Full, Differential, Incremental}
    requires j in SearchedAt(TableUpTo(h, i), SearchOf(h, i), levels)
    ensures 0 <= k < i && h.jobs[k] == j && Good(h, k) && SameNames(j, h.jobs[i])
  {
    k :| 0 <= k < i && h.jobs[k] == j;
  }

  lemma GoodIsSearched(h: History, i: int, k: int, levels: set<Level>)
    requires Good(h, i) && Good(h, k) && k < i && SameNames(h.jobs[k], h.jobs[i])
    ensures h.jobs[k] in SearchedAt(TableUpTo(h, i), SearchOf(h, i), levels) <==> h.jobs[k].level in levels
  {
  }

  /** The search by position: a Full of the same names exists, and run r started last. */
  lemma RefersToIs(h: History, i: int, r: int)
    requires Sequential(h) && Good(h, i) && h.jobs[i].level != Full
    ensures RefersTo(h, i, r) <==>
            && Competes(h, i, r) && (forall k :: Competes(h, i, k) ==> h.jobs[k].start <= h.jobs[r].start)
            && exists k :: Competes(h, i, k) && h.jobs[k].level == Full
  {
    var tbl, req := TableUpTo(h, i), SearchOf(h, i);
    var fulls, all := SearchedAt(tbl, req, {Full}), SearchedAt(tbl, req, {Incremental, Differential, Full});
    forall k | Good(h, k) && k < i && SameNames(h.jobs[k], h.jobs[i])
      ensures h.jobs[k] in all && (h.jobs[k] in fulls <==> h.jobs[k].level == Full)
    {
      GoodIsSearched(h, i, k, {Full});
      GoodIsSearched(h, i, k, {Incremental, Differential, Full});
    }
    if RefersTo(h, i, r) {
      assert h.jobs[r] in all;
      var r' := SearchedIsGood(h, i, h.jobs[r], {Incremental, Differential, Full});
      assert SameJobId(h, r, r');
      var f :| f in fulls;
      var k := SearchedIsGood(h, i, f, {Full});
      assert Competes(h, i, k) && h.jobs[k].level == Full;
    }
    if Competes(h, i, r) && (forall k :: Competes(h, i, k) ==> h.jobs[k].start <= h.jobs[r].start) {
      var from := if h.jobs[i].level == Differential then fulls else all;
      forall j: JobRow | j in from ensures j.start <= h.jobs[r].start {
        var k := SearchedIsGood(h, i, j, {Incremental, Differential, Full});
        assert Competes(h, i, k);
      }
    }
  }

  // ------------------------------------------------------ the run before run i

  ghost function LastGood(h: History, k: int): (r: int)
    requires k < |h.jobs|
    ensures -1 <= r && (k < 0 ==> r == -1) && (k >= 0 ==> r <= k)
    ensures r >= 0 ==> Good(h, r)
    ensures forall i :: r < i <= k ==> !Good(h, i)
    decreases k
  {
    if k < 0 then -1 else if Good(h, k) then k else LastGood(h, k - 1)
  }

  /** The run that run i extends: for a Differential the last Full, for an Incremental
      the last good run; or -1. */
  ghost function Previous(h: History, i: int): (p: int)
    requires 0 <= i < |h.jobs|
    ensures -1 <= p < i && (p >= 0 ==> Good(h, p))
  {
    if h.jobs[i].level == Differential then FullAt(h, i - 1) else LastGood(h, i - 1)
  }

  /** That run carries the name and FileSetId of run i, and the search sees no other run
      that started in the same second. */
  ghost predicate PreviousIsOwn(h: History, i: int)
    requires 0 <= i < |h.jobs|
  {
    var p := Previous(h, i);
    && p >= 0 && SameNames(h.jobs[p], h.jobs[i])
    && forall k :: Competes(h, i, k) && k != p ==> h.jobs[k].start != h.jobs[p].start
  }

  lemma CompetesUpTo(h: History, i: int, k: int)
    requires Sequential(h) && Good(h, i) && h.jobs[i].level != Full && Competes(h, i, k)
    ensures k <= Previous(h, i) && h.jobs[k].start <= h.jobs[Previous(h, i)].start
  {
    assert h.jobs[i].level == Differential ==> At(h, k, Full, None);
    StartsNoLater(h, k, Previous(h, i));
  }

  /** The search names the run before run i, whatever it may answer, exactly when that
      run is its own. */
  lemma ReferenceExact(h: History, i: int, r: int)
    requires Sequential(h) && Good(h, i) && h.jobs[i].level != Full && RefersTo(h, i, r)
    ensures (forall k :: RefersTo(h, i, k) ==> k == Previous(h, i)) <==> PreviousIsOwn(h, i)
  {
    var p := Previous(h, i);
    RefersToIs(h, i, r);
    CompetesUpTo(h, i, r);
    if PreviousIsOwn(h, i) {
      forall k | RefersTo(h, i, k) ensures k == p {
        RefersToIs(h, i, k);
        CompetesUpTo(h, i, k);
        assert Competes(h, i, p);
      }
    } else if r == p {
      var k :| Competes(h, i, k) && k != p && h.jobs[k].start == h.jobs[p].start;
      RefersToIs(h, i, k);
    }
  }

  // ------------------------------------------------------- the chain of references

  /** since[i] is what the search answered when run i started, for the runs up to n. */
  ghost predicate Refer(h: History, since: seq<int>, n: int) {
    |since| == |h.jobs| &&
    forall i {:trigger Good(h, i)} ::
      Good(h, i) && i <= n && h.jobs[i].level != Full ==> RefersTo(h, i, since[i])
  }

  /** Run n, its reference, and so on back to a Full. */
  ghost function Ancestors(h: History, since: seq<int>, n: int): (s: set<int>)
    requires 0 <= n < |h.jobs| == |since|
    ensures n in s && forall i :: i in s ==> 0 <= i <= n
    decreases n
  {
    if h.jobs[n].level == Full || !(0 <= since[n] < n) then {n} else Ancestors(h, since, since[n]) + {n}
  }

  lemma ReferenceIsGood(h: History, since: seq<int>, i: int)
    requires Sequential(h) && Refer(h, since, i) && Good(h, i) && h.jobs[i].level != Full
    ensures 0 <= since[i] < i && Good(h, since[i]) && FullAt(h, i - 1) >= 0 && Previous(h, i) >= 0
  {
    RefersToIs(h, i, since[i]);
    CompetesUpTo(h, i, since[i]);
    var k :| Competes(h, i, k) && h.jobs[k].level == Full;
    assert At(h, k, Full, None);
  }

  /** The promised list of a run is that of the run before it and the run itself. */
  lemma PromisedGrows(h: History, n: int)
    requires Good(h, n) && h.jobs[n].level != Full && FullAt(h, n - 1) >= 0
    ensures FullAt(h, n) >= 0 && FullAt(h, Previous(h, n)) >= 0
    ensures Promised(h, n) == Promised(h, Previous(h, n)) + {n}
  {
    var p := Previous(h, n);
    if h.jobs[n].level == Differential {
      assert FullAt(h, p) == p && PlainAnchor(h, p) == p && PlainAnchor(h, n) == n;
      assert IncrementalsAfter(h, p, p) == {} && IncrementalsAfter(h, n, n) == {};
    } else {
      assert p >= FullAt(h, n - 1);
      assert FullAt(h, n) == FullAt(h, p);
      assert PlainAnchor(h, n) == PlainAnchor(h, p);
      assert IncrementalsAfter(h, PlainAnchor(h, p), n) == IncrementalsAfter(h, PlainAnchor(h, p), p) + {n};
    }
  }

  lemma PromisedFull(h: History, n: int)
    requires Good(h, n) && h.jobs[n].level == Full
    ensures FullAt(h, n) == n && Promised(h, n) == {n}
  {
  }

  /** Every run of the list was recorded since the run before it. */
  ghost predicate FollowsList(h: History, since: seq<int>, s: set<int>)
    requires |since| == |h.jobs|
  {
    forall i :: i in s && 0 <= i < |h.jobs| && h.jobs[i].level != Full ==> since[i] == Previous(h, i)
  }

  /** The last of the promised list. */
  lemma PromisedEndsAt(h: History, n: int)
    requires Good(h, n) && FullAt(h, n) >= 0
    ensures n in Promised(h, n) && forall i :: i in Promised(h, n) ==> 0 <= i <= n && Good(h, i)
  {
  }

  /** Equal lists end in the same last step. */
  lemma SameReference(h: History, since: seq<int>, n: int)
    requires Good(h, n) && h.jobs[n].level != Full && |since| == |h.jobs| && 0 <= since[n] < n
    requires FullAt(h, n - 1) >= 0 && FullAt(h, n) >= 0 && Ancestors(h, since, n) == Promised(h, n)
    ensures since[n] == Previous(h, n) && FullAt(h, Previous(h, n)) >= 0
    ensures Ancestors(h, since, Previous(h, n)) == Promised(h, Previous(h, n))
  {
    var p := Previous(h, n);
    PromisedGrows(h, n);
    PromisedEndsAt(h, p);
    assert since[n] in Promised(h, n) && p in Ancestors(h, since, n);
    assert since[n] == p;
    assert Ancestors(h, since, p) == Ancestors(h, since, n) - {n};
    assert Promised(h, p) == Promised(h, n) - {n};
  }

  /** A run needs exactly the promised list iff each run on it was recorded since the
      run before it. */
  lemma {:induction false} AncestorsExact(h: History, since: seq<int>, n: int)
    requires Sequential(h) && Refer(h, since, n) && Good(h, n)
    ensures FullAt(h, n) >= 0
    ensures Ancestors(h, since, n) == Promised(h, n) <==> FollowsList(h, since, Promised(h, n))
    decreases n
  {
    if h.jobs[n].level == Full {
      PromisedFull(h, n);
    } else {
      var p := Previous(h, n);
      ReferenceIsGood(h, since, n);
      PromisedGrows(h, n);
      AncestorsExact(h, since, p);
      PromisedEndsAt(h, p);
      if Ancestors(h, since, n) == Promised(h, n) {
        SameReference(h, since, n);
      }
    }
  }
}
