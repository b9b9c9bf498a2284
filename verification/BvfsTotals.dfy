/**
 Directory totals for the file view: fv_compute_size_and_count, a recursion over the
 sub-directories with Size and Files in PathVisibility as its memo.
 */
module BvfsTotals {
  import opened PathStrings
  import opened PathTables
  import opened CatalogTables
  import opened BvfsIndexes

  /** A File row of the job, with the size decoded from its LStat. */
  datatype SizedFile = SizedFile(fileId: nat, pathId: PathId, size: int)

  datatype Total = Total(size: int, files: int) {
    function Plus(t: Total): Total {
      Total(size + t.size, files + t.files)
    }
  }

  /** sum(size), count(1) over a set of File rows. */
  ghost function Weigh(s: set<SizedFile>): Total {
    if s == {} then Total(0, 0)
    else
      var f := Pick(s);
      Weigh(s - {f}).Plus(Total(f.size, 1))
  }

  ghost function Pick(s: set<SizedFile>): SizedFile
    requires s != {}
  {
    var f :| f in s; f
  }

  lemma {:induction false} WeighRemove(s: set<SizedFile>, f: SizedFile)
    requires f in s
    ensures Weigh(s) == Weigh(s - {f}).Plus(Total(f.size, 1))
    decreases |s|
  {
    var g := Pick(s);
    if g != f {
      WeighRemove(s - {g}, f);
      WeighRemove(s - {f}, g);
      assert s - {g} - {f} == s - {f} - {g};
    }
  }

  lemma {:induction false} WeighUnion(a: set<SizedFile>, b: set<SizedFile>)
    requires a !! b
    ensures Weigh(a + b) == Weigh(a).Plus(Weigh(b))
    decreases |b|
  {
    if b == {} {
      assert a + b == a;
    } else {
      var f :| f in b;
      WeighUnion(a, b - {f});
      WeighRemove(b, f);
      WeighRemove(a + b, f);
      assert a + b - {f} == a + (b - {f});
    }
  }

  /** A total counts the files and adds up their sizes. */
  lemma {:induction false} WeighCounts(s: set<SizedFile>)
    ensures Weigh(s).files == |s|
    decreases |s|
  {
    if s != {} { WeighCounts(s - {Pick(s)}); }
  }

  lemma WeighOne(f: SizedFile)
    ensures Weigh({f}).size == f.size
  {
    WeighRemove({f}, f);
    assert {f} - {f} == {};
  }

  lemma WeighApart(a: set<SizedFile>, b: set<SizedFile>)
    requires a !! b
    ensures Weigh(a + b).size == Weigh(a).size + Weigh(b).size
  {
    WeighUnion(a, b);
  }

  /** What one job shows: the hierarchy, its visible paths and its files. */
  datatype View = View(rows: map<PathId, string>, hierarchy: Hierarchy,
                       visible: set<PathId>, files: set<SizedFile>)

  ghost predicate ValidView(v: View) {
    && ScopedTable(v.rows) && ChainComplete(v.rows, v.hierarchy)
    && Covered(v.rows, v.hierarchy, v.visible) && Closed(v.hierarchy, v.visible)
  }

  lemma PrefixClosureCovered(rows: map<PathId, string>, h: Hierarchy, ids: set<PathId>)
    requires ScopedTable(rows) && ChainComplete(rows, h) && Covered(rows, h, ids)
    ensures Covered(rows, h, PrefixClosure(rows, ids))
  {
    forall k | k in PrefixClosure(rows, ids) && rows[k] != "" ensures k in h {
      var d :| d in ids && IsDir(rows[k]) && rows[k] <= rows[d];
      var _ := ClimbRow(rows, h, d, rows[k], k);
    }
  }

  /** The view of a job with HasCache = 1 is such a tree. */
  lemma IndexedJobHasView(t: Tables, j: JobId, files: set<SizedFile>)
    requires ValidIndex(t) && j in t.hasCache
    ensures ValidView(View(t.rows, t.hierarchy, Visible(t.visibility, j), files))
  {
    assert JobIndexed(t, j);
    PrefixClosureIsClosed(t.rows, t.hierarchy, Direct(t.files, t.base, j));
    PrefixClosureCovered(t.rows, t.hierarchy, Direct(t.files, t.base, j));
  }

  function PathOf(v: View, id: PathId): string {
    if id in v.rows then v.rows[id] else ""
  }

  /** A path and everything visible below it. */
  ghost function Subtree(v: View, id: PathId): set<PathId> {
    {id} + set k | k in v.visible && PathOf(v, id) <= PathOf(v, k)
  }

  function Children(v: View, id: PathId): set<PathId> {
    set k | k in v.visible && k in v.hierarchy && v.hierarchy[k] == id
  }

  function FilesIn(v: View, id: PathId): set<SizedFile> {
    set f | f in v.files && f.pathId == id
  }

  ghost function FilesUnder(v: View, ids: set<PathId>): set<SizedFile> {
    set f, c | f in v.files && c in ids && f.pathId in Subtree(v, c) :: f
  }

  /** The specification of the totals: all File rows in the path and below. */
  ghost function SubtreeTotal(v: View, id: PathId): (t: Total)
    ensures t.files == |FilesUnder(v, {id})|
  {
    WeighCounts(FilesUnder(v, {id}));
    Weigh(FilesUnder(v, {id}))
  }

  /** On the tables: the files of a path are those in it and those whose path is visible
      and has it as a prefix. */
  lemma FilesUnderMeans(v: View, id: PathId, f: SizedFile)
    requires id in v.rows && forall k :: k in v.visible ==> k in v.rows
    ensures f in FilesUnder(v, {id}) <==>
            f in v.files && (f.pathId == id || (f.pathId in v.visible && v.rows[id] <= v.rows[f.pathId]))
  {
  }

  // -------------------------------------------------------- the tree argument

  lemma ChildIsParented(v: View, id: PathId, c: PathId)
    requires ValidView(v) && c in Children(v, id)
    ensures id in v.rows && c in v.rows && PathOf(v, c) != ""
    ensures IsParent(PathOf(v, id), PathOf(v, c)) && IsDir(PathOf(v, c))
  {
  }

  lemma ChildBelow(v: View, id: PathId, c: PathId)
    requires ValidView(v) && c in Children(v, id)
    ensures id !in Subtree(v, c) && Subtree(v, c) <= Subtree(v, id)
  {
  }

  /** One step up from a path below id stays at or below id. */
  lemma StepUp(v: View, id: PathId, k: PathId)
    requires ValidView(v) && id in v.rows && k in Subtree(v, id) && k != id
    ensures k in v.hierarchy && k in v.visible && v.hierarchy[k] in Subtree(v, id)
    ensures PathOf(v, v.hierarchy[k]) < PathOf(v, k)
  {
    var p, q := PathOf(v, id), PathOf(v, k);
    assert !SameString(v.rows, id, k);
    assert q != "" && ChainLink(v.rows, v.hierarchy, k);
    AboveIsAboveParent(p, q);
  }

  lemma BelowBelow(v: View, c: PathId, up: PathId, k: PathId)
    requires up in Subtree(v, c) && k in v.visible && PathOf(v, up) < PathOf(v, k)
    ensures k in Subtree(v, c)
  {
  }

  /** Everything below a path is below one of its children. */
  lemma {:induction false} ChildOnTheWay(v: View, id: PathId, k: PathId) returns (c: PathId)
    requires ValidView(v) && id in v.rows && k in Subtree(v, id) && k != id
    ensures c in Children(v, id) && k in Subtree(v, c)
    decreases |PathOf(v, k)|
  {
    StepUp(v, id, k);
    var up := v.hierarchy[k];
    if up == id {
      c := k;
    } else {
      c := ChildOnTheWay(v, id, up);
      BelowBelow(v, c, up, k);
    }
  }

  /** Of two directories with the same parent on one path, neither is shorter. */
  lemma SiblingNotShorter(p: string, q: string, q': string, s: string)
    requires IsParent(p, q) && IsParent(p, q') && IsDir(q) && q <= s && q' <= s
    ensures |q'| <= |q|
  {
  }

  lemma SamePrefix(q: string, q': string, s: string)
    requires q <= s && q' <= s && |q| == |q'|
    ensures q == q'
  {
    assert q == s[..|q|] && q' == s[..|q'|];
  }

  /** ... and below only one of them. */
  lemma ChildrenDisjoint(v: View, id: PathId, c: PathId, c': PathId, k: PathId)
    requires ValidView(v) && c in Children(v, id) && c' in Children(v, id)
    requires k in Subtree(v, c) && k in Subtree(v, c')
    ensures c == c'
  {
    ChildIsParented(v, id, c);
    ChildIsParented(v, id, c');
    var p, q, q', s := PathOf(v, id), PathOf(v, c), PathOf(v, c'), PathOf(v, k);
    SiblingNotShorter(p, q, q', s);
    SiblingNotShorter(p, q', q, s);
    SamePrefix(q, q', s);
    assert SameString(v.rows, c, c');
  }

  /** The files of a path are its own and those under its children. */
  lemma SubtreeSplits(v: View, id: PathId)
    requires ValidView(v) && id in v.rows
    ensures FilesUnder(v, {id}) == FilesIn(v, id) + FilesUnder(v, Children(v, id))
  {
    var all, own, below := FilesUnder(v, {id}), FilesIn(v, id), FilesUnder(v, Children(v, id));
    forall f | f in all && f.pathId != id ensures f in below {
      var c := ChildOnTheWay(v, id, f.pathId);
    }
    forall f | f in below ensures f in all {
      var c :| c in Children(v, id) && f.pathId in Subtree(v, c);
      ChildBelow(v, id, c);
    }
  }

  /** A child's files are neither the path's own nor those of another child. */
  lemma ChildFilesApart(v: View, id: PathId, done: set<PathId>, c: PathId, f: SizedFile)
    requires ValidView(v) && done <= Children(v, id) && c in Children(v, id) - done
    requires f in FilesUnder(v, {c})
    ensures f !in FilesIn(v, id) + FilesUnder(v, done)
  {
    ChildBelow(v, id, c);
    forall c' | c' in done ensures f.pathId !in Subtree(v, c') {
      if f.pathId in Subtree(v, c') {
        ChildrenDisjoint(v, id, c, c', f.pathId);
        assert false;
      }
    }
  }

  /** Adding one more child adds its subtree, and no file twice. */
  lemma AddChild(v: View, id: PathId, done: set<PathId>, c: PathId)
    requires ValidView(v) && done <= Children(v, id) && c in Children(v, id) - done
    ensures Weigh(FilesIn(v, id) + FilesUnder(v, done + {c})) ==
            Weigh(FilesIn(v, id) + FilesUnder(v, done)).Plus(SubtreeTotal(v, c))
  {
    var before := FilesIn(v, id) + FilesUnder(v, done);
    var more := FilesUnder(v, {c});
    forall f | f in more ensures f !in before {
      ChildFilesApart(v, id, done, c, f);
    }
    WeighUnion(before, more);
    UnderUnion(v, done, c);
    assert before + more == FilesIn(v, id) + FilesUnder(v, done + {c});
  }

  lemma NoChildrenYet(v: View, id: PathId)
    ensures FilesIn(v, id) + FilesUnder(v, {}) == FilesIn(v, id)
  {
  }

  lemma UnderUnion(v: View, done: set<PathId>, c: PathId)
    ensures FilesUnder(v, done + {c}) == FilesUnder(v, done) + FilesUnder(v, {c})
  {
  }

  lemma ChildSubtreeSmaller(v: View, id: PathId, c: PathId)
    requires ValidView(v) && c in Children(v, id)
    ensures c in v.rows && |Subtree(v, c)| < |Subtree(v, id)|
  {
    ChildBelow(v, id, c);
    ChildIsParented(v, id, c);
    var big, small := Subtree(v, id), Subtree(v, c);
    assert big == small + (big - small) && id in big - small;
  }

  lemma OnlyPathsHaveChildren(v: View, id: PathId)
    requires ValidView(v) && id !in v.rows
    ensures Children(v, id) == {}
  {
  }

  /** At the root nothing visible is left out: the root total is the job's total. */
  lemma RootTotal(v: View, root: PathId)
    requires ValidView(v) && root in v.rows && v.rows[root] == ""
    ensures SubtreeTotal(v, root) == Weigh(set f | f in v.files && f.pathId in v.visible + {root})
  {
    forall f ensures f in FilesUnder(v, {root}) <==> f in v.files && f.pathId in v.visible + {root} {
      FilesUnderMeans(v, root, f);
    }
    assert FilesUnder(v, {root}) == set f | f in v.files && f.pathId in v.visible + {root};
  }

  /** A memo entry with Size > 0 is a finished subtree total. */
  ghost predicate MemoCorrect(v: View, memo: map<PathId, Total>) {
    forall k :: k in memo && memo[k].size > 0 ==> memo[k] == SubtreeTotal(v, k)
  }

  class FileView {
    const view: View
    var memo: map<PathId, Total>       // Size and Files of the job's PathVisibility rows

    /** PathVisibility rows start with Size 0 and Files 0. */
    constructor (view: View)
      requires ValidView(view)
      ensures Valid() && this.view == view && forall k :: k in view.visible ==> memo[k] == Total(0, 0)
    {
      this.view, this.memo := view, map k | k in view.visible :: Total(0, 0);
    }

    ghost predicate Valid()
      reads this
    {
      ValidView(view) && memo.Keys == view.visible && MemoCorrect(view, memo)
    }

    /** fv_get_size_and_count: the path's own File rows. */
    method OwnTotal(id: PathId) returns (t: Total)
      ensures t == Weigh(FilesIn(view, id))
    {
      t := Total(0, 0);
      var rest := FilesIn(view, id);
      ghost var seen: set<SizedFile> := {};
      while rest != {}
        invariant rest !! seen && rest + seen == FilesIn(view, id)
        invariant t == Weigh(seen)
        decreases |rest|
      {
        var f :| f in rest;
        WeighRemove(seen + {f}, f);
        assert seen + {f} - {f} == seen;
        rest, seen := rest - {f}, seen + {f};
        t := t.Plus(Total(f.size, 1));
      }
      assert seen == FilesIn(view, id);
    }

    /** fv_compute_size_and_count; a PathId that is not in Path leaves the memo alone. */
    method ComputeSizeAndCount(id: PathId) returns (t: Total)
      requires Valid()
      modifies this`memo
      ensures Valid()
      ensures id in view.rows ==> t == SubtreeTotal(view, id)
      ensures id in view.rows ==> t.files == |FilesUnder(view, {id})|
      ensures id in view.visible ==> memo[id] == t
      ensures id !in view.rows ==> memo == old(memo) && t == Weigh(FilesIn(view, id))
      decreases |Subtree(view, id)|, 1
    {
      t := if id in memo then memo[id] else Total(0, 0);
      if t.size <= 0 {
        t := OwnTotal(id);
        NoChildrenYet(view, id);
        if id in view.rows { SubtreeSplits(view, id); } else { OnlyPathsHaveChildren(view, id); }
        if Children(view, id) != {} {
          t := AddChildTotals(id, t);
        }
        if id in memo {                // the UPDATE finds a row only for a visible path
          memo := memo[id := t];
        }
      }
    }

    /** The loop over the sub-directories found by the query. */
    method AddChildTotals(id: PathId, own: Total) returns (t: Total)
      requires Valid() && own == Weigh(FilesIn(view, id))
      modifies this`memo
      ensures Valid()
      ensures t == Weigh(FilesIn(view, id) + FilesUnder(view, Children(view, id)))
      decreases |Subtree(view, id)|, 0
    {
      t := own;
      var children, done := Children(view, id), {};
      NoChildrenYet(view, id);
      while done != children
        invariant Valid() && done <= children
        invariant t == Weigh(FilesIn(view, id) + FilesUnder(view, done))
        decreases |children - done|
      {
        var c :| c in children - done;
        ChildSubtreeSmaller(view, id, c);
        var ct := ComputeSizeAndCount(c);
        AddChild(view, id, done, c);
        t := t.Plus(ct);
        done := done + {c};
      }
    }

    /** fv_update_cache: the totals from the root on, if get_root finds it; a stale pnl hides
        it from MySQL and SQLite, and then nothing is stored. */
    method UpdateCache(db: PathTable) returns (root: PathId, t: Total)
      requires Valid() && db.Valid() && view.rows == db.rows
      modifies this`memo, db`path, db`cachedId, db`cachedPath, db`cachedLen
      ensures Valid() && db.Valid()
      ensures if "" in view.rows.Values && (db.pnl == 0 || db.backend.PostgreSQL?)
              then && root in view.rows && view.rows[root] == ""
                   && t == Weigh(set f | f in view.files && f.pathId in view.visible + {root})
                   && (root in view.visible ==> memo[root] == t)
              else root == 0 && memo == old(memo)
    {
      RootSearch(db.State(), db.backend, db.pnl);
      root := db.GetRoot();
      t := ComputeSizeAndCount(root);
      if root in view.rows { RootTotal(view, root); }
    }
  }

  /** In a table of directories the search of get_root finds the root or nothing. */
  lemma RootSearch(st: PathState, backend: Backend, pnl: nat)
    requires ValidTable(st) && ScopedTable(st.rows)
    ensures var id := UncachedFind(st, Searched(backend, "", pnl));
            if "" in st.rows.Values && (pnl == 0 || backend.PostgreSQL?)
            then id in st.rows && st.rows[id] == "" else id == 0
  {
    if "" in st.rows.Values { RootIsFound(backend, st, pnl); }
  }
}
