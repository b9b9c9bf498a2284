/**
 The Path table and its one-entry cache: bdb_get_path_record and
 bdb_create_path_record.

 `PathState` with `UncachedGet` and `UncachedCreate` is the simple form, a plain
 table search.  The class adds the cache of the C code; `RunPathOps` shows that no
 sequence of calls can tell the two apart.
 */
module PathTables {

  import opened CatalogTables

  ghost predicate SameString(rows: map<PathId, string>, a: PathId, b: PathId) {
    a in rows && b in rows && rows[a] == rows[b]
  }

  ghost predicate UniqueStrings(rows: map<PathId, string>) {
    forall a, b :: SameString(rows, a, b) ==> a == b
  }

  /** Every row of the old table is in the new one, unchanged. */
  ghost predicate Extends(rows: map<PathId, string>, rows': map<PathId, string>) {
    rows.Keys <= rows'.Keys && forall k :: k in rows ==> rows'[k] == rows[k]
  }

  /** The table, and the key the next INSERT is given. */
  datatype PathState = PathState(rows: map<PathId, string>, nextId: PathId)

  ghost predicate ValidTable(st: PathState) {
    && st.nextId > 0
    && UniqueStrings(st.rows)
    && forall id :: id in st.rows ==> 0 < id < st.nextId
  }

  /** SELECT PathId FROM Path WHERE Path = s, or 0. */
  ghost function UncachedGet(st: PathState, s: string): PathId {
    if exists id :: id in st.rows && st.rows[id] == s
    then var id :| id in st.rows && st.rows[id] == s; id
    else 0
  }

  /** Find s or insert it. */
  ghost function UncachedCreate(st: PathState, s: string): PathState {
    if exists id :: id in st.rows && st.rows[id] == s then st
    else PathState(st.rows[st.nextId := s], st.nextId + 1)
  }

  lemma GetIs(st: PathState, s: string, id: PathId)
    requires ValidTable(st) && id in st.rows && st.rows[id] == s
    ensures UncachedGet(st, s) == id
  {
    var found := UncachedGet(st, s);
    assert SameString(st.rows, found, id);
  }

  /** Adding a string that is not there keeps the strings unique. */
  lemma InsertKeepsUnique(rows: map<PathId, string>, id: PathId, s: string)
    requires UniqueStrings(rows) && id !in rows && forall k :: k in rows ==> rows[k] != s
    ensures UniqueStrings(rows[id := s])
  {
    var rows' := rows[id := s];
    forall a, b | SameString(rows', a, b) ensures a == b {
      assert a != id && b != id ==> SameString(rows, a, b);
    }
  }

  lemma ValuesAfterInsert(rows: map<PathId, string>, id: PathId, s: string)
    requires id !in rows
    ensures rows[id := s].Values == rows.Values + {s}
  {
    var rows' := rows[id := s];
    assert rows'[id] == s;
    forall x | x in rows.Values ensures x in rows'.Values {
      var k :| k in rows && rows[k] == x;
      assert rows'[k] == x;
    }
  }

  /** What a creation does to the table: it stays valid, keeps every row, and holds
      s under a non-zero key afterwards; it grows by at most that one row. */
  lemma CreateKeepsTable(st: PathState, s: string)
    requires ValidTable(st)
    ensures var st' := UncachedCreate(st, s); var id := UncachedGet(st', s);
            && ValidTable(st')
            && id != 0 && id in st'.rows && st'.rows[id] == s
            && st'.rows.Keys == st.rows.Keys + {id}
            && st'.rows.Values == st.rows.Values + {s}
            && Extends(st.rows, st'.rows)
  {
    var st' := UncachedCreate(st, s);
    if id :| id in st.rows && st.rows[id] == s {
      GetIs(st', s, id);
    } else {
      InsertKeepsUnique(st.rows, st.nextId, s);
      ValuesAfterInsert(st.rows, st.nextId, s);
      GetIs(st', s, st.nextId);
    }
  }

  datatype PathOp = Get(path: string) | Create(path: string)

  ghost function UncachedStep(st: PathState, op: PathOp): PathState {
    if op.Create? then UncachedCreate(st, op.path) else st
  }

  ghost function UncachedRun(st: PathState, ops: seq<PathOp>): PathState {
    if ops == [] then st
    else UncachedStep(UncachedRun(st, ops[..|ops| - 1]), ops[|ops| - 1])
  }

  /** The answer to call number i of a run: the search after that call. */
  ghost function Answer(st: PathState, ops: seq<PathOp>, i: nat): PathId
    requires i < |ops|
  {
    UncachedGet(UncachedRun(st, ops[..i + 1]), ops[i].path)
  }

  /** Any run keeps the table valid and every row in place. */
  lemma {:induction false} RunKeepsRows(st: PathState, ops: seq<PathOp>)
    requires ValidTable(st)
    ensures ValidTable(UncachedRun(st, ops))
    ensures Extends(st.rows, UncachedRun(st, ops).rows)
  {
    if ops != [] {
      RunKeepsRows(st, ops[..|ops| - 1]);
      CreateKeepsTable(UncachedRun(st, ops[..|ops| - 1]), ops[|ops| - 1].path);
    }
  }

  lemma {:induction false} RunConcat(st: PathState, a: seq<PathOp>, b: seq<PathOp>)
    ensures UncachedRun(st, a + b) == UncachedRun(UncachedRun(st, a), b)
  {
    if b == [] {
      assert a + b == a;
    } else {
      RunConcat(st, a, b[..|b| - 1]);
      assert (a + b)[..|a + b| - 1] == a + b[..|b| - 1];
    }
  }

  /** A path that was created is found, with the same key, by every later call. */
  lemma CreatedIsFound(st: PathState, ops: seq<PathOp>, i: nat, k: nat)
    requires ValidTable(st) && i <= k < |ops|
    requires ops[i].Create? && ops[k].path == ops[i].path
    ensures Answer(st, ops, k) == Answer(st, ops, i) != 0
  {
    var s := ops[i].path;
    var mid, end := UncachedRun(st, ops[..i + 1]), UncachedRun(st, ops[..k + 1]);
    assert ops[..i + 1][..i] == ops[..i];
    RunKeepsRows(st, ops[..i]);
    CreateKeepsTable(UncachedRun(st, ops[..i]), s);
    assert ops[..k + 1] == ops[..i + 1] + ops[i + 1..k + 1];
    RunConcat(st, ops[..i + 1], ops[i + 1..k + 1]);
    RunKeepsRows(mid, ops[i + 1..k + 1]);
    GetIs(end, s, UncachedGet(mid, s));
  }

  /** The string a lookup asks for: the first pnl characters of path.  Past the NUL of a
      shorter path PostgreSQL's escape stops, SQLite's adds a backslash, and MySQL's goes
      on with a NUL in the text, which is no Path string. */
  function Searched(backend: Backend, path: string, pnl: nat): Option<string> {
    if pnl <= |path| then Some(path[..pnl])
    else match backend
      case PostgreSQL => Some(path)
      case SQLite => Some(path + "\\")
      case MySQL => None
  }

  lemma SearchedWhole(backend: Backend, path: string)
    ensures Searched(backend, path, |path|) == Some(path)
  {
    assert path[..|path|] == path;
  }

  /** With a stale pnl SQLite looks for the path and one character more, MySQL for no path. */
  lemma SearchedPastEnd(path: string, pnl: nat)
    requires pnl > |path|
    ensures Searched(PostgreSQL, path, pnl) == Some(path) && Searched(MySQL, path, pnl) == None
    ensures var s := Searched(SQLite, path, pnl); s.Some? && path <= s.value && |s.value| == |path| + 1
  {
  }

  ghost function UncachedFind(st: PathState, s: Option<string>): PathId {
    if s.Some? then UncachedGet(st, s.value) else 0
  }

  /** get_root empties path and leaves pnl: it finds the root exactly when pnl was 0 or the
      escape stops at the NUL. */
  lemma RootIsFound(backend: Backend, st: PathState, pnl: nat)
    requires ValidTable(st) && "" in st.rows.Values
    ensures UncachedFind(st, Searched(backend, "", pnl)) == UncachedGet(st, "") <==>
            pnl == 0 || backend.PostgreSQL?
  {
  }

  /** The catalog connection, as far as the Path table goes. */
  class PathTable {
    const backend: Backend
    var rows: map<PathId, string>
    var nextId: PathId
    var path: string                 // work buffer set by the caller
    var pnl: nat                     // and its length
    var cachedId: PathId
    var cachedPath: string
    var cachedLen: nat

    ghost function State(): PathState
      reads this
    {
      PathState(rows, nextId)
    }

    /** The cache entry is the answer to a lookup of its string and length. */
    ghost predicate Valid()
      reads this
    {
      && ValidTable(State())
      && (cachedId != 0 ==>
            cachedId in rows && Some(rows[cachedId]) == Searched(backend, cachedPath, cachedLen))
    }

    constructor (backend: Backend)
      ensures Valid() && rows == map[] && path == "" && this.backend == backend
    {
      this.backend := backend;
      rows, nextId := map[], 1;
      path, pnl := "", 0;
      cachedId, cachedPath, cachedLen := 0, "", 0;
    }

    method SetPath(s: string)
      requires Valid()
      modifies this`path, this`pnl
      ensures Valid() && path == s && pnl == |s|
    {
      path, pnl := s, |s|;
    }

    /** Some callers put the old buffer back and leave the length as it is. */
    method RestorePath(s: string)
      requires Valid()
      modifies this`path
      ensures Valid() && path == s
    {
      path := s;
    }

    /** The SELECT both routines share; the first row of the answer, or 0. */
    method Select() returns (id: PathId)
      requires Valid()
      ensures id == UncachedFind(State(), Searched(backend, path, pnl))
      ensures id != 0 ==> id in rows && Some(rows[id]) == Searched(backend, path, pnl)
      ensures id == 0 ==> forall k :: k in rows ==> Some(rows[k]) != Searched(backend, path, pnl)
    {
      var s := Searched(backend, path, pnl);
      var found := set k | k in rows && Some(rows[k]) == s;
      if found != {} {
        id :| id in found;
        GetIs(State(), s.value, id);
      } else {
        assert forall k :: k in rows && Some(rows[k]) == s ==> k in found;
        id := 0;
      }
    }

    /** bdb_get_path_record, whatever pnl is. */
    method GetPathRecord() returns (id: PathId)
      requires Valid()
      modifies this`cachedId, this`cachedPath, this`cachedLen
      ensures Valid()
      ensures id == UncachedFind(State(), Searched(backend, path, pnl))
    {
      if cachedId != 0 && cachedLen == pnl && cachedPath == path {
        GetIs(State(), rows[cachedId], cachedId);
        return cachedId;
      }
      id := Select();
      if id != 0 && id != cachedId {
        cachedId, cachedLen, cachedPath := id, pnl, path;
      }
    }

    /** get_root: the path is emptied, its length is left as it is. */
    method GetRoot() returns (id: PathId)
      requires Valid()
      modifies this`path, this`cachedId, this`cachedPath, this`cachedLen
      ensures Valid() && id == UncachedFind(State(), Searched(backend, "", pnl))
    {
      path := "";
      id := GetPathRecord();
    }

    /** bdb_create_path_record; its callers set path and pnl together. */
    method CreatePathRecord() returns (id: PathId)
      requires Valid() && pnl == |path|
      modifies this`rows, this`nextId, this`cachedId, this`cachedPath, this`cachedLen
      ensures Valid()
      ensures State() == UncachedCreate(old(State()), path)
      ensures id == UncachedGet(State(), path)
    {
      SearchedWhole(backend, path);
      if cachedId != 0 && cachedLen == pnl && cachedPath == path {
        GetIs(State(), path, cachedId);
        return cachedId;
      }
      id := Select();
      if id == 0 {
        id := nextId;
        InsertKeepsUnique(rows, id, path);
        rows, nextId := rows[id := path], nextId + 1;
        GetIs(State(), path, id);
      }
      if id != cachedId {
        cachedId, cachedLen, cachedPath := id, pnl, path;
      }
    }

    method InsertPath(s: string)
      requires Valid() && s !in rows.Values
      modifies this`rows, this`nextId
      ensures Valid()
      ensures rows.Values == old(rows.Values) + {s}
      ensures Extends(old(rows), rows)
    {
      assert forall k :: k in rows ==> rows[k] in rows.Values;
      InsertKeepsUnique(rows, nextId, s);
      ValuesAfterInsert(rows, nextId, s);
      rows, nextId := rows[nextId := s], nextId + 1;
    }

    /** INSERT INTO Path of several new strings at once, keys given in any order. */
    method InsertPaths(strings: set<string>)
      requires Valid() && strings !! rows.Values
      modifies this`rows, this`nextId
      ensures Valid()
      ensures rows.Values == old(rows.Values) + strings
      ensures Extends(old(rows), rows)
      decreases |strings|
    {
      if strings != {} {
        var s :| s in strings;
        ghost var known := rows.Values;
        InsertPath(s);
        assert known + {s} + (strings - {s}) == known + strings;
        InsertPaths(strings - {s});
      }
    }

    /** Any sequence of lookups and creations answers as the uncached table does. */
    method RunPathOps(ops: seq<PathOp>) returns (ids: seq<PathId>)
      requires Valid()
      modifies this
      ensures Valid()
      ensures State() == UncachedRun(old(State()), ops)
      ensures |ids| == |ops|
      ensures forall i :: 0 <= i < |ops| ==> ids[i] == Answer(old(State()), ops, i)
    {
      ids := [];
      for i := 0 to |ops|
        invariant Valid() && |ids| == i
        invariant State() == UncachedRun(old(State()), ops[..i])
        invariant forall k :: 0 <= k < i ==> ids[k] == Answer(old(State()), ops, k)
      {
        SetPath(ops[i].path);
        SearchedWhole(backend, path);
        var id;
        if ops[i].Create? {
          id := CreatePathRecord();
        } else {
          id := GetPathRecord();
        }
        assert ops[..i + 1][..i] == ops[..i];
        ids := ids + [id];
      }
      assert ops[..|ops|] == ops;
    }
  }
}
