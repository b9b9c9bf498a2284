/**
 insert_hardlinks: a restore list that holds a hard link must also hold the file that
 carries the data, the one saved under FileIndex = LinkFI by the same job.
 */
module Hardlinks {
  import opened CatalogTables

  /** A File row with the two numbers decoded from its LStat. */
  datatype LinkFile = LinkFile(fileId: FileId, jobId: JobId, fileIndex: int, filename: string,
                               nlink: int, linkFI: int)

  datatype Link = Link(jobId: JobId, fileIndex: int)

  /** A row of the query on the restore list joined with File. */
  datatype LinkRow = LinkRow(fileId: FileId, jobId: JobId, nlink: int, linkFI: int)

  const TWO32: nat := 0x1_0000_0000
  const TWO31: nat := 0x8000_0000
  const TWO64: nat := TWO32 * TWO32

  function Out(f: LinkFile): OutRow {
    OutRow(f.jobId, f.fileIndex, f.fileId)
  }

  /** The non-directory files of the list, each with the JobId it is listed under. */
  function Selected(list: seq<OutRow>, files: set<LinkFile>): set<LinkRow> {
    set o, f | o in list && f in files && f.fileId == o.fileId && f.filename != ""
      :: LinkRow(f.fileId, o.jobId, f.nlink, f.linkFI)
  }

  predicate IsLink(r: LinkRow) {
    r.nlink > 1 && r.linkFI > 0
  }

  /** The files the list needs because of its links. */
  function Needed(rows: set<LinkRow>): set<Link> {
    set r | r in rows && IsLink(r) :: Link(r.jobId, r.linkFI)
  }

  /** JobId is 32 bits wide and FileIndex 31. */
  predicate InRange(r: LinkRow) {
    r.jobId < TWO32 && r.linkFI < TWO31
  }

  // ------------------------------------------------- the missing hard links

  /** The 64-bit key: the JobId shifted by 32 bits, and LinkFI. */
  function Key(jobId: JobId, linkFI: nat): nat {
    (jobId * TWO32 + linkFI) % TWO64
  }

  lemma KeyIsWhole(j: JobId, l: nat)
    requires j < 4294967296 && l < 2147483648
    ensures Key(j, l) == j * 4294967296 + l
  {
  }

  lemma KeyIsInjective(j: JobId, l: nat, j': JobId, l': nat)
    requires j < TWO32 && j' < TWO32 && l < TWO31 && l' < TWO31
    ensures Key(j, l) == Key(j', l') <==> j == j' && l == l'
  {
    KeyIsWhole(j, l);
    KeyIsWhole(j', l');
  }

  function Queued(missing: seq<Link>): set<Link> {
    set m | m in missing
  }

  lemma QueuedGrows(missing: seq<Link>, m: Link)
    ensures Queued(missing + [m]) == Queued(missing) + {m}
  {
  }

  /** What a key of a link is made of. */
  ghost predicate IsKeyPart(j: JobId, l: nat) {
    j < TWO32 && 0 < l < TWO31
  }

  class Collector {
    var hardlinks: set<nat>           // the hash table, by its keys
    var missing: seq<Link>

    constructor ()
      ensures Valid() && missing == []
    {
      hardlinks, missing := {}, [];
    }

    /** A key of a link is known exactly when the link was queued. */
    ghost predicate Valid()
      reads this
    {
      && NoRepeats(missing)
      && (forall j: JobId, l: nat :: IsKeyPart(j, l) ==> (Key(j, l) in hardlinks <==> Link(j, l) in missing))
    }

    /** checkhardlinks_cb */
    method Check(r: LinkRow)
      requires Valid() && InRange(r)
      modifies this
      ensures Valid()
      ensures missing == if IsLink(r) && Link(r.jobId, r.linkFI) !in old(missing)
                         then old(missing) + [Link(r.jobId, r.linkFI)] else old(missing)
    {
      if r.nlink > 1 {
        if r.linkFI == 0 {
          forall j: JobId, l: nat | IsKeyPart(j, l) ensures Key(j, l) != Key(r.jobId, 0) {
            KeyIsInjective(j, l, r.jobId, 0);
          }
          hardlinks := hardlinks + {Key(r.jobId, 0)};
        } else if r.linkFI > 0 {
          var key := Key(r.jobId, r.linkFI);
          if key !in hardlinks {
            forall j: JobId, l: nat | IsKeyPart(j, l)
              ensures Key(j, l) == key <==> Link(j, l) == Link(r.jobId, r.linkFI)
            {
              KeyIsInjective(j, l, r.jobId, r.linkFI);
            }
            missing := missing + [Link(r.jobId, r.linkFI)];
            hardlinks := hardlinks + {key};
          }
        }
      }
    }

    /** The callback over the whole answer, in any order. */
    method CheckAll(rows: set<LinkRow>)
      requires Valid() && missing == [] && forall r :: r in rows ==> InRange(r)
      modifies this
      ensures Valid() && NoRepeats(missing)
      ensures Queued(missing) == Needed(rows)
    {
      var rest := rows;
      while rest != {}
        invariant Valid() && rest <= rows
        invariant Queued(missing) == Needed(rows - rest)
        decreases |rest|
      {
        var r :| r in rest;
        NeededGrows(rows - rest, r);
        QueuedGrows(missing, Link(r.jobId, r.linkFI));
        assert rows - (rest - {r}) == rows - rest + {r};
        Check(r);
        rest := rest - {r};
      }
      assert rows - rest == rows;
    }
  }

  lemma NeededGrows(rows: set<LinkRow>, r: LinkRow)
    ensures Needed(rows + {r}) == Needed(rows) + (if IsLink(r) then {Link(r.jobId, r.linkFI)} else {})
  {
  }

  // -------------------------------------------------------- sending the queue

  const FLUSH := 500

  function Flatten(stmts: seq<seq<Link>>): seq<Link> {
    if stmts == [] then [] else Flatten(stmts[..|stmts| - 1]) + stmts[|stmts| - 1]
  }

  lemma FlattenSnoc(stmts: seq<seq<Link>>, s: seq<Link>)
    ensures Flatten(stmts + [s]) == Flatten(stmts) + s
  {
  }

  predicate AllFull(stmts: seq<seq<Link>>) {
    forall k :: 0 <= k < |stmts| ==> |stmts[k]| == FLUSH + 1
  }

  lemma TakeOne(missing: seq<Link>, sent: seq<Link>, tmp: seq<Link>, i: nat)
    requires i < |missing| && sent + tmp == missing[..i]
    ensures sent + (tmp + [missing[i]]) == missing[..i + 1]
  {
    assert missing[..i + 1] == missing[..i] + [missing[i]];
    assert sent + (tmp + [missing[i]]) == sent + tmp + [missing[i]];
  }

  /** The INSERT statements for the queue: together they send it once, in order; all but the
      last have 501 rows, and the last is not empty. */
  method SendQueue(missing: seq<Link>) returns (stmts: seq<seq<Link>>)
    ensures Flatten(stmts) == missing
    ensures forall i :: 0 <= i < |stmts| ==> 0 < |stmts[i]| <= 501 && (i < |stmts| - 1 ==> |stmts[i]| == 501)
  {
    stmts := [];
    var first, nb, tmp: seq<Link> := true, 0, [];
    for i := 0 to |missing|
      invariant first <==> tmp == []
      invariant nb == |tmp| <= FLUSH
      invariant Flatten(stmts) + tmp == missing[..i]
      invariant AllFull(stmts)
    {
      TakeOne(missing, Flatten(stmts), tmp, i);
      first := false;
      tmp := tmp + [missing[i]];
      nb := nb + 1;
      if nb - 1 >= FLUSH {
        stmts := Send(stmts, tmp);
        first, nb, tmp := true, 0, [];
      }
    }
    assert missing[..|missing|] == missing;
    if !first {
      stmts := Send(stmts, tmp);
    }
  }

  method Send(stmts: seq<seq<Link>>, tmp: seq<Link>) returns (stmts': seq<seq<Link>>)
    ensures stmts' == stmts + [tmp] && Flatten(stmts') == Flatten(stmts) + tmp && Flatten(stmts') + [] == Flatten(stmts')
  {
    FlattenSnoc(stmts, tmp);
    stmts' := stmts + [tmp];
  }

  // ------------------------------------------------------------- the result

  /** The files that carry the data of the selected links. */
  function Targets(list: seq<OutRow>, files: set<LinkFile>): set<LinkFile> {
    set g | g in files && Link(g.jobId, g.fileIndex) in Needed(Selected(list, files))
  }

  /** On the tables: g is the file that a selected non-directory link points to. */
  lemma TargetsMean(list: seq<OutRow>, files: set<LinkFile>, g: LinkFile)
    ensures g in Targets(list, files) <==> g in files && exists o, f ::
              && o in list && f in files && f.fileId == o.fileId && f.filename != ""
              && f.nlink > 1 && f.linkFI > 0 && g.jobId == o.jobId && g.fileIndex == f.linkFI
  {
    var rows := Selected(list, files);
    forall o, f | o in list && f in files && f.fileId == o.fileId && f.filename != "" && f.nlink > 1 && f.linkFI > 0
      ensures Link(o.jobId, f.linkFI) in Needed(rows)
    {
      assert LinkRow(f.fileId, o.jobId, f.nlink, f.linkFI) in rows;
    }
  }

  ghost predicate UniqueFileIds(files: set<LinkFile>) {
    forall f, g :: f in files && g in files && f.fileId == g.fileId ==> f == g
  }

  /** insert_hardlinks: the list is kept and followed by each target once. */
  method InsertHardlinks(list: seq<OutRow>, files: set<LinkFile>) returns (list': seq<OutRow>)
    requires UniqueFileIds(files) && forall r :: r in Selected(list, files) ==> InRange(r)
    ensures list <= list'
    ensures NoRepeats(list'[|list|..])
    ensures forall o :: o in list'[|list|..] <==> exists g :: g in Targets(list, files) && Out(g) == o
  {
    var collector := new Collector();
    collector.CheckAll(Selected(list, files));
    var stmts := SendQueue(collector.missing);
    var h := Flatten(stmts);
    assert Queued(h) == Needed(Selected(list, files));
    var rest := set g | g in files && Link(g.jobId, g.fileIndex) in h;
    assert rest == Targets(list, files);
    var added := AppendRows(rest);
    list' := list + added;
    assert list'[|list|..] == added;
  }

  method AppendRows(rows: set<LinkFile>) returns (added: seq<OutRow>)
    requires UniqueFileIds(rows)
    ensures NoRepeats(added)
    ensures forall o :: o in added <==> exists g :: g in rows && Out(g) == o
  {
    added := [];
    var rest := rows;
    while rest != {}
      invariant rest <= rows && NoRepeats(added)
      invariant forall o :: o in added <==> exists g :: g in rows - rest && Out(g) == o
      decreases |rest|
    {
      var g :| g in rest;
      assert Out(g) !in added;
      added := added + [Out(g)];
      rest := rest - {g};
    }
  }

  /** Every selected link has its data file in the final list, if the catalog has it. */
  lemma LinksAreComplete(list: seq<OutRow>, files: set<LinkFile>, list': seq<OutRow>,
                         o: OutRow, f: LinkFile, g: LinkFile)
    requires list <= list'
    requires forall x :: x in list'[|list|..] <==> exists t :: t in Targets(list, files) && Out(t) == x
    requires o in list && f in files && f.fileId == o.fileId
    requires f.filename != "" && f.nlink > 1 && f.linkFI > 0
    requires g in files && g.jobId == o.jobId && g.fileIndex == f.linkFI
    ensures OutRow(g.jobId, g.fileIndex, g.fileId) in list'
  {
    var r := LinkRow(f.fileId, o.jobId, f.nlink, f.linkFI);
    assert r in Selected(list, files) && Link(g.jobId, g.fileIndex) in Needed(Selected(list, files));
    assert g in Targets(list, files);
    assert Out(g) in list'[|list|..];
  }

  /** A row is there twice exactly when the data file of a selected link was selected
      itself: the callback files the first of a link group under LinkFI 0, where the
      look-up for its links never finds it. */
  lemma RepeatCondition(list: seq<OutRow>, files: set<LinkFile>, list': seq<OutRow>)
    requires NoRepeats(list) && list <= list' && NoRepeats(list'[|list|..])
    requires forall x :: x in list'[|list|..] <==> exists t :: t in Targets(list, files) && Out(t) == x
    ensures NoRepeats(list') <==> forall t :: t in Targets(list, files) ==> Out(t) !in list
  {
    var added := list'[|list|..];
    assert list' == list + added;
    if t :| t in Targets(list, files) && Out(t) in list {
      var i :| 0 <= i < |list| && list[i] == Out(t);
      assert Out(t) in added;
      var k :| 0 <= k < |added| && added[k] == Out(t);
      assert list'[i] == list'[|list| + k];
    } else {
      forall i, k | 0 <= i < k < |list'| ensures list'[i] != list'[k] {
        assert i < |list| <= k ==> list'[k] == added[k - |list|] && list'[k] in added;
      }
    }
  }

  /** The smallest such selection: a file saved first and a second link to it. */
  lemma OriginalIsAddedAgain()
    ensures var original := LinkFile(10, 1, 1, "a", 2, 0);
            var link := LinkFile(11, 1, 2, "b", 2, 1);
            UniqueFileIds({original, link}) && original in Targets([Out(original), Out(link)], {original, link})
  {
    var original, link := LinkFile(10, 1, 1, "a", 2, 0), LinkFile(11, 1, 2, "b", 2, 1);
    var list, files := [Out(original), Out(link)], {original, link};
    assert list[1] in list;
    assert LinkRow(11, 1, 2, 1) in Selected(list, files);
    assert Link(1, 1) in Needed(Selected(list, files));
  }
}
