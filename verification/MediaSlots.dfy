/**
 Autochanger slots: bdb_create_media_record, bdb_update_media_record and
 bdb_make_inchanger_unique.
 */
module MediaSlots {
  import opened CatalogTables

  type MediaId = nat

  datatype Volume = Volume(name: string, slot: int, inChanger: int, storageId: nat)

  type Media = map<MediaId, Volume>

  /** MEDIA_DBR; sid_group None is the null pointer, MediaId 0 means unknown. */
  datatype Record = Record(mediaId: MediaId, name: string, slot: int, inChanger: int,
                           storageId: nat, sidGroup: Option<set<nat>>)

  /** In the changer, on a real slot of a real storage. */
  predicate Occupies(v: Volume, slot: int, storageId: nat) {
    v.inChanger != 0 && v.slot == slot && slot != 0 && v.storageId == storageId && storageId != 0
  }

  ghost predicate UniqueNames(m: Media) {
    forall a, b :: a in m && b in m && m[a].name == m[b].name ==> a == b
  }

  ghost predicate UniqueSlots(m: Media) {
    forall a, b, slot, storage ::
      a in m && b in m && Occupies(m[a], slot, storage) && Occupies(m[b], slot, storage) ==> a == b
  }

  ghost predicate ValidMedia(m: Media) {
    UniqueNames(m) && UniqueSlots(m) && 0 !in m
  }

  // --------------------------------------------------------------- statements

  predicate Claims(r: Record) {
    r.inChanger != 0 && r.slot != 0 && r.storageId != 0
  }

  function Storages(r: Record): set<nat> {
    match r.sidGroup
    case None => {r.storageId}
    case Some(ids) => ids
  }

  /** The row the UPDATE leaves alone. */
  predicate Spared(r: Record, id: MediaId, v: Volume) {
    if r.mediaId != 0 then id == r.mediaId
    else if r.name != "" then v.name == r.name
    else false
  }

  /** bdb_make_inchanger_unique: the volumes that lose their slot. */
  predicate Evicted(r: Record, id: MediaId, v: Volume) {
    Claims(r) && v.slot == r.slot && v.storageId in Storages(r) && !Spared(r, id, v)
  }

  function MakeInchangerUnique(m: Media, r: Record): Media {
    map id | id in m :: if Evicted(r, id, m[id]) then m[id].(inChanger := 0, slot := 0) else m[id]
  }

  /** UPDATE Media SET ... WHERE VolumeName = name */
  function SetVolume(m: Media, r: Record): Media {
    map id | id in m :: if m[id].name == r.name
                        then Volume(r.name, r.slot, r.inChanger, r.storageId) else m[id]
  }

  function Update(m: Media, r: Record): Media {
    MakeInchangerUnique(SetVolume(m, r), r)
  }

  /** The INSERT of a new volume under key id, which becomes the record's MediaId. */
  function Insert(m: Media, id: MediaId, r: Record): Media {
    MakeInchangerUnique(m[id := Volume(r.name, r.slot, r.inChanger, r.storageId)], r.(mediaId := id))
  }

  // --------------------------------------------------------------- properties

  /** The caller's part: the group of a record that claims a slot holds its storage. */
  ghost predicate Coherent(r: Record) {
    Claims(r) ==> r.storageId in Storages(r)
  }

  /** The row the UPDATE of a record is for is the one it leaves alone. */
  ghost predicate NamesVolume(r: Record, id: MediaId) {
    if r.mediaId != 0 then r.mediaId == id else r.name != ""
  }

  /** An update whose group holds its storage keeps names and slots unique. */
  lemma UpdateKeepsMedia(m: Media, r: Record)
    requires ValidMedia(m) && Coherent(r)
    ensures ValidMedia(Update(m, r))
  {
  }

  /** A creation under a fresh key keeps names and slots unique. */
  lemma InsertKeepsMedia(m: Media, id: MediaId, r: Record)
    requires ValidMedia(m) && id !in m && id != 0 && Coherent(r)
    requires forall k :: k in m ==> m[k].name != r.name
    ensures ValidMedia(Insert(m, id, r)) && Insert(m, id, r).Keys == m.Keys + {id}
    ensures Insert(m, id, r)[id] == Volume(r.name, r.slot, r.inChanger, r.storageId)
  {
  }

  /** The volume an update sets keeps what was set exactly when the record claims no slot
      or names that volume: a MediaId of another volume puts it out of the changer. */
  lemma UpdatedVolumeKeepsSlot(m: Media, r: Record, id: MediaId)
    requires ValidMedia(m) && Coherent(r) && id in m && m[id].name == r.name
    ensures Update(m, r)[id] == Volume(r.name, r.slot, r.inChanger, r.storageId) <==>
            !Claims(r) || NamesVolume(r, id)
  {
  }

  /** Other volumes keep their place unless they sit on the claimed slot of the group, under
      another MediaId than the record's; those are out of the changer. */
  lemma OnlyRivalsAreEvicted(m: Media, r: Record, id: MediaId)
    requires ValidMedia(m) && id in m && m[id].name != r.name
    ensures Update(m, r)[id] ==
            if r.inChanger != 0 && r.slot != 0 && r.storageId != 0 && m[id].slot == r.slot && id != r.mediaId
               && (if r.sidGroup.None? then m[id].storageId == r.storageId else m[id].storageId in r.sidGroup.value)
            then m[id].(inChanger := 0, slot := 0) else m[id]
  {
  }

  /** A group without the record's storage breaks the rule on some table, with a row for
      the record's name under its MediaId if it has one. */
  lemma GroupMustHoldStorage(r: Record) returns (m: Media, id: MediaId)
    requires !Coherent(r)
    ensures ValidMedia(m) && id in m && m[id].name == r.name && (r.mediaId != 0 ==> id == r.mediaId)
    ensures !UniqueSlots(Update(m, r))
  {
    id := if r.mediaId != 0 then r.mediaId else 1;
    var other := Volume(r.name + "x", r.slot, 1, r.storageId);
    m := map[id := Volume(r.name, 0, 0, r.storageId), id + 1 := other];
    assert |other.name| > |r.name|;
    var m' := Update(m, r);
    assert id in m' && id + 1 in m' && m'[id + 1] == other;
    assert Occupies(m'[id], r.slot, r.storageId) && Occupies(m'[id + 1], r.slot, r.storageId);
  }

  /** A record keeps every table valid exactly when its group holds its storage. */
  lemma UpdateExact(r: Record)
    ensures (forall m :: ValidMedia(m) ==> ValidMedia(Update(m, r))) <==> Coherent(r)
  {
    if Coherent(r) {
      forall m | ValidMedia(m) ensures ValidMedia(Update(m, r)) { UpdateKeepsMedia(m, r); }
    } else {
      var m, id := GroupMustHoldStorage(r);
    }
  }

  // ----------------------------------------------------------- runs and table

  datatype MediaOp = CreateMedia(record: Record) | UpdateMedia(record: Record)

  /** Media, and the key the next INSERT is given. */
  datatype MediaState = MediaState(media: Media, nextId: MediaId)

  ghost predicate ValidState(s: MediaState) {
    ValidMedia(s.media) && s.nextId > 0 && forall id :: id in s.media ==> id < s.nextId
  }

  ghost predicate NameTaken(m: Media, name: string) {
    exists k :: k in m && m[k].name == name
  }

  ghost function Step(s: MediaState, op: MediaOp): MediaState {
    match op
    case UpdateMedia(r) => s.(media := Update(s.media, r))
    case CreateMedia(r) =>
      if NameTaken(s.media, r.name) then s
      else MediaState(Insert(s.media, s.nextId, r), s.nextId + 1)
  }

  ghost function RunOps(s: MediaState, ops: seq<MediaOp>): MediaState
    decreases |ops|
  {
    if ops == [] then s else RunOps(Step(s, ops[0]), ops[1..])
  }

  ghost predicate AllCoherent(ops: seq<MediaOp>) {
    forall i :: 0 <= i < |ops| ==> Coherent(ops[i].record)
  }

  lemma StepKeepsMedia(s: MediaState, op: MediaOp)
    requires ValidState(s) && Coherent(op.record)
    ensures ValidState(Step(s, op))
  {
    match op
    case UpdateMedia(r) => UpdateKeepsMedia(s.media, r);
    case CreateMedia(r) =>
      if !NameTaken(s.media, r.name) {
        InsertKeepsMedia(s.media, s.nextId, r);
      }
  }

  /** Over every coherent run volume names stay unique, and no two volumes are in the
      changer on the same slot of the same storage. */
  lemma {:induction false} RunKeepsMedia(s: MediaState, ops: seq<MediaOp>)
    requires ValidState(s) && AllCoherent(ops)
    ensures ValidState(RunOps(s, ops))
    decreases |ops|
  {
    if ops != [] {
      StepKeepsMedia(s, ops[0]);
      RunKeepsMedia(Step(s, ops[0]), ops[1..]);
    }
  }

  class MediaTable {
    var media: Media
    var nextId: MediaId

    constructor ()
      ensures ValidState(State()) && media == map[]
    {
      media, nextId := map[], 1;
    }

    ghost function State(): MediaState
      reads this
    {
      MediaState(media, nextId)
    }

    /** bdb_create_media_record: refused when the name exists. */
    method Create(r: Record) returns (ok: bool, id: MediaId)
      requires ValidState(State()) && Coherent(r)
      modifies this
      ensures ValidState(State()) && State() == Step(old(State()), CreateMedia(r))
      ensures ok <==> !NameTaken(old(media), r.name)
      ensures ok ==> id == old(nextId) && media[id] == Volume(r.name, r.slot, r.inChanger, r.storageId)
    {
      StepKeepsMedia(State(), CreateMedia(r));
      id := 0;
      var same := set k | k in media && media[k].name == r.name;
      ok := same == {};
      if ok {
        forall k | k in media ensures media[k].name != r.name { assert k !in same; }
        id := nextId;
        InsertKeepsMedia(media, id, r);
        media := Insert(media, id, r);
        nextId := nextId + 1;
      } else {
        var k :| k in same;
        assert k in media && media[k].name == r.name;
      }
    }

    /** bdb_update_media_record */
    method UpdateRecord(r: Record)
      requires ValidState(State()) && Coherent(r)
      modifies this`media
      ensures ValidState(State()) && State() == Step(old(State()), UpdateMedia(r))
    {
      StepKeepsMedia(State(), UpdateMedia(r));
      media := Update(media, r);
    }

    /** Any run of creations and updates does to the table what the statements do one by one. */
    method Run(ops: seq<MediaOp>)
      requires ValidState(State()) && AllCoherent(ops)
      modifies this
      ensures ValidState(State()) && State() == RunOps(old(State()), ops)
    {
      for i := 0 to |ops|
        invariant ValidState(State()) && RunOps(State(), ops[i..]) == RunOps(old(State()), ops)
      {
        assert ops[i..][0] == ops[i] && ops[i..][1..] == ops[i + 1..];
        match ops[i] {
          case CreateMedia(r) => var ok, id := Create(r);
          case UpdateMedia(r) => UpdateRecord(r);
        }
      }
    }
  }
}
