/** Theorems about the Cold store over every run: it is a map, reopening it at any
    point finds the same map, and it accounts for its bytes. Torn writes and damaged
    spans are in ColdRecovery, keys that change class in ColdClasses. */
module ColdRuns {
  import opened Prelude
  import opened ColdRecord
  import opened ColdLog
  import opened ColdDisk
  import opened ColdState

  // ------------------------------------------------------------- one append

  lemma TargetIsTarget(cfg: Config, segs: Dir, len: nat)
    ensures IsTarget(segs, Target(cfg, segs, len).0, Target(cfg, segs, len).1)
  {
  }

  lemma TotalOn(disk: Disk, d: Bytes)
    ensures Total(disk) == DirTotal(DirOn(disk, d)) + Total(disk - {d})
  {
    if d in disk {
      TotalWithout(disk, d);
    } else {
      assert disk - {d} == disk;
    }
  }

  lemma DirOnOk(u: Utf8, owner: Bytes -> Bytes, home: Bytes -> Bytes, disk: Disk, d: Bytes)
    requires DiskOk(u, owner, home, disk)
    ensures DirOk(u, owner, home, d, DirOn(disk, d))
    ensures AllClean(u, DirOn(disk, d))
  {
    if d in disk {
      assert DirOk(u, owner, home, d, disk[d]);
    }
  }

  /** Disks that differ in one directory agree on the keys of the others. */
  lemma FindElsewhere(u: Utf8, home: Bytes -> Bytes, disk: Disk, d: Bytes, segs: Dir, k: Bytes)
    requires home(k) != d
    ensures DiskFind(u, home, disk[d := segs], k) == DiskFind(u, home, disk, k)
    ensures ContentFind(u, home, disk[d := segs], k) == ContentFind(u, home, disk, k)
  {
    hide DirEffects, DirContents;
  }

  lemma FindHere(u: Utf8, home: Bytes -> Bytes, disk: Disk, k: Bytes)
    ensures var e, x := DirEffects(u, home(k), DirOn(disk, home(k))), DirContents(u, DirOn(disk, home(k)));
      && DiskFind(u, home, disk, k) == (if k in e then e[k] else None)
      && ContentFind(u, home, disk, k) == (if k in x then x[k] else None)
  {
  }

  /** One record written at a target: the files stay well formed, its key now
      means the new record, every other key means what it meant. */
  lemma WriteRecord(u: Utf8, owner: Bytes -> Bytes, home: Bytes -> Bytes, disk: Disk, d: Bytes, id: nat, offset: nat,
                    r: Bytes)
    requires DiskOk(u, owner, home, disk) && IsTarget(DirOn(disk, d), id, offset)
    requires IsRecord(u, r) && home(KeyOf(u, r)) == d
    requires HeaderOf(u, r).flag == FLAG_VALUE ==> ClassOf(u, r) == owner(KeyOf(u, r))
    ensures var after := disk[d := WriteAt(DirOn(disk, d), id, r)];
      && DiskOk(u, owner, home, after)
      && Total(after) == Total(disk) + |r|
      && forall k :: k != KeyOf(u, r) ==>
        && DiskFind(u, home, after, k) == DiskFind(u, home, disk, k)
        && ContentFind(u, home, after, k) == ContentFind(u, home, disk, k)
    ensures var after := disk[d := WriteAt(DirOn(disk, d), id, r)];
      var isValue := HeaderOf(u, r).flag == FLAG_VALUE;
      && DiskFind(u, home, after, KeyOf(u, r)) ==
        (if isValue then Some(Location(Path(d, id), offset, |r|, ClassOf(u, r))) else None)
      && ContentFind(u, home, after, KeyOf(u, r)) == (if isValue then Some(r) else None)
  {
    hide RecordLen, KeyOf, ClassOf, HeaderOf, DirEffects, DirContents, DirOk, DirTotal, LogEffects, LogContents;
    hide WriteAt, DiskFind, ContentFind, Clean, Owned;
    var segs := DirOn(disk, d);
    var after := disk[d := WriteAt(segs, id, r)];
    DirOnOk(u, owner, home, disk, d);
    RecordIsOwned(u, owner, home, d, r);
    WriteKeepsDirOk(u, owner, home, d, segs, id, offset, r);
    WriteEffects(u, d, segs, id, offset, r);
    RecordEffects(u, Path(d, id), offset, r);
    TotalOn(disk, d);
    TotalUpdate(disk, d, WriteAt(segs, id, r));
    forall k
      ensures k != KeyOf(u, r) ==>
        && DiskFind(u, home, after, k) == DiskFind(u, home, disk, k)
        && ContentFind(u, home, after, k) == ContentFind(u, home, disk, k)
    {
      if home(k) == d {
        FindHere(u, home, disk, k);
        FindHere(u, home, after, k);
      } else {
        FindElsewhere(u, home, disk, d, WriteAt(segs, id, r), k);
      }
    }
    FindHere(u, home, after, KeyOf(u, r));
    assert r[..|r|] == r;
  }

  lemma RecordIsOwned(u: Utf8, owner: Bytes -> Bytes, home: Bytes -> Bytes, d: Bytes, r: Bytes)
    requires IsRecord(u, r) && home(KeyOf(u, r)) == d
    requires HeaderOf(u, r).flag == FLAG_VALUE ==> ClassOf(u, r) == owner(KeyOf(u, r))
    ensures Clean(u, r) && SegmentOwned(u, owner, home, d, r)
  {
    hide KeyOf, ClassOf, HeaderOf;
    assert r[|r|..] == [];
    assert Owned(u, owner, []);
    hide RecordLen;
    RecordEffects(u, Path(d, 0), 0, r);
  }

  // ------------------------------------------------------------ the operations

  /** The state after a successful append, before the index is touched. */
  lemma AppendWritesRecord<V>(cfg: Config, c: Codec<V>, owner: Bytes -> Bytes, s: State, key: Bytes, class_: Bytes,
                              value: Option<V>)
    requires Inv(c, owner, s)
    requires c.utf8(key) && c.utf8(class_) && class_ == owner(key)
    requires Append(cfg, c, s, key, class_, value).1.Ok?
    ensures var (t, location) := Append(cfg, c, s, key, class_, value);
      var home := Home(c, owner);
      var r := BuildRecord(c, key, class_, value).value;
      && DiskOk(c.utf8, owner, home, t.disk)
      && t.bytesOnDisk == Total(t.disk)
      && (forall k :: k != key ==>
        && DiskFind(c.utf8, home, t.disk, k) == DiskFind(c.utf8, home, s.disk, k)
        && ContentFind(c.utf8, home, t.disk, k) == ContentFind(c.utf8, home, s.disk, k))
      && DiskFind(c.utf8, home, t.disk, key) == (if value.Some? then Some(location.value) else None)
      && ContentFind(c.utf8, home, t.disk, key) == (if value.Some? then Some(r) else None)
  {
    hide RecordLen, KeyOf, ClassOf, HeaderOf, BuildRecord, DiskFind, ContentFind, DiskOk, WriteAt, Total;
    var r := BuildRecord(c, key, class_, value).value;
    BuiltRecordIsRecord(c, key, class_, value);
    var d := c.classDir(class_);
    var (id, offset) := Target(cfg, DirOn(s.disk, d), |r|);
    TargetIsTarget(cfg, DirOn(s.disk, d), |r|);
    WriteRecord(c.utf8, owner, Home(c, owner), s.disk, d, id, offset, r);
  }

  lemma IndexAfterUpdate(u: Utf8, home: Bytes -> Bytes, before: Disk, after: Disk, index: Index, updated: Index,
                         key: Bytes)
    requires IndexMatches(u, home, before, index)
    requires forall k :: k != key ==> DiskFind(u, home, after, k) == DiskFind(u, home, before, k)
    requires Find(updated, key) == DiskFind(u, home, after, key)
    requires forall k :: k != key ==> Find(updated, k) == Find(index, k)
    ensures IndexMatches(u, home, after, updated)
  {
    hide DiskFind, Find;
    forall k
      ensures Find(updated, k) == DiskFind(u, home, after, k)
    {
      assert Find(index, k) == DiskFind(u, home, before, k);
    }
  }

  /** Two states with the same last record of `k` give the same answer for it. */
  lemma SameContentSameView<V>(c: Codec<V>, owner: Bytes -> Bytes, s: State, t: State, k: Bytes)
    requires Inv(c, owner, s) && Inv(c, owner, t)
    requires ContentFind(c.utf8, Home(c, owner), t.disk, k) == ContentFind(c.utf8, Home(c, owner), s.disk, k)
    ensures k in View(c, t) <==> k in View(c, s)
    ensures k in View(c, t) ==> View(c, t)[k] == View(c, s)[k]
  {
    hide Inv, View, ContentFind, DecodeValueRecord;
    ViewIsContents(c, owner, s, k);
    ViewIsContents(c, owner, t, k);
  }

  lemma RecordIsUtf8(u: Utf8, r: Bytes)
    requires RecordLen(u, r).Some?
    ensures u(KeyOf(u, r)) && u(ClassOf(u, r))
  {
  }

  lemma OwnedEffects(u: Utf8, owner: Bytes -> Bytes, path: Path, b: Bytes, k: Bytes)
    requires Owned(u, owner, b)
    requires k in LogEffects(u, path, 0, b) && LogEffects(u, path, 0, b)[k].Some?
    ensures LogEffects(u, path, 0, b)[k].value.class_ == owner(k)
  {
    hide RecordLen, KeyOf, ClassOf, HeaderOf, Owned, LogEffects, Replay;
    OwnedReplaySucceeds(u, owner, path, 0, b, map[]);
    ReplayIsOverlay(u, path, 0, b, map[]);
    assert k in Overlay(map[], LogEffects(u, path, 0, b));
  }

  lemma {:induction false} OwnedDirEffects(u: Utf8, owner: Bytes -> Bytes, dir: Bytes, segs: Dir, k: Bytes)
    requires forall i :: 0 <= i < |segs| ==> Owned(u, owner, segs[i].bytes)
    requires k in DirEffects(u, dir, segs) && DirEffects(u, dir, segs)[k].Some?
    ensures DirEffects(u, dir, segs)[k].value.class_ == owner(k)
  {
    hide LogEffects, Owned;
    var last := segs[|segs| - 1];
    if k in LogEffects(u, Path(dir, last.id), 0, last.bytes) {
      OwnedEffects(u, owner, Path(dir, last.id), last.bytes, k);
    } else {
      OwnedDirEffects(u, owner, dir, segs[..|segs| - 1], k);
    }
  }

  /** Indexed keys carry the class they are meant to have. */
  lemma IndexClassIsOwner<V>(c: Codec<V>, owner: Bytes -> Bytes, s: State, k: Bytes)
    requires Inv(c, owner, s) && k in s.index
    ensures s.index[k].class_ == owner(k)
    ensures c.utf8(k) && c.utf8(s.index[k].class_)
  {
    hide RecordLen, KeyOf, ClassOf, HeaderOf, DirEffects, LogEffects, ContentFind, Owned, Clean;
    var home := Home(c, owner);
    assert Find(s.index, k) == DiskFind(c.utf8, home, s.disk, k);
    var d := home(k);
    assert DirOk(c.utf8, owner, home, d, s.disk[d]);
    assert forall i :: 0 <= i < |s.disk[d]| ==> SegmentOwned(c.utf8, owner, home, d, s.disk[d][i].bytes);
    OwnedDirEffects(c.utf8, owner, d, s.disk[d], k);
    IndexPointsAtContent(c, owner, s, k);
    RecordIsUtf8(c.utf8, ContentFind(c.utf8, home, s.disk, k).value);
  }

  lemma AgreeingMaps<X, Y>(a: map<X, Y>, b: map<X, Y>, key: X)
    requires forall k :: k != key ==> (k in b <==> k in a)
    requires forall k :: k != key && k in b ==> b[k] == a[k]
    ensures b == if key in b then a[key := b[key]] else a - {key}
  {
  }

  /** What a change of one key's last record does to the answers. */
  lemma ViewAfterUpdate<V>(c: Codec<V>, owner: Bytes -> Bytes, s: State, t: State, key: Bytes)
    requires Inv(c, owner, s) && Inv(c, owner, t)
    requires forall k :: k != key ==>
      ContentFind(c.utf8, Home(c, owner), t.disk, k) == ContentFind(c.utf8, Home(c, owner), s.disk, k)
    ensures View(c, t) ==
      match ContentFind(c.utf8, Home(c, owner), t.disk, key)
      case None => View(c, s) - {key}
      case Some(r) => View(c, s)[key := DecodeValueRecord(c, r, key)]
  {
    hide Inv, View, ContentFind, DecodeValueRecord;
    ViewIsContents(c, owner, t, key);
    var a, b := View(c, s), View(c, t);
    forall k | k != key
      ensures k in b <==> k in a
      ensures k in b ==> b[k] == a[k]
    {
      SameContentSameView(c, owner, s, t, k);
    }
    AgreeingMaps(a, b, key);
  }

  /** `put` is map update: it stores exactly `entry` under `key` and leaves every
      other key alone; refused, it leaves files, index and byte count as they are.
      It is refused exactly when the record cannot be built or exceeds the quota. */
  lemma PutTheorem<V(!new)>(cfg: Config, c: Codec<V>, owner: Bytes -> Bytes, s: State, key: Bytes, entry: Entry<V>)
    requires Lawful(c) && Inv(c, owner, s)
    requires c.utf8(key) && c.utf8(entry.class_) && entry.class_ == owner(key)
    ensures var (t, err) := Put(cfg, c, s, key, entry);
      && Inv(c, owner, t)
      && View(c, t) == (if err.None? then View(c, s)[key := Ok(entry)] else View(c, s))
      && (err.Some? ==> t.disk == s.disk && t.index == s.index && t.bytesOnDisk == s.bytesOnDisk)
    ensures var r := BuildRecord(c, key, entry.class_, Some(entry.value));
      Put(cfg, c, s, key, entry).1.None? <==> r.Ok? && !OverQuota(cfg, s, |r.value|)
  {
    hide RecordLen, KeyOf, ClassOf, HeaderOf, BuildRecord, DiskFind, ContentFind, DiskOk, WriteAt, Total;
    hide DecodeValueRecord, Lawful, View;
    if key in s.index {
      IndexClassIsOwner(c, owner, s, key);
    }
    var (t, err) := Put(cfg, c, s, key, entry);
    if err.None? {
      var home := Home(c, owner);
      AppendWritesRecord(cfg, c, owner, s, key, entry.class_, Some(entry.value));
      IndexAfterUpdate(c.utf8, home, s.disk, t.disk, s.index, t.index, key);
      BuiltRecordRoundTrip(c, key, entry.class_, entry.value);
      ViewAfterUpdate(c, owner, s, t, key);
    } else {
      SameFilesSameView(c, s, t);
    }
  }

  lemma SameFilesSameView<V>(c: Codec<V>, s: State, t: State)
    requires s.disk == t.disk && s.index == t.index
    ensures View(c, s) == View(c, t)
  {
  }

  /** `remove` takes the key out of the map, tombstones are never refused by the
      quota, and an absent key costs nothing. */
  lemma RemoveTheorem<V>(cfg: Config, c: Codec<V>, owner: Bytes -> Bytes, s: State, key: Bytes)
    requires Inv(c, owner, s)
    ensures var (t, removed) := Remove(cfg, c, s, key);
      && Inv(c, owner, t)
      && View(c, t) == View(c, s) - {key}
      && removed == Ok(key in View(c, s))
      && (key !in s.index ==> t == s)
  {
    if key in s.index {
      RemovePresent(cfg, c, owner, s, key);
    } else {
      assert View(c, s) - {key} == View(c, s);
    }
  }

  lemma RemovePresent<V>(cfg: Config, c: Codec<V>, owner: Bytes -> Bytes, s: State, key: Bytes)
    requires Inv(c, owner, s) && key in s.index
    ensures var (t, removed) := Remove(cfg, c, s, key);
      && Inv(c, owner, t)
      && View(c, t) == View(c, s) - {key}
      && removed == Ok(true) && key in View(c, s)
  {
    hide RecordLen, KeyOf, ClassOf, HeaderOf, DiskFind, ContentFind, DiskOk, WriteAt, Total, BuildRecord;
    hide DecodeValueRecord, EncodeRecord;
    assert key in View(c, s);
    hide View;
    var (t, removed) := Remove(cfg, c, s, key);
    IndexClassIsOwner(c, owner, s, key);
    TombstoneIsAccepted(cfg, c, owner, s, key);
    assert removed == Ok(true) && t.bytesOnDisk == Append(cfg, c, s, key, s.index[key].class_, None).0.bytesOnDisk;
    AppendWritesRecord(cfg, c, owner, s, key, s.index[key].class_, None);
    assert t.disk == Append(cfg, c, s, key, s.index[key].class_, None).0.disk && t.index == s.index - {key};
    hide Append, Remove, Find;
    FindWithout(s.index, key);
    IndexAfterUpdate(c.utf8, Home(c, owner), s.disk, t.disk, s.index, t.index, key);
    ViewAfterUpdate(c, owner, s, t, key);
  }

  lemma FindWithout(index: Index, key: Bytes)
    ensures Find(index - {key}, key) == None
    ensures forall k :: k != key ==> Find(index - {key}, k) == Find(index, k)
  {
  }

  /** The tombstone of an indexed key can always be written. */
  lemma TombstoneIsAccepted<V>(cfg: Config, c: Codec<V>, owner: Bytes -> Bytes, s: State, key: Bytes)
    requires Inv(c, owner, s) && key in s.index
    ensures BuildRecord(c, key, s.index[key].class_, None).Ok?
    ensures Append(cfg, c, s, key, s.index[key].class_, None).1.Ok?
  {
    hide RecordLen, KeyOf, ClassOf, HeaderOf, DiskFind, ContentFind, DiskOk, WriteAt, Total, EncodeRecord, View;
    IndexPointsAtContent(c, owner, s, key);
    RecordFieldsFit(c.utf8, ContentFind(c.utf8, Home(c, owner), s.disk, key).value);
    hide Inv;
  }

  lemma RecordFieldsFit(u: Utf8, r: Bytes)
    requires RecordLen(u, r).Some?
    ensures LenOk(|KeyOf(u, r)|, MAX_FIELD_BYTES) && LenOk(|ClassOf(u, r)|, MAX_FIELD_BYTES)
  {
  }

  // -------------------------------------------------------------- accounting

  /** Bytes: a successful put adds its record and ends within the disk limit (a
      limit of 2^64 - 1 never binds, because the source saturates its sum); a
      quota rejection changes only its counter. */
  lemma PutAccounting<V>(cfg: Config, c: Codec<V>, s: State, key: Bytes, entry: Entry<V>)
    ensures var (t, err) := Put(cfg, c, s, key, entry);
      && (err.None? ==>
        && t.bytesOnDisk == s.bytesOnDisk + |BuildRecord(c, key, entry.class_, Some(entry.value)).value|
        && (cfg.maxDiskBytes.Some? && cfg.maxDiskBytes.value < U64_MAX ==> t.bytesOnDisk <= cfg.maxDiskBytes.value))
      && (err.Some? && err.value.QuotaExceeded? ==> t == s.(quotaRejections := SatAdd(s.quotaRejections, 1)))
      && (err.Some? && !err.value.QuotaExceeded? ==> t == s)
  {
    hide EncodeRecord;
  }

  /** Rotation: an append takes no nonempty segment past the segment limit, and
      touches no other segment and no other directory. (The source saturates its sum,
      so a limit of 2^64 - 1 never rotates.) */
  lemma AppendRotates<V>(cfg: Config, c: Codec<V>, s: State, key: Bytes, class_: Bytes, value: Option<V>)
    requires Append(cfg, c, s, key, class_, value).1.Ok?
    ensures var (t, location) := Append(cfg, c, s, key, class_, value);
      var d := c.classDir(class_);
      var before, after := DirOn(s.disk, d), DirOn(t.disk, d);
      && t.disk - {d} == s.disk - {d}
      && |before| <= |after| <= |before| + 1 && after != []
      && (forall i :: 0 <= i < |after| - 1 ==> i < |before| && after[i] == before[i])
      && (|after| == |before| ==> after[|after| - 1].id == before[|after| - 1].id)
      && var last := after[|after| - 1];
        && last.id == location.value.path.id
        && last.bytes[location.value.offset..] == BuildRecord(c, key, class_, value).value
        && if cfg.segmentMaxBytes < U64_MAX then |last.bytes| <= cfg.segmentMaxBytes || location.value.offset == 0
           else |after| == if before == [] then 1 else |before|
  {
    hide BuildRecord;
  }

  // -------------------------------------------------------------------- runs

  datatype Op<V> =
    | PutOp(key: Bytes, entry: Entry<V>)
    | RemoveOp(key: Bytes)
    | ReopenOp(order: seq<Bytes>)  // close, and open again visiting the directories in this order

  /** Keys and classes are strings, and every key keeps its class. */
  ghost predicate Fits<V>(c: Codec<V>, owner: Bytes -> Bytes, op: Op<V>)
  {
    op.PutOp? ==> c.utf8(op.key) && c.utf8(op.entry.class_) && op.entry.class_ == owner(op.key)
  }

  /** One operation, and whether it was accepted. */
  ghost function RunOne<V>(cfg: Config, c: Codec<V>, s: State, op: Op<V>): (State, bool)
  {
    match op
    case PutOp(key, entry) =>
      var (t, err) := Put(cfg, c, s, key, entry);
      (t, err.None?)
    case RemoveOp(key) =>
      var (t, removed) := Remove(cfg, c, s, key);
      (t, removed.Ok?)
    case ReopenOp(order) =>
      if !Enumerates(order, s.disk) then (s, false) else
      match Rebuild(c.utf8, s.disk, order)
      case None => (s, false)
      case Some(r) => (State(r.disk, r.index, r.bytesOnDisk, 0), true)
  }

  ghost function Run<V>(cfg: Config, c: Codec<V>, s: State, ops: seq<Op<V>>): State
  {
    if ops == [] then s else RunOne(cfg, c, Run(cfg, c, s, ops[..|ops| - 1]), ops[|ops| - 1]).0
  }

  /** The same run on a plain map, told which operations were accepted. */
  ghost function PlainRun<V>(cfg: Config, c: Codec<V>, s: State, ops: seq<Op<V>>)
    : map<Bytes, Result<Entry<V>, ColdError>>
  {
    if ops == [] then View(c, s) else
    var before := ops[..|ops| - 1];
    var m := PlainRun(cfg, c, s, before);
    match ops[|ops| - 1]
    case PutOp(key, entry) =>
      if RunOne(cfg, c, Run(cfg, c, s, before), ops[|ops| - 1]).1 then m[key := Ok(entry)] else m
    case RemoveOp(key) => m - {key}
    case ReopenOp(_) => m
  }

  lemma ReopenKeepsState<V>(c: Codec<V>, owner: Bytes -> Bytes, s: State, order: seq<Bytes>)
    requires Inv(c, owner, s) && Enumerates(order, s.disk)
    ensures Rebuild(c.utf8, s.disk, order) == Some(Rebuilt(s.disk, s.index, s.bytesOnDisk, 0))
  {
    ReopenIsIdentity(c.utf8, owner, Home(c, owner), s.disk, s.index, order);
  }

  lemma ReopenOneKeepsInv<V>(cfg: Config, c: Codec<V>, owner: Bytes -> Bytes, s: State, order: seq<Bytes>)
    requires Inv(c, owner, s)
    ensures var t := RunOne(cfg, c, s, ReopenOp(order)).0; Inv(c, owner, t) && View(c, t) == View(c, s)
  {
    hide View, Rebuild;
    if Enumerates(order, s.disk) {
      ReopenKeepsState(c, owner, s, order);
      SameFilesSameView(c, s, RunOne(cfg, c, s, ReopenOp(order)).0);
    }
  }

  lemma RunOneKeepsInv<V(!new)>(cfg: Config, c: Codec<V>, owner: Bytes -> Bytes, s: State, op: Op<V>)
    requires Lawful(c) && Inv(c, owner, s) && Fits(c, owner, op)
    ensures var (t, accepted) := RunOne(cfg, c, s, op);
      && Inv(c, owner, t)
      && View(c, t) ==
        match op
        case PutOp(key, entry) => if accepted then View(c, s)[key := Ok(entry)] else View(c, s)
        case RemoveOp(key) => View(c, s) - {key}
        case ReopenOp(_) => View(c, s)
  {
    hide View, Put, Remove, Rebuild;
    match op {
      case PutOp(key, entry) =>
        PutTheorem(cfg, c, owner, s, key, entry);
        hide Inv, Lawful;
      case RemoveOp(key) =>
        RemoveTheorem(cfg, c, owner, s, key);
        hide Inv, Lawful;
      case ReopenOp(order) =>
        ReopenOneKeepsInv(cfg, c, owner, s, order);
        hide Inv, Lawful, RunOne;
    }
  }

  /** Over every run of puts, removes and reopenings the store answers as a plain
      map does, and reopening it afterwards, in any directory order, finds the very
      same index and touches no byte. */
  lemma {:induction false} RunTheorem<V(!new)>(cfg: Config, c: Codec<V>, owner: Bytes -> Bytes, s: State,
                                               ops: seq<Op<V>>)
    requires Lawful(c) && Inv(c, owner, s)
    requires forall i :: 0 <= i < |ops| ==> Fits(c, owner, ops[i])
    ensures var t := Run(cfg, c, s, ops);
      && Inv(c, owner, t)
      && View(c, t) == PlainRun(cfg, c, s, ops)
      && forall order :: Enumerates(order, t.disk) ==>
        Rebuild(c.utf8, t.disk, order) == Some(Rebuilt(t.disk, t.index, t.bytesOnDisk, 0))
  {
    hide View, RunOne, Rebuild, Inv;
    if ops != [] {
      var before := ops[..|ops| - 1];
      RunTheorem(cfg, c, owner, s, before);
      RunOneKeepsInv(cfg, c, owner, Run(cfg, c, s, before), ops[|ops| - 1]);
    }
    var t := Run(cfg, c, s, ops);
    forall order | Enumerates(order, t.disk)
      ensures Rebuild(c.utf8, t.disk, order) == Some(Rebuilt(t.disk, t.index, t.bytesOnDisk, 0))
    {
      ReopenKeepsState(c, owner, t, order);
    }
  }

  /** A store opened on an empty directory is a start of such runs. */
  lemma EmptyStoreIsStart<V>(c: Codec<V>, owner: Bytes -> Bytes)
    ensures Inv(c, owner, State(map[], map[], 0, 0))
    ensures View(c, State(map[], map[], 0, 0)) == map[]
  {
  }

  /** So is a store opened on any files, however damaged, whose surviving records
      keep one class per key. */
  lemma OpenedStoreIsStart<V>(c: Codec<V>, owner: Bytes -> Bytes, disk: Disk, order: seq<Bytes>)
    requires SurvivorsOwned(c.utf8, owner, Home(c, owner), disk) && Enumerates(order, disk)
    ensures Rebuild(c.utf8, disk, order).Some?
    ensures var r := Rebuild(c.utf8, disk, order).value;
      Inv(c, owner, State(r.disk, r.index, r.bytesOnDisk, 0))
  {
    RebuildTheorem(c.utf8, owner, Home(c, owner), disk, order);
  }
}
