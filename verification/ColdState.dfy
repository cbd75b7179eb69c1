/** The Cold store as a state: what put, remove and get do to the files and the
    index, and what the files say a key means. What holds over every run is in
    ColdRuns.

    The state leaves out the two caches of the source, the open writers and the
    memory maps; ColdStore shows that they do not change any result. */
module ColdState {
  import opened Prelude
  import opened ColdRecord
  import opened ColdLog
  import opened ColdDisk

  datatype Config = Config(segmentMaxBytes: nat, maxDiskBytes: Option<nat>)

  datatype State = State(disk: Disk, index: Index, bytesOnDisk: nat, quotaRejections: nat)

  // ------------------------------------------------------------ operations

  function DirOn(disk: Disk, d: Bytes): Dir
  {
    if d in disk then disk[d] else []
  }

  /** The segment the next record of `len` bytes goes to, and its offset there. */
  function Target(cfg: Config, segs: Dir, len: nat): (nat, nat)
  {
    var id := if segs == [] then 0 else segs[|segs| - 1].id;
    var size := if segs == [] then 0 else |segs[|segs| - 1].bytes|;
    if size > 0 && SatAdd(size, len) > cfg.segmentMaxBytes then (id + 1, 0) else (id, size)
  }

  /** Appending `r` to segment `id`, which is the last one or a new one. */
  function WriteAt(segs: Dir, id: nat, r: Bytes): Dir
  {
    if segs != [] && segs[|segs| - 1].id == id
    then segs[..|segs| - 1] + [Segment(id, segs[|segs| - 1].bytes + r)]
    else segs + [Segment(id, r)]
  }

  function OverQuota(cfg: Config, s: State, len: nat): bool
  {
    cfg.maxDiskBytes.Some? && SatAdd(s.bytesOnDisk, len) > cfg.maxDiskBytes.value
  }

  /** `append_record`; the quota binds values only, never tombstones. */
  function Append<V>(cfg: Config, c: Codec<V>, s: State, key: Bytes, class_: Bytes, value: Option<V>)
    : (State, Result<Location, ColdError>)
  {
    match BuildRecord(c, key, class_, value)
    case Err(e) => (s, Err(e))
    case Ok(r) =>
      if value.Some? && OverQuota(cfg, s, |r|) then
        (s.(quotaRejections := SatAdd(s.quotaRejections, 1)),
         Err(QuotaExceeded(s.bytesOnDisk, |r|, cfg.maxDiskBytes.value)))
      else
        var d := c.classDir(class_);
        var segs := DirOn(s.disk, d);
        var (id, offset) := Target(cfg, segs, |r|);
        (s.(disk := s.disk[d := WriteAt(segs, id, r)], bytesOnDisk := s.bytesOnDisk + |r|),
         Ok(Location(Path(d, id), offset, |r|, class_)))
  }

  function Put<V>(cfg: Config, c: Codec<V>, s: State, key: Bytes, entry: Entry<V>): (State, Option<ColdError>)
  {
    if key in s.index && s.index[key].class_ != entry.class_ then (s, Some(ClassMismatch)) else
    var (t, r) := Append(cfg, c, s, key, entry.class_, Some(entry.value));
    match r
    case Err(e) => (t, Some(e))
    case Ok(location) => (t.(index := t.index[key := location]), None)
  }

  function Remove<V>(cfg: Config, c: Codec<V>, s: State, key: Bytes): (State, Result<bool, ColdError>)
  {
    if key !in s.index then (s, Ok(false)) else
    var (t, r) := Append(cfg, c, s, key, s.index[key].class_, None);
    match r
    case Err(e) => (t, Err(e))
    case Ok(_) => (t.(index := t.index - {key}), Ok(true))
  }

  /** The bytes of segment `id`. */
  function SegmentBytes(segs: Dir, id: nat): (r: Option<Bytes>)
    ensures r.Some? ==> exists i :: 0 <= i < |segs| && segs[i] == Segment(id, r.value)
  {
    if segs == [] then None
    else if segs[|segs| - 1].id == id then
      assert segs[|segs| - 1] == Segment(id, segs[|segs| - 1].bytes);
      Some(segs[|segs| - 1].bytes)
    else
      var r := SegmentBytes(segs[..|segs| - 1], id);
      assert r.Some? ==> exists i :: 0 <= i < |segs| && segs[i] == Segment(id, r.value) by {
        if r.Some? {
          var i :| 0 <= i < |segs| - 1 && segs[..|segs| - 1][i] == Segment(id, r.value);
          assert segs[i] == Segment(id, r.value);
        }
      }
      r
  }

  /** The bytes at a location, as `read_exact` finds them. */
  function ReadAt(disk: Disk, location: Location): Option<Bytes>
  {
    match SegmentBytes(DirOn(disk, location.path.dir), location.path.id)
    case None => None
    case Some(b) =>
      if location.offset + location.totalLen > |b| then None
      else Some(b[location.offset..location.offset + location.totalLen])
  }

  function ReadLocation<V>(c: Codec<V>, disk: Disk, key: Bytes, location: Location): Result<Entry<V>, ColdError>
  {
    match ReadAt(disk, location)
    case None => Err(Io)
    case Some(b) => DecodeValueRecord(c, b, key)
  }

  function Get<V>(c: Codec<V>, s: State, key: Bytes): Result<Option<Entry<V>>, ColdError>
  {
    if key !in s.index then Ok(None) else
    match ReadLocation(c, s.disk, key, s.index[key])
    case Err(e) => Err(e)
    case Ok(entry) => Ok(Some(entry))
  }

  /** What `get` answers for every indexed key. */
  function View<V>(c: Codec<V>, s: State): map<Bytes, Result<Entry<V>, ColdError>>
  {
    map k | k in s.index :: ReadLocation(c, s.disk, k, s.index[k])
  }

  /** The directory a key lives in, when it keeps its class. */
  function Home<V>(c: Codec<V>, owner: Bytes -> Bytes): Bytes -> Bytes
  {
    k => c.classDir(owner(k))
  }

  /** The files are clean, the index says what they say, the bytes are counted. */
  ghost predicate Inv<V>(c: Codec<V>, owner: Bytes -> Bytes, s: State)
  {
    && DiskOk(c.utf8, owner, Home(c, owner), s.disk)
    && IndexMatches(c.utf8, Home(c, owner), s.disk, s.index)
    && s.bytesOnDisk == Total(s.disk)
  }

  // -------------------------------------------------------------- contents

  /** Last record, or removal, of every key a log mentions. */
  type Contents = map<Bytes, Option<Bytes>>

  function ContentOf(u: Utf8, r: Bytes): Contents
    requires RecordLen(u, r).Some?
  {
    map[KeyOf(u, r) := if HeaderOf(u, r).flag == FLAG_VALUE then Some(r[..RecordLen(u, r).value]) else None]
  }

  function LogContents(u: Utf8, b: Bytes): Contents
    decreases |b|
  {
    match RecordLen(u, b)
    case None => map[]
    case Some(n) => ContentOf(u, b) + LogContents(u, b[n..])
  }

  function DirContents(u: Utf8, segs: Dir): Contents
  {
    if segs == [] then map[] else
    DirContents(u, segs[..|segs| - 1]) + LogContents(u, segs[|segs| - 1].bytes)
  }

  /** An effect and a content agree: same key removed, or a location whose bytes
      are that record, a value record of that key and class. */
  ghost predicate Agree(u: Utf8, k: Bytes, e: Option<Location>, content: Option<Bytes>, path: Path, base: nat, b: Bytes)
  {
    && (e.None? <==> content.None?)
    && (e.Some? ==>
      && e.value.path == path
      && base <= e.value.offset && e.value.offset - base + e.value.totalLen <= |b|
      && content.value == b[e.value.offset - base..e.value.offset - base + e.value.totalLen]
      && IsRecord(u, content.value) && KeyOf(u, content.value) == k
      && ClassOf(u, content.value) == e.value.class_)
  }

  /** The record `r` at the front of `b` has the effect and the content that `b` begins with. */
  lemma FirstEffectAgrees(u: Utf8, path: Path, base: nat, b: Bytes, r: Bytes)
    requires r <= b && RecordLen(u, b) == RecordLen(u, r) == Some(|r|)
    requires KeyOf(u, r) == KeyOf(u, b) && ClassOf(u, r) == ClassOf(u, b)
    ensures EffectOf(u, path, base, b).Keys == ContentOf(u, b).Keys == {KeyOf(u, b)}
    ensures Agree(u, KeyOf(u, b), EffectOf(u, path, base, b)[KeyOf(u, b)], ContentOf(u, b)[KeyOf(u, b)], path, base, b)
  {
    hide RecordLen, KeyOf, ClassOf, HeaderOf;
    assert b[..|r|] == r == b[0..|r|];
  }

  lemma {:induction false} EffectsAgree(u: Utf8, path: Path, base: nat, b: Bytes)
    ensures LogEffects(u, path, base, b).Keys == LogContents(u, b).Keys
    ensures forall k :: k in LogEffects(u, path, base, b) ==>
      Agree(u, k, LogEffects(u, path, base, b)[k], LogContents(u, b)[k], path, base, b)
    decreases |b|
  {
    hide RecordLen, KeyOf, ClassOf, HeaderOf, EffectOf, ContentOf, Agree;
    match RecordLen(u, b) {
      case None =>
      case Some(n) =>
        FirstRecord(u, b);
        assert b[..n][..n] == b[..n];
        RecordIsLocal(u, b, b[..n]);
        FirstEffectAgrees(u, path, base, b, b[..n]);
        EffectsAgree(u, path, base + n, b[n..]);
        forall k | k in LogEffects(u, path, base, b)
          ensures k in LogContents(u, b)
          ensures Agree(u, k, LogEffects(u, path, base, b)[k], LogContents(u, b)[k], path, base, b)
        {
          if k in LogEffects(u, path, base + n, b[n..]) {
            AgreeShift(u, k, LogEffects(u, path, base + n, b[n..])[k], LogContents(u, b[n..])[k], path, base, b, n);
          }
        }
    }
  }

  lemma AgreeShift(u: Utf8, k: Bytes, e: Option<Location>, content: Option<Bytes>, path: Path, base: nat, b: Bytes,
                   n: nat)
    requires n <= |b| && Agree(u, k, e, content, path, base + n, b[n..])
    ensures Agree(u, k, e, content, path, base, b)
  {
    hide RecordLen, KeyOf, ClassOf, HeaderOf;
    if e.Some? {
      var i := e.value.offset - base;
      assert b[n..][i - n..i - n + e.value.totalLen] == b[i..i + e.value.totalLen];
    }
  }

  ghost predicate AgreeInDir(u: Utf8, dir: Bytes, segs: Dir, k: Bytes, e: Option<Location>, content: Option<Bytes>)
  {
    && (e.None? <==> content.None?)
    && (e.Some? ==>
      && e.value.path.dir == dir
      && SegmentBytes(segs, e.value.path.id).Some?
      && Agree(u, k, e, content, e.value.path, 0, SegmentBytes(segs, e.value.path.id).value))
  }

  /** Every effect of a directory points at the bytes of the key's last record. */
  lemma {:induction false} DirEffectsAgree(u: Utf8, dir: Bytes, segs: Dir)
    requires Ascending(segs)
    ensures DirEffects(u, dir, segs).Keys == DirContents(u, segs).Keys
    ensures forall k :: k in DirEffects(u, dir, segs) ==>
      AgreeInDir(u, dir, segs, k, DirEffects(u, dir, segs)[k], DirContents(u, segs)[k])
  {
    hide LogEffects, LogContents, Agree;
    if segs != [] {
      var last := segs[|segs| - 1];
      var path := Path(dir, last.id);
      var rest := segs[..|segs| - 1];
      DirEffectsAgree(u, dir, rest);
      EffectsAgree(u, path, 0, last.bytes);
      forall k | k in DirEffects(u, dir, segs)
        ensures k in DirContents(u, segs)
        ensures AgreeInDir(u, dir, segs, k, DirEffects(u, dir, segs)[k], DirContents(u, segs)[k])
      {
        if k in LogEffects(u, path, 0, last.bytes) {
          AgreePath(u, k, LogEffects(u, path, 0, last.bytes)[k], LogContents(u, last.bytes)[k], path, last.bytes);
        }
      }
    }
  }

  lemma AgreePath(u: Utf8, k: Bytes, e: Option<Location>, content: Option<Bytes>, path: Path, b: Bytes)
    requires Agree(u, k, e, content, path, 0, b)
    ensures e.None? <==> content.None?
    ensures e.Some? ==> e.value.path == path
  {
    hide RecordLen, KeyOf, ClassOf, HeaderOf;
  }

  /** The last record of `k` on the disk. */
  function ContentFind(u: Utf8, home: Bytes -> Bytes, disk: Disk, k: Bytes): Option<Bytes>
  {
    var d := home(k);
    if d in disk && k in DirContents(u, disk[d]) then DirContents(u, disk[d])[k] else None
  }

  lemma DiskFindPointsAtContent(u: Utf8, owner: Bytes -> Bytes, home: Bytes -> Bytes, disk: Disk, k: Bytes)
    requires DiskOk(u, owner, home, disk)
    ensures ContentFind(u, home, disk, k).Some? <==> DiskFind(u, home, disk, k).Some?
    ensures DiskFind(u, home, disk, k).Some? ==>
      var r := ContentFind(u, home, disk, k).value;
      var location := DiskFind(u, home, disk, k).value;
      && ReadAt(disk, location) == Some(r)
      && IsRecord(u, r) && KeyOf(u, r) == k && ClassOf(u, r) == location.class_
  {
    hide RecordLen, KeyOf, ClassOf, HeaderOf, DirEffects, DirContents, Clean, SegmentOwned, SegmentBytes;
    var d := home(k);
    if d in disk {
      assert DirOk(u, owner, home, d, disk[d]);
      DirEffectsAgree(u, d, disk[d]);
    }
  }

  /** The index points at the last record of each key, and of its own class. */
  lemma IndexPointsAtContent<V>(c: Codec<V>, owner: Bytes -> Bytes, s: State, k: Bytes)
    requires Inv(c, owner, s)
    ensures ContentFind(c.utf8, Home(c, owner), s.disk, k).Some? <==> k in s.index
    ensures k in s.index ==>
      var r := ContentFind(c.utf8, Home(c, owner), s.disk, k).value;
      && ReadAt(s.disk, s.index[k]) == Some(r)
      && IsRecord(c.utf8, r) && KeyOf(c.utf8, r) == k && ClassOf(c.utf8, r) == s.index[k].class_
  {
    hide RecordLen, KeyOf, ClassOf, HeaderOf, DiskFind, ContentFind, DiskOk, Home, ReadAt;
    var home := Home(c, owner);
    DiskFindPointsAtContent(c.utf8, owner, home, s.disk, k);
    assert Find(s.index, k) == DiskFind(c.utf8, home, s.disk, k);
  }

  /** `get` answers with the decoded last record of the key. */
  lemma ViewIsContents<V>(c: Codec<V>, owner: Bytes -> Bytes, s: State, k: Bytes)
    requires Inv(c, owner, s)
    ensures ContentFind(c.utf8, Home(c, owner), s.disk, k).Some? <==> k in View(c, s)
    ensures k in View(c, s) ==>
      View(c, s)[k] == DecodeValueRecord(c, ContentFind(c.utf8, Home(c, owner), s.disk, k).value, k)
  {
    hide RecordLen, KeyOf, ClassOf, HeaderOf, Inv, ContentFind, DecodeValueRecord, ReadAt;
    IndexPointsAtContent(c, owner, s, k);
  }

  // ------------------------------------------------------- writing a record

  lemma {:induction false} LogContentsConcat(u: Utf8, a: Bytes, t: Bytes)
    requires Clean(u, a)
    ensures LogContents(u, a + t) == LogContents(u, a) + LogContents(u, t)
    decreases |a|
  {
    hide RecordLen, KeyOf, ClassOf, HeaderOf, Clean, ContentOf;
    if a == [] {
      assert a + t == t;
    } else {
      CleanStep(u, a, t);
      var n := RecordLen(u, a).value;
      LogContentsConcat(u, a[n..], t);
      SameFirstContent(u, a, t);
      hide LogContents;
      MergeContents(ContentOf(u, a), LogContents(u, a[n..]), LogContents(u, t));
    }
  }

  lemma SameFirstContent(u: Utf8, a: Bytes, t: Bytes)
    requires Clean(u, a) && a != []
    ensures RecordLen(u, a).Some?
    ensures var n := RecordLen(u, a).value;
      && LogContents(u, a) == ContentOf(u, a) + LogContents(u, a[n..])
      && LogContents(u, a + t) == ContentOf(u, a) + LogContents(u, a[n..] + t)
  {
    hide RecordLen, KeyOf, ClassOf, HeaderOf, Clean;
    CleanStep(u, a, t);
    CutInFirst(a, t, RecordLen(u, a).value);
  }

  lemma MergeContents(a: Contents, b: Contents, c: Contents)
    ensures a + (b + c) == (a + b) + c
  {
  }

  lemma RecordEffects(u: Utf8, path: Path, base: nat, r: Bytes)
    requires IsRecord(u, r)
    ensures LogEffects(u, path, base, r) == EffectOf(u, path, base, r)
    ensures LogContents(u, r) == ContentOf(u, r)
  {
    hide KeyOf, ClassOf, HeaderOf;
    assert r[|r|..] == [];
    assert RecordLen(u, []).None?;
    hide RecordLen;
  }

  ghost predicate AllClean(u: Utf8, segs: Dir)
  {
    forall i :: 0 <= i < |segs| ==> Clean(u, segs[i].bytes)
  }

  /** What a target can be: the end of the last segment, or a new segment. */
  ghost predicate IsTarget(segs: Dir, id: nat, offset: nat)
  {
    if segs != [] && segs[|segs| - 1].id == id then offset == |segs[|segs| - 1].bytes|
    else offset == 0 && (segs == [] || id > segs[|segs| - 1].id)
  }

  lemma ExtendEffects(u: Utf8, dir: Bytes, rest: Dir, id: nat, b: Bytes, t: Bytes)
    requires Clean(u, b)
    ensures var segs := rest + [Segment(id, b)];
      var out := rest + [Segment(id, b + t)];
      && DirEffects(u, dir, out) == DirEffects(u, dir, segs) + LogEffects(u, Path(dir, id), |b|, t)
      && DirContents(u, out) == DirContents(u, segs) + LogContents(u, t)
      && DirTotal(out) == DirTotal(segs) + |t|
  {
    hide *;
    PushEffects(u, dir, rest, id, b);
    PushEffects(u, dir, rest, id, b + t);
    LogEffectsConcat(u, Path(dir, id), 0, b, t);
    LogContentsConcat(u, b, t);
    MergeIsAssociative(DirEffects(u, dir, rest), LogEffects(u, Path(dir, id), 0, b),
                       LogEffects(u, Path(dir, id), |b|, t));
    MergeContents(DirContents(u, rest), LogContents(u, b), LogContents(u, t));
  }

  lemma PushEffects(u: Utf8, dir: Bytes, segs: Dir, id: nat, t: Bytes)
    ensures var out := segs + [Segment(id, t)];
      && DirEffects(u, dir, out) == DirEffects(u, dir, segs) + LogEffects(u, Path(dir, id), 0, t)
      && DirContents(u, out) == DirContents(u, segs) + LogContents(u, t)
      && DirTotal(out) == DirTotal(segs) + |t|
  {
    hide LogEffects, LogContents;
    var out := segs + [Segment(id, t)];
    assert out[..|out| - 1] == segs;
  }

  /** Bytes written at a target add their effects and contents at the end. */
  lemma WriteEffects(u: Utf8, dir: Bytes, segs: Dir, id: nat, offset: nat, t: Bytes)
    requires AllClean(u, segs) && IsTarget(segs, id, offset)
    ensures DirEffects(u, dir, WriteAt(segs, id, t)) ==
      DirEffects(u, dir, segs) + LogEffects(u, Path(dir, id), offset, t)
    ensures DirContents(u, WriteAt(segs, id, t)) == DirContents(u, segs) + LogContents(u, t)
    ensures DirTotal(WriteAt(segs, id, t)) == DirTotal(segs) + |t|
  {
    hide LogEffects, LogContents, Clean, DirEffects, DirContents, DirTotal;
    if segs != [] && segs[|segs| - 1].id == id {
      var rest, b := segs[..|segs| - 1], segs[|segs| - 1].bytes;
      ExtendEffects(u, dir, rest, id, b, t);
      assert segs == rest + [Segment(id, b)];
    } else {
      PushEffects(u, dir, segs, id, t);
    }
  }

  /** Writing clean, owned bytes at a target keeps the directory well formed. */
  lemma WriteKeepsDirOk(u: Utf8, owner: Bytes -> Bytes, home: Bytes -> Bytes, dir: Bytes, segs: Dir, id: nat,
                        offset: nat, t: Bytes)
    requires DirOk(u, owner, home, dir, segs) && IsTarget(segs, id, offset)
    requires Clean(u, t) && SegmentOwned(u, owner, home, dir, t)
    ensures DirOk(u, owner, home, dir, WriteAt(segs, id, t))
  {
    hide LogEffects, Clean, Owned;
    var out := WriteAt(segs, id, t);
    forall i | 0 <= i < |out|
      ensures Clean(u, out[i].bytes) && SegmentOwned(u, owner, home, dir, out[i].bytes)
    {
      if i < |segs| && out[i] != segs[i] {
        var b := segs[i].bytes;
        CleanConcat(u, b, t);
        OwnedConcat(u, owner, b, t);
        LogEffectsConcat(u, Path(dir, 0), 0, b, t);
        EffectKeysOnly(u, Path(dir, 0), Path(dir, 0), |b|, 0, t);
      }
    }
  }
}
