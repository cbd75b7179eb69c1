/** The files of a Cold store and the rebuild of its index.

    A class directory is the list of its segments in ascending id order, which is
    the order in which the source sorts their names (see ColdNames). The source
    visits the class directories in the order of their names; the theorems here hold for
    every order. */
module ColdDisk {
  import opened Prelude
  import opened ColdRecord
  import opened ColdLog

  datatype Segment = Segment(id: nat, bytes: Bytes)

  type Dir = seq<Segment>

  type Disk = map<Bytes, Dir>

  ghost predicate Ascending(segs: Dir)
  {
    forall i, j :: 0 <= i < j < |segs| ==> segs[i].id < segs[j].id
  }

  function DirTotal(segs: Dir): nat
  {
    if segs == [] then 0 else DirTotal(segs[..|segs| - 1]) + |segs[|segs| - 1].bytes|
  }

  /** Last word of a class directory on each key it mentions. */
  function DirEffects(u: Utf8, dir: Bytes, segs: Dir): Effects
  {
    if segs == [] then map[] else
    var last := segs[|segs| - 1];
    DirEffects(u, dir, segs[..|segs| - 1]) + LogEffects(u, Path(dir, last.id), 0, last.bytes)
  }

  // --------------------------------------------------------------- opening

  datatype OpenedDir = OpenedDir(segs: Dir, index: Index, bytes: nat, salvaged: nat)

  /** The inner loop of `rebuild_index`, over the segments of one directory. */
  function OpenDir(u: Utf8, dir: Bytes, segs: Dir, index: Index): Option<OpenedDir>
  {
    if segs == [] then Some(OpenedDir([], index, 0, 0)) else
    var last := segs[|segs| - 1];
    match OpenDir(u, dir, segs[..|segs| - 1], index)
    case None => None
    case Some(o) =>
      match OpenSegment(u, Path(dir, last.id), last.bytes, o.index)
      case None => None
      case Some(s) =>
        Some(OpenedDir(o.segs + [Segment(last.id, s.bytes)], s.index, o.bytes + |s.bytes|,
                       o.salvaged + if s.salvaged then 1 else 0))
  }

  datatype Rebuilt = Rebuilt(disk: Disk, index: Index, bytesOnDisk: nat, salvaged: nat)

  /** `rebuild_index`: visits the directories in `order`. */
  function Rebuild(u: Utf8, disk: Disk, order: seq<Bytes>): Option<Rebuilt>
    requires forall d :: d in order ==> d in disk
  {
    if order == [] then Some(Rebuilt(disk, map[], 0, 0)) else
    var d := order[|order| - 1];
    match Rebuild(u, disk, order[..|order| - 1])
    case None => None
    case Some(r) =>
      match OpenDir(u, d, disk[d], r.index)
      case None => None
      case Some(o) =>
        Some(Rebuilt(r.disk[d := o.segs], o.index, r.bytesOnDisk + o.bytes, r.salvaged + o.salvaged))
  }

  /** What opening leaves in a directory: each segment reduced to its salvage. */
  function SalvageDir(u: Utf8, segs: Dir): (r: Dir)
    ensures |r| == |segs|
    ensures forall i :: 0 <= i < |segs| ==> r[i] == Segment(segs[i].id, Salvage(u, segs[i].bytes).kept)
  {
    if segs == [] then [] else
    var last := segs[|segs| - 1];
    SalvageDir(u, segs[..|segs| - 1]) + [Segment(last.id, Salvage(u, last.bytes).kept)]
  }

  lemma LogEffectsOfOverlay(u: Utf8, path: Path, b: Bytes, index: Index, out: Index)
    requires Replay(u, path, 0, b, index) == Some(out)
    ensures out == Overlay(index, LogEffects(u, path, 0, b))
  {
    ReplayIsOverlay(u, path, 0, b, index);
  }

  /** An opened directory is salvaged segment by segment and overlays its effects. */
  lemma {:induction false} OpenDirSound(u: Utf8, dir: Bytes, segs: Dir, index: Index)
    requires OpenDir(u, dir, segs, index).Some?
    ensures var o := OpenDir(u, dir, segs, index).value;
      && o.segs == SalvageDir(u, segs)
      && o.index == Overlay(index, DirEffects(u, dir, o.segs))
      && o.bytes == DirTotal(o.segs)
  {
    hide OpenSegment, LogEffects, Salvage, Clean, Replay;
    if segs == [] {
      assert Overlay(index, map[]) == index;
    } else {
      var last := segs[|segs| - 1];
      var path := Path(dir, last.id);
      OpenDirSound(u, dir, segs[..|segs| - 1], index);
      var o := OpenDir(u, dir, segs[..|segs| - 1], index).value;
      OpenIsSalvageAndReplay(u, path, last.bytes, o.index);
      var s := OpenSegment(u, path, last.bytes, o.index).value;
      LogEffectsOfOverlay(u, path, s.bytes, o.index, s.index);
      var out := o.segs + [Segment(last.id, s.bytes)];
      assert out[..|out| - 1] == o.segs;
      OverlayTwice(index, DirEffects(u, dir, o.segs), LogEffects(u, path, 0, s.bytes));
    }
  }

  // ------------------------------------------------------ one class per key

  /** `b`, a segment of directory `dir`, mentions only keys at home in `dir`, and
      its value records carry the class of their key. */
  ghost predicate SegmentOwned(u: Utf8, owner: Bytes -> Bytes, home: Bytes -> Bytes, dir: Bytes, b: Bytes)
  {
    && Owned(u, owner, b)
    && forall k :: k in LogEffects(u, Path(dir, 0), 0, b) ==> home(k) == dir
  }

  lemma {:induction false} EffectKeysOnly(u: Utf8, p: Path, q: Path, i: nat, j: nat, b: Bytes)
    ensures LogEffects(u, p, i, b).Keys == LogEffects(u, q, j, b).Keys
    decreases |b|
  {
    hide RecordLen, KeyOf, ClassOf, HeaderOf;
    match RecordLen(u, b) {
      case None =>
      case Some(n) => EffectKeysOnly(u, p, q, i + n, j + n, b[n..]);
    }
  }

  lemma MergeIsAssociative(a: Effects, b: Effects, c: Effects)
    ensures a + (b + c) == (a + b) + c
  {
  }

  lemma {:induction false} LogEffectsConcat(u: Utf8, path: Path, base: nat, a: Bytes, t: Bytes)
    requires Clean(u, a)
    ensures LogEffects(u, path, base, a + t) ==
      LogEffects(u, path, base, a) + LogEffects(u, path, base + |a|, t)
    decreases |a|
  {
    hide RecordLen, KeyOf, ClassOf, HeaderOf, Clean, EffectOf, LogEffects;
    if a == [] {
      assert a + t == t;
      NoEffects(u, path, base);
    } else {
      CleanStep(u, a, t);
      var n := RecordLen(u, a).value;
      LogEffectsConcat(u, path, base + n, a[n..], t);
      SameFirstEffect(u, path, base, a, t);
      assert base + n + |a[n..]| == base + |a|;
      MergeIsAssociative(EffectOf(u, path, base, a), LogEffects(u, path, base + n, a[n..]),
                         LogEffects(u, path, base + |a|, t));
    }
  }

  lemma NoEffects(u: Utf8, path: Path, base: nat)
    ensures LogEffects(u, path, base, []) == map[]
  {
  }

  lemma SameFirstEffect(u: Utf8, path: Path, base: nat, a: Bytes, t: Bytes)
    requires Clean(u, a) && a != []
    ensures RecordLen(u, a).Some?
    ensures var n := RecordLen(u, a).value;
      && LogEffects(u, path, base, a) == EffectOf(u, path, base, a) + LogEffects(u, path, base + n, a[n..])
      && LogEffects(u, path, base, a + t) == EffectOf(u, path, base, a) + LogEffects(u, path, base + n, a[n..] + t)
  {
    hide RecordLen, KeyOf, ClassOf, HeaderOf, Clean;
    CleanStep(u, a, t);
  }

  /** The records that survive in every segment of the directory are owned. */
  ghost predicate DirSurvivorsOwned(u: Utf8, owner: Bytes -> Bytes, home: Bytes -> Bytes, dir: Bytes, segs: Dir)
  {
    forall i :: 0 <= i < |segs| ==> SegmentOwned(u, owner, home, dir, Salvage(u, segs[i].bytes).kept)
  }

  lemma {:induction false} OwnedDirOpens(u: Utf8, owner: Bytes -> Bytes, home: Bytes -> Bytes, dir: Bytes, segs: Dir,
                                         index: Index)
    requires DirSurvivorsOwned(u, owner, home, dir, segs) && IndexOwned(owner, index)
    ensures OpenDir(u, dir, segs, index).Some?
    ensures IndexOwned(owner, OpenDir(u, dir, segs, index).value.index)
  {
    hide OpenSegment, LogEffects, Salvage, Owned;
    if segs != [] {
      var last := segs[|segs| - 1];
      OwnedDirOpens(u, owner, home, dir, segs[..|segs| - 1], index);
      var o := OpenDir(u, dir, segs[..|segs| - 1], index).value;
      assert SegmentOwned(u, owner, home, dir, Salvage(u, last.bytes).kept);
      OwnedSegmentOpens(u, owner, Path(dir, last.id), last.bytes, o.index);
    }
  }

  lemma {:induction false} DirEffectsAtHome(u: Utf8, owner: Bytes -> Bytes, home: Bytes -> Bytes, dir: Bytes,
                                            segs: Dir, k: Bytes)
    requires forall i :: 0 <= i < |segs| ==> SegmentOwned(u, owner, home, dir, segs[i].bytes)
    requires k in DirEffects(u, dir, segs)
    ensures home(k) == dir
  {
    hide LogEffects, Owned;
    var last := segs[|segs| - 1];
    if k in DirEffects(u, dir, segs[..|segs| - 1]) {
      DirEffectsAtHome(u, owner, home, dir, segs[..|segs| - 1], k);
    } else {
      EffectKeysOnly(u, Path(dir, last.id), Path(dir, 0), 0, 0, last.bytes);
      assert SegmentOwned(u, owner, home, dir, last.bytes);
    }
  }

  // --------------------------------------------------------- whole disks

  /** A disk as the store keeps it: ascending, clean, owned segments. */
  ghost predicate DiskOk(u: Utf8, owner: Bytes -> Bytes, home: Bytes -> Bytes, disk: Disk)
  {
    forall d :: d in disk ==> DirOk(u, owner, home, d, disk[d])
  }

  ghost predicate DirOk(u: Utf8, owner: Bytes -> Bytes, home: Bytes -> Bytes, dir: Bytes, segs: Dir)
  {
    && Ascending(segs)
    && forall i :: 0 <= i < |segs| ==>
      Clean(u, segs[i].bytes) && SegmentOwned(u, owner, home, dir, segs[i].bytes)
  }

  function Find(index: Index, k: Bytes): Option<Location>
  {
    if k in index then Some(index[k]) else None
  }

  /** Where the disk says the live record of `k` is. */
  function DiskFind(u: Utf8, home: Bytes -> Bytes, disk: Disk, k: Bytes): Option<Location>
  {
    var d := home(k);
    if d in disk && k in DirEffects(u, d, disk[d]) then DirEffects(u, d, disk[d])[k] else None
  }

  /** The index says what the disk says, key by key. */
  ghost predicate IndexMatches(u: Utf8, home: Bytes -> Bytes, disk: Disk, index: Index)
  {
    forall k :: Find(index, k) == DiskFind(u, home, disk, k)
  }

  lemma MatchingIndexIsUnique(u: Utf8, home: Bytes -> Bytes, disk: Disk, a: Index, b: Index)
    requires IndexMatches(u, home, disk, a) && IndexMatches(u, home, disk, b)
    ensures a == b
  {
    forall k
      ensures Find(a, k) == Find(b, k)
    {
      assert Find(a, k) == DiskFind(u, home, disk, k);
    }
    forall k
      ensures k in a <==> k in b
      ensures k in a ==> a[k] == b[k]
    {
      assert Find(a, k) == Find(b, k);
    }
  }

  /** `order` lists each class directory once. */
  ghost predicate Enumerates(order: seq<Bytes>, disk: Disk)
  {
    && (forall d :: d in order <==> d in disk)
    && (forall i, j :: 0 <= i < j < |order| ==> order[i] != order[j])
  }

  ghost function Total(disk: Disk): nat
  {
    if disk == map[] then 0 else
    var d :| d in disk;
    DirTotal(disk[d]) + Total(disk - {d})
  }

  lemma {:induction false} TotalWithout(disk: Disk, d: Bytes)
    requires d in disk
    ensures Total(disk) == DirTotal(disk[d]) + Total(disk - {d})
    decreases |disk|
  {
    var e :| e in disk && Total(disk) == DirTotal(disk[e]) + Total(disk - {e});
    if e != d {
      assert |disk - {e}| < |disk| by { SmallerMap(disk, e); }
      assert |disk - {d}| < |disk| by { SmallerMap(disk, d); }
      TotalWithout(disk - {e}, d);
      TotalWithout(disk - {d}, e);
      assert disk - {e} - {d} == disk - {d} - {e};
    }
  }

  lemma SmallerMap(disk: Disk, d: Bytes)
    requires d in disk
    ensures |disk - {d}| < |disk|
  {
    assert (disk - {d}).Keys == disk.Keys - {d};
    assert |disk.Keys - {d}| == |disk.Keys| - 1;
  }

  lemma TotalUpdate(disk: Disk, d: Bytes, segs: Dir)
    ensures Total(disk[d := segs]) == DirTotal(segs) + Total(disk - {d})
  {
    TotalWithout(disk[d := segs], d);
    assert disk[d := segs] - {d} == disk - {d};
  }

  // ---------------------------------------------------------------- rebuild

  ghost predicate SurvivorsOwned(u: Utf8, owner: Bytes -> Bytes, home: Bytes -> Bytes, disk: Disk)
  {
    forall d :: d in disk ==> Ascending(disk[d]) && DirSurvivorsOwned(u, owner, home, d, disk[d])
  }

  function SalvageDisk(u: Utf8, disk: Disk): Disk
  {
    map d | d in disk :: SalvageDir(u, disk[d])
  }

  lemma SalvageDirOk(u: Utf8, owner: Bytes -> Bytes, home: Bytes -> Bytes, dir: Bytes, segs: Dir)
    requires Ascending(segs) && DirSurvivorsOwned(u, owner, home, dir, segs)
    ensures DirOk(u, owner, home, dir, SalvageDir(u, segs))
  {
    hide Salvage, Clean, Owned, LogEffects;
    var r := SalvageDir(u, segs);
    forall i | 0 <= i < |r|
      ensures Clean(u, r[i].bytes) && SegmentOwned(u, owner, home, dir, r[i].bytes)
    {
      SalvageIsClean(u, segs[i].bytes);
      assert SegmentOwned(u, owner, home, dir, Salvage(u, segs[i].bytes).kept);
    }
  }

  lemma SalvageDiskOk(u: Utf8, owner: Bytes -> Bytes, home: Bytes -> Bytes, disk: Disk)
    requires SurvivorsOwned(u, owner, home, disk)
    ensures DiskOk(u, owner, home, SalvageDisk(u, disk))
  {
    forall d | d in disk
      ensures DirOk(u, owner, home, d, SalvageDir(u, disk[d]))
    {
      SalvageDirOk(u, owner, home, d, disk[d]);
    }
  }

  ghost function Names(order: seq<Bytes>): set<Bytes>
  {
    set d | d in order
  }

  /** The part of a disk that holds the directories `visited`. */
  ghost function Part(disk: Disk, visited: set<Bytes>): Disk
  {
    map d | d in disk && d in visited :: disk[d]
  }

  /** The state of the rebuild after visiting the directories `visited`. */
  ghost predicate RebuiltSoFar(u: Utf8, home: Bytes -> Bytes, disk: Disk, clean: Disk, visited: set<Bytes>, r: Rebuilt)
    requires clean.Keys == disk.Keys
  {
    && r.disk.Keys == disk.Keys
    && (forall d :: d in disk ==> r.disk[d] == if d in visited then clean[d] else disk[d])
    && r.bytesOnDisk == Total(Part(clean, visited))
    && forall k :: Find(r.index, k) == if home(k) in visited then DiskFind(u, home, clean, k) else None
  }

  /** Overlaying one more directory settles the keys at home there and no others. */
  lemma FindAfterOverlay(u: Utf8, owner: Bytes -> Bytes, home: Bytes -> Bytes, clean: Disk, d: Bytes, index: Index,
                         k: Bytes)
    requires d in clean && DirOk(u, owner, home, d, clean[d])
    requires home(k) == d ==> Find(index, k) == None
    ensures Find(Overlay(index, DirEffects(u, d, clean[d])), k) ==
      if home(k) == d then DiskFind(u, home, clean, k) else Find(index, k)
  {
    hide Owned, LogEffects, Clean;
    if k in DirEffects(u, d, clean[d]) {
      DirEffectsAtHome(u, owner, home, d, clean[d], k);
    }
  }

  lemma RebuildOneMore(u: Utf8, owner: Bytes -> Bytes, home: Bytes -> Bytes, disk: Disk, clean: Disk,
                       visited: set<Bytes>, d: Bytes, r: Rebuilt, o: OpenedDir)
    requires clean.Keys == disk.Keys && d in disk && d !in visited
    requires DirOk(u, owner, home, d, clean[d])
    requires RebuiltSoFar(u, home, disk, clean, visited, r)
    requires o.segs == clean[d] && o.bytes == DirTotal(clean[d])
    requires o.index == Overlay(r.index, DirEffects(u, d, clean[d]))
    ensures RebuiltSoFar(u, home, disk, clean, visited + {d},
              Rebuilt(r.disk[d := o.segs], o.index, r.bytesOnDisk + o.bytes, r.salvaged + o.salvaged))
  {
    hide DirEffects, DirTotal, DiskFind, Overlay, DirOk;
    TotalUpdate(Part(clean, visited), d, o.segs);
    assert Part(clean, visited)[d := o.segs] == Part(clean, visited + {d});
    assert Part(clean, visited) - {d} == Part(clean, visited);
    forall k
      ensures Find(o.index, k) == if home(k) in visited + {d} then DiskFind(u, home, clean, k) else None
    {
      assert Find(r.index, k) == if home(k) in visited then DiskFind(u, home, clean, k) else None;
      FindAfterOverlay(u, owner, home, clean, d, r.index, k);
    }
  }

  lemma RebuildLast(u: Utf8, disk: Disk, order: seq<Bytes>)
    requires order != [] && forall d :: d in order ==> d in disk
    ensures var d := order[|order| - 1];
      var r := Rebuild(u, disk, order[..|order| - 1]);
      r.Some? && OpenDir(u, d, disk[d], r.value.index).Some? ==>
        var o := OpenDir(u, d, disk[d], r.value.index).value;
        Rebuild(u, disk, order) == Some(Rebuilt(r.value.disk[d := o.segs], o.index, r.value.bytesOnDisk + o.bytes,
                                                r.value.salvaged + o.salvaged))
  {
    hide OpenDir;
  }

  lemma SurvivorsOwnedAt(u: Utf8, owner: Bytes -> Bytes, home: Bytes -> Bytes, disk: Disk, d: Bytes)
    requires SurvivorsOwned(u, owner, home, disk) && d in disk
    ensures Ascending(disk[d]) && DirSurvivorsOwned(u, owner, home, d, disk[d])
    ensures d in SalvageDisk(u, disk) && SalvageDisk(u, disk)[d] == SalvageDir(u, disk[d])
    ensures SalvageDisk(u, disk).Keys == disk.Keys
  {
  }

  lemma {:induction false} RebuildSteps(u: Utf8, owner: Bytes -> Bytes, home: Bytes -> Bytes, disk: Disk,
                                        order: seq<Bytes>)
    requires SurvivorsOwned(u, owner, home, disk)
    requires forall d :: d in order ==> d in disk
    requires forall i, j :: 0 <= i < j < |order| ==> order[i] != order[j]
    ensures Rebuild(u, disk, order).Some?
    ensures IndexOwned(owner, Rebuild(u, disk, order).value.index)
    ensures SalvageDisk(u, disk).Keys == disk.Keys
    ensures RebuiltSoFar(u, home, disk, SalvageDisk(u, disk), Names(order), Rebuild(u, disk, order).value)
  {
    hide OpenDir, DiskFind, DirEffects, DirTotal, SalvageDir, DirOk, DirSurvivorsOwned, Overlay;
    hide RebuiltSoFar, SalvageDisk, SurvivorsOwned, IndexOwned, Rebuild;
    if order == [] {
      RebuildNothing(u, owner, home, disk);
    } else {
      var n := |order| - 1;
      var d := order[n];
      RebuildSteps(u, owner, home, disk, order[..n]);
      var r := Rebuild(u, disk, order[..n]).value;
      SurvivorsOwnedAt(u, owner, home, disk, d);
      OwnedDirOpens(u, owner, home, d, disk[d], r.index);
      OpenDirSound(u, d, disk[d], r.index);
      SalvageDirOk(u, owner, home, d, disk[d]);
      var o := OpenDir(u, d, disk[d], r.index).value;
      RebuildOneMore(u, owner, home, disk, SalvageDisk(u, disk), Names(order[..n]), d, r, o);
      assert Names(order[..n]) + {d} == Names(order);
      RebuildLast(u, disk, order);
    }
  }

  lemma RebuildNothing(u: Utf8, owner: Bytes -> Bytes, home: Bytes -> Bytes, disk: Disk)
    ensures Rebuild(u, disk, []) == Some(Rebuilt(disk, map[], 0, 0)) && IndexOwned(owner, map[])
    ensures SalvageDisk(u, disk).Keys == disk.Keys
    ensures RebuiltSoFar(u, home, disk, SalvageDisk(u, disk), Names([]), Rebuild(u, disk, []).value)
  {
    hide SalvageDir, DiskFind;
    assert Names([]) == {} && Part(SalvageDisk(u, disk), {}) == map[];
  }

  /** Opening a store on any disk whose surviving records keep one class per key:
      it succeeds, in every directory order, leaves each segment at its salvage,
      counts the bytes that remain, and builds the index that matches the disk. */
  lemma RebuildTheorem(u: Utf8, owner: Bytes -> Bytes, home: Bytes -> Bytes, disk: Disk, order: seq<Bytes>)
    requires SurvivorsOwned(u, owner, home, disk) && Enumerates(order, disk)
    ensures Rebuild(u, disk, order).Some?
    ensures var r := Rebuild(u, disk, order).value;
      && r.disk == SalvageDisk(u, disk)
      && DiskOk(u, owner, home, r.disk)
      && r.bytesOnDisk == Total(r.disk)
      && IndexMatches(u, home, r.disk, r.index)
      && IndexOwned(owner, r.index)
  {
    hide DirEffects, SalvageDir, DirTotal;
    RebuildSteps(u, owner, home, disk, order);
    SalvageDiskOk(u, owner, home, disk);
    var clean := SalvageDisk(u, disk);
    var r := Rebuild(u, disk, order).value;
    assert r.disk == clean by {
      assert forall d :: d in disk ==> r.disk[d] == clean[d];
    }
    assert Part(clean, Names(order)) == clean;
    forall k
      ensures Find(r.index, k) == DiskFind(u, home, clean, k)
    {
      assert Find(r.index, k) == if home(k) in Names(order) then DiskFind(u, home, clean, k) else None;
    }
  }

  /** A disk as the store keeps it is its own salvage. */
  lemma CleanDiskSurvives(u: Utf8, owner: Bytes -> Bytes, home: Bytes -> Bytes, disk: Disk)
    requires DiskOk(u, owner, home, disk)
    ensures SurvivorsOwned(u, owner, home, disk)
    ensures SalvageDisk(u, disk) == disk
  {
    hide Salvage, Clean, Owned, LogEffects;
    forall d | d in disk
      ensures SalvageDir(u, disk[d]) == disk[d] && Ascending(disk[d])
      ensures DirSurvivorsOwned(u, owner, home, d, disk[d])
    {
      assert DirOk(u, owner, home, d, disk[d]);
      forall i | 0 <= i < |disk[d]|
        ensures Salvage(u, disk[d][i].bytes).kept == disk[d][i].bytes
      {
        SalvageOfClean(u, disk[d][i].bytes);
      }
    }
  }

  /** Nothing after the clean front of `b` calls for a salvage. */
  ghost predicate Quiet(u: Utf8, b: Bytes)
  {
    var t := b[CleanLen(u, b)..];
    t == [] || (!Framed(t) && FindRecord(u, t, 1).None?)
  }

  lemma {:induction false} QuietDirNotSalvaged(u: Utf8, dir: Bytes, segs: Dir, index: Index)
    ensures var o := OpenDir(u, dir, segs, index);
      o.Some? && o.value.salvaged > 0 ==> exists i :: 0 <= i < |segs| && !Quiet(u, segs[i].bytes)
  {
    hide OpenSegment, Quiet;
    if segs != [] && OpenDir(u, dir, segs, index).Some? && OpenDir(u, dir, segs, index).value.salvaged > 0 {
      var last := segs[|segs| - 1];
      var o := OpenDir(u, dir, segs[..|segs| - 1], index).value;
      if o.salvaged > 0 {
        QuietDirNotSalvaged(u, dir, segs[..|segs| - 1], index);
      } else {
        SalvagedIsNotQuiet(u, Path(dir, last.id), last.bytes, o.index);
      }
    }
  }

  lemma SalvagedIsNotQuiet(u: Utf8, path: Path, b: Bytes, index: Index)
    ensures var o := OpenSegment(u, path, b, index);
      o.Some? && o.value.salvaged ==> !Quiet(u, b)
  {
    hide RecordLen, HeaderOf, KeyOf, ClassOf, Apply, Replay, ScanFrom, Framed;
    ScanIsReplay(u, path, 0, b, index);
  }

  ghost predicate QuietDisk(u: Utf8, disk: Disk)
  {
    forall d, i :: d in disk && 0 <= i < |disk[d]| ==> Quiet(u, disk[d][i].bytes)
  }

  lemma {:induction false} QuietDiskNotSalvaged(u: Utf8, disk: Disk, order: seq<Bytes>)
    requires QuietDisk(u, disk)
    requires forall d :: d in order ==> d in disk
    requires Rebuild(u, disk, order).Some?
    ensures Rebuild(u, disk, order).value.salvaged == 0
  {
    hide OpenDir, Quiet;
    if order != [] {
      var n := |order| - 1;
      QuietDiskNotSalvaged(u, disk, order[..n]);
      var r := Rebuild(u, disk, order[..n]).value;
      QuietDirNotSalvaged(u, order[n], disk[order[n]], r.index);
    }
  }

  lemma CleanDiskIsQuiet(u: Utf8, owner: Bytes -> Bytes, home: Bytes -> Bytes, disk: Disk)
    requires DiskOk(u, owner, home, disk)
    ensures QuietDisk(u, disk)
  {
    hide Clean, SegmentOwned;
    forall d, i | d in disk && 0 <= i < |disk[d]|
      ensures Quiet(u, disk[d][i].bytes)
    {
      assert DirOk(u, owner, home, d, disk[d]);
      CleanIffCleanLen(u, disk[d][i].bytes);
    }
  }

  /** Reopening a store gives back exactly its index, in every directory order,
      without touching a byte. */
  lemma ReopenIsIdentity(u: Utf8, owner: Bytes -> Bytes, home: Bytes -> Bytes, disk: Disk, index: Index,
                         order: seq<Bytes>)
    requires DiskOk(u, owner, home, disk) && IndexMatches(u, home, disk, index)
    requires Enumerates(order, disk)
    ensures Rebuild(u, disk, order) == Some(Rebuilt(disk, index, Total(disk), 0))
  {
    CleanDiskSurvives(u, owner, home, disk);
    RebuildTheorem(u, owner, home, disk, order);
    CleanDiskIsQuiet(u, owner, home, disk);
    QuietDiskNotSalvaged(u, disk, order);
    MatchingIndexIsUnique(u, home, disk, index, Rebuild(u, disk, order).value.index);
  }
}
