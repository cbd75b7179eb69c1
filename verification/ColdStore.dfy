/** The Cold store as the source runs it: loops over file offsets, cached writers,
    cached memory maps. Every method is proved against ColdState, so the caches
    are shown to change no result. */
module ColdStore {
  import opened Prelude
  import opened ColdRecord
  import opened ColdLog
  import opened ColdDisk
  import opened ColdState

  // ------------------------------------------------------------- file scans

  /** Finding a record from an offset in a file is finding it in the rest. */
  lemma FindRecordShift(u: Utf8, bytes: Bytes, offset: nat)
    requires offset < |bytes|
    ensures var far, near := FindRecord(u, bytes, offset + 1), FindRecord(u, bytes[offset..], 1);
      && (far.Some? <==> near.Some?)
      && (far.Some? ==> far.value == offset + near.value)
  {
    hide RecordLen;
    var far, near := FindRecord(u, bytes, offset + 1), FindRecord(u, bytes[offset..], 1);
    assert forall j :: 0 <= j <= |bytes| - offset ==> bytes[offset..][j..] == bytes[offset + j..];
    if far.Some? {
      assert RecordLen(u, bytes[offset..][far.value - offset..]).Some?;
    }
    if near.Some? {
      assert RecordLen(u, bytes[offset + near.value..]).Some?;
    }
  }

  /** What the stream finds at an offset: not a whole record (`Torn`), a record
      with bad text or flag (`Bad`), or a record. */
  datatype Frame = Torn | Bad | Rec(total: nat, flag: byte, key: Bytes, class_: Bytes)

  function FrameAt(u: Utf8, bytes: Bytes, offset: nat): Frame
    requires offset <= |bytes|
  {
    var b := bytes[offset..];
    match RecordLen(u, b)
    case Some(n) => Rec(n, HeaderOf(u, b).flag, KeyOf(u, b), ClassOf(u, b))
    case None => if Framed(b) then Bad else Torn
  }

  /** Reading the header, then the key and the class, of the record at `offset`.
      The stream accepts exactly the records that `RecordLen` accepts. */
  method ReadFrame(u: Utf8, bytes: Bytes, offset: nat) returns (f: Frame)
    requires offset < |bytes|
    ensures f == FrameAt(u, bytes, offset)
    ensures f.Rec? ==> offset < offset + f.total <= |bytes|
  {
    hide ParseHeader;
    if offset + HEADER_LEN > |bytes| {
      return Torn;
    }
    ghost var b := bytes[offset..];
    assert bytes[offset..offset + HEADER_LEN] == b[..HEADER_LEN];
    var parsed := ParseHeader(bytes[offset..offset + HEADER_LEN]);
    if parsed.None? {
      return Torn;
    }
    var header := parsed.value;
    var total := TotalLen(header);
    if offset + total > |bytes| {
      return Torn;
    }
    var keyEnd := HEADER_LEN + header.keyLen;
    var classEnd := keyEnd + header.classLen;
    var key := bytes[offset + HEADER_LEN..offset + keyEnd];
    var class_ := bytes[offset + keyEnd..offset + classEnd];
    assert key == b[HEADER_LEN..keyEnd];
    assert class_ == b[keyEnd..classEnd];
    if !u(key) || !u(class_) || (header.flag != FLAG_VALUE && header.flag != FLAG_TOMBSTONE) {
      return Bad;
    }
    return Rec(total, header.flag, key, class_);
  }

  /** The rest of a scan that has come to `offset`. */
  ghost function ScanAt(u: Utf8, path: Path, bytes: Bytes, offset: nat, index: Index): Scan
    requires offset <= |bytes|
  {
    ScanFrom(u, path, offset, bytes[offset..], index)
  }

  /** `tail_or_corrupt`, on the bytes from `offset` on. */
  function TailAt(u: Utf8, bytes: Bytes, offset: nat, index: Index): Scan
    requires offset <= |bytes|
  {
    TailOrCorrupt(u, offset, bytes[offset..], index)
  }

  /** One round of the scan. */
  lemma ScanStep(u: Utf8, path: Path, bytes: Bytes, offset: nat, index: Index)
    requires offset < |bytes|
    ensures ScanAt(u, path, bytes, offset, index) ==
        match FrameAt(u, bytes, offset)
        case Torn => TailAt(u, bytes, offset, index)
        case Bad => Corrupt(index)
        case Rec(n, flag, key, class_) =>
          if offset + n > |bytes| then Fatal
          else if flag != FLAG_VALUE then ScanAt(u, path, bytes, offset + n, index - {key})
          else if key in index && index[key].class_ != class_ then Fatal
          else ScanAt(u, path, bytes, offset + n, index[key := Location(path, offset, n, class_)])
  {
    hide HeaderOf, RecordLen, KeyOf, ClassOf, Framed, TailOrCorrupt;
    var b := bytes[offset..];
    if RecordLen(u, b).Some? {
      assert b[RecordLen(u, b).value..] == bytes[offset + RecordLen(u, b).value..];
    }
  }

  lemma ScanEnds(u: Utf8, path: Path, bytes: Bytes, start: Index)
    ensures ScanAt(u, path, bytes, 0, start) == ScanFrom(u, path, 0, bytes, start)
    ensures forall index :: ScanAt(u, path, bytes, |bytes|, index) == Indexed(|bytes|, index)
  {
    assert bytes[0..] == bytes;
  }

  method ScanSegment(u: Utf8, path: Path, bytes: Bytes, start: Index) returns (scan: Scan)
    ensures scan == ScanFrom(u, path, 0, bytes, start)
  {
    hide ScanAt, ScanFrom, FrameAt, TailAt;
    ScanEnds(u, path, bytes, start);
    var offset, index := 0, start;
    while offset < |bytes|
      invariant offset <= |bytes|
      invariant ScanFrom(u, path, 0, bytes, start) == ScanAt(u, path, bytes, offset, index)
    {
      ScanStep(u, path, bytes, offset, index);
      var f := ReadFrame(u, bytes, offset);
      if f.Torn? {
        return TailAt(u, bytes, offset, index);
      }
      if f.Bad? {
        return Corrupt(index);
      }
      if f.flag == FLAG_VALUE {
        if f.key in index && index[f.key].class_ != f.class_ {
          return Fatal;
        }
        index := index[f.key := Location(path, offset, f.total, f.class_)];
      } else {
        index := index - {f.key};
      }
      offset := offset + f.total;
    }
    return Indexed(offset, index);
  }

  method SalvageSegment(u: Utf8, bytes: Bytes) returns (kept: Bytes, dropped: nat)
    ensures Salvaged(kept, dropped) == Salvage(u, bytes)
    ensures |kept| + dropped == |bytes|
  {
    hide Salvage, RecordLen;
    var offset := 0;
    kept, dropped := [], 0;
    assert bytes[0..] == bytes;
    assert [] + Salvage(u, bytes).kept == Salvage(u, bytes).kept;
    while offset < |bytes|
      invariant offset <= |bytes|
      invariant Salvage(u, bytes).kept == kept + Salvage(u, bytes[offset..]).kept
      invariant Salvage(u, bytes).dropped == dropped + Salvage(u, bytes[offset..]).dropped
    {
      var length := RecordLen(u, bytes[offset..]);
      SalvageStep(u, bytes, offset);
      if length.Some? {
        var total := length.value;
        kept := kept + bytes[offset..offset + total];
        offset := offset + total;
      } else {
        var found := FindRecord(u, bytes, offset + 1);
        var next := if found.Some? then found.value else |bytes|;
        dropped := dropped + (next - offset);
        offset := next;
      }
    }
    SalvageNothing(u);
    assert bytes[offset..] == [];
    assert kept + [] == kept;
    SalvageIsClean(u, bytes);
  }

  lemma SalvageNothing(u: Utf8)
    ensures Salvage(u, []) == Salvaged([], 0)
  {
  }

  /** One round of the salvage loop, at `offset` of the file. */
  lemma SalvageStep(u: Utf8, bytes: Bytes, offset: nat)
    requires offset < |bytes|
    ensures var s := Salvage(u, bytes[offset..]);
      match RecordLen(u, bytes[offset..])
      case Some(n) =>
        var rest := Salvage(u, bytes[offset + n..]);
        && s.dropped == rest.dropped
        && forall kept :: kept + s.kept == (kept + bytes[offset..offset + n]) + rest.kept
      case None =>
        var found := FindRecord(u, bytes, offset + 1);
        var next := if found.Some? then found.value else |bytes|;
        s == Salvaged(Salvage(u, bytes[next..]).kept, next - offset + Salvage(u, bytes[next..]).dropped)
  {
    hide RecordLen, FindRecord;
    var b := bytes[offset..];
    var length := RecordLen(u, b);
    if length.Some? {
      var n := length.value;
      assert b[..n] == bytes[offset..offset + n];
      assert b[n..] == bytes[offset + n..];
    } else {
      FindRecordShift(u, bytes, offset);
      var next := NextRecord(u, b);
      assert b[next..] == bytes[offset + next..];
    }
  }

  /** One file of the rebuild loop; the new bytes are those left on disk. */
  method OpenFile(u: Utf8, path: Path, bytes: Bytes, start: Index) returns (res: Option<Opened>)
    ensures res == OpenSegment(u, path, bytes, start)
  {
    hide ScanFrom, Salvage;
    var file, salvaged := bytes, false;
    var scan := ScanSegment(u, path, file, start);
    if scan.Corrupt? {
      var kept, _ := SalvageSegment(u, file);
      file, salvaged := kept, true;
      scan := ScanSegment(u, path, file, scan.half);
      if scan.Corrupt? {
        return None;  // still damaged after the salvage
      }
    }
    if scan.Fatal? || scan.validLen > |file| {
      return None;
    }
    return Some(Opened(file[..scan.validLen], scan.index, salvaged));
  }

  /** The directory loop after `i` files. */
  ghost function OpenFiles(u: Utf8, dir: Bytes, segs: Dir, i: nat, start: Index): Option<OpenedDir>
    requires i <= |segs|
  {
    OpenDir(u, dir, segs[..i], start)
  }

  lemma OpenDirStep(u: Utf8, dir: Bytes, segs: Dir, i: nat, start: Index, o: OpenedDir)
    requires i < |segs| && OpenFiles(u, dir, segs, i, start) == Some(o)
    ensures OpenFiles(u, dir, segs, i + 1, start) ==
        match OpenSegment(u, Path(dir, segs[i].id), segs[i].bytes, o.index)
        case None => None
        case Some(f) =>
          Some(OpenedDir(o.segs + [Segment(segs[i].id, f.bytes)], f.index, o.bytes + |f.bytes|,
                         o.salvaged + if f.salvaged then 1 else 0))
  {
    hide OpenSegment;
    assert segs[..i + 1][..i] == segs[..i];
  }

  lemma OpenDirEnds(u: Utf8, dir: Bytes, segs: Dir, start: Index)
    ensures OpenFiles(u, dir, segs, 0, start) == Some(OpenedDir([], start, 0, 0))
    ensures OpenFiles(u, dir, segs, |segs|, start) == OpenDir(u, dir, segs, start)
  {
    assert segs[..|segs|] == segs;
  }

  method OpenDirectory(u: Utf8, dir: Bytes, segs: Dir, start: Index) returns (res: Option<OpenedDir>)
    ensures res == OpenDir(u, dir, segs, start)
  {
    hide OpenFiles, OpenDir, OpenSegment;
    OpenDirEnds(u, dir, segs, start);
    var o := OpenedDir([], start, 0, 0);
    var i := 0;
    while i < |segs|
      invariant i <= |segs|
      invariant OpenFiles(u, dir, segs, i, start) == Some(o)
    {
      OpenDirStep(u, dir, segs, i, start, o);
      var file := OpenFile(u, Path(dir, segs[i].id), segs[i].bytes, o.index);
      if file.None? {
        OpenDirFailsEarly(u, dir, segs, i + 1, start);
        return None;
      }
      var f := file.value;
      o := OpenedDir(o.segs + [Segment(segs[i].id, f.bytes)], f.index, o.bytes + |f.bytes|,
                     o.salvaged + if f.salvaged then 1 else 0);
      i := i + 1;
    }
    return Some(o);
  }

  lemma {:induction false} OpenDirFailsEarly(u: Utf8, dir: Bytes, segs: Dir, i: nat, start: Index)
    requires i <= |segs| && OpenFiles(u, dir, segs, i, start).None?
    ensures OpenDir(u, dir, segs, start).None?
  {
    hide OpenSegment;
    if i == |segs| {
      assert segs[..i] == segs;
    } else {
      assert segs[..|segs| - 1][..i] == segs[..i];
      OpenDirFailsEarly(u, dir, segs[..|segs| - 1], i, start);
    }
  }

  method RebuildIndex(u: Utf8, disk: Disk, order: seq<Bytes>) returns (rebuilt: Option<Rebuilt>)
    requires forall d :: d in order ==> d in disk
    ensures rebuilt == Rebuild(u, disk, order)
  {
    hide OpenDir, Rebuild;
    RebuildStart(u, disk, order);
    var r := Rebuilt(disk, map[], 0, 0);
    var i := 0;
    while i < |order|
      invariant i <= |order|
      invariant Rebuild(u, disk, order[..i]) == Some(r)
    {
      var d := order[i];
      RebuildStep(u, disk, order, i);
      var dir := OpenDirectory(u, d, disk[d], r.index);
      if dir.None? {
        RebuildFailsEarly(u, disk, order, i + 1);
        return None;
      }
      var o := dir.value;
      r := Rebuilt(r.disk[d := o.segs], o.index, r.bytesOnDisk + o.bytes, r.salvaged + o.salvaged);
      i := i + 1;
    }
    assert order[..i] == order;
    return Some(r);
  }

  lemma RebuildStart(u: Utf8, disk: Disk, order: seq<Bytes>)
    requires forall d :: d in order ==> d in disk
    ensures Rebuild(u, disk, order[..0]) == Some(Rebuilt(disk, map[], 0, 0))
  {
  }

  lemma RebuildStep(u: Utf8, disk: Disk, order: seq<Bytes>, i: nat)
    requires forall d :: d in order ==> d in disk
    requires i < |order| && Rebuild(u, disk, order[..i]).Some?
    ensures var d, r := order[i], Rebuild(u, disk, order[..i]).value;
      Rebuild(u, disk, order[..i + 1]) ==
        match OpenDir(u, d, disk[d], r.index)
        case None => None
        case Some(o) => Some(Rebuilt(r.disk[d := o.segs], o.index, r.bytesOnDisk + o.bytes, r.salvaged + o.salvaged))
  {
    hide OpenDir;
    assert order[..i + 1][..i] == order[..i];
  }

  lemma {:induction false} RebuildFailsEarly(u: Utf8, disk: Disk, order: seq<Bytes>, i: nat)
    requires forall d :: d in order ==> d in disk
    requires i <= |order| && Rebuild(u, disk, order[..i]).None?
    ensures Rebuild(u, disk, order).None?
  {
    hide OpenDir;
    if i == |order| {
      assert order[..i] == order;
    } else {
      assert order[..|order| - 1][..i] == order[..i];
      RebuildFailsEarly(u, disk, order[..|order| - 1], i);
    }
  }

  // ------------------------------------------------------------- the store

  datatype Writer = Writer(id: nat, size: nat)

  /** The cached writer of a class stands at the end of its last segment. */
  ghost predicate WriterAgrees(w: Writer, segs: Dir)
  {
    if segs == [] then w == Writer(0, 0) else w == Writer(segs[|segs| - 1].id, |segs[|segs| - 1].bytes|)
  }

  ghost predicate AllAscending(disk: Disk)
  {
    forall d :: d in disk ==> Ascending(disk[d])
  }

  /** The directories of the classes in use do not collide. */
  ghost predicate NoCollision(classDir: Bytes -> Bytes, classes: set<Bytes>)
  {
    forall a, b :: a in classes && b in classes && classDir(a) == classDir(b) ==> a == b
  }

  ghost predicate IndexIn(index: Index, classes: set<Bytes>)
  {
    forall k :: k in index ==> index[k].class_ in classes
  }

  ghost predicate WritersAgree(classDir: Bytes -> Bytes, classes: set<Bytes>, writers: map<Bytes, Writer>, disk: Disk)
  {
    forall a :: a in writers ==>
      a in classes && classDir(a) in disk && WriterAgrees(writers[a], disk[classDir(a)])
  }

  /** Every cached mapping is the current content of its segment. */
  ghost predicate MapsAgree(maps: map<Path, Bytes>, disk: Disk)
  {
    forall p :: p in maps ==> SegmentBytes(DirOn(disk, p.dir), p.id) == Some(maps[p])
  }

  class SegmentedColdStore<V(!new)> {
    const codec: Codec<V>
    const cfg: Config
    const mmapReads: bool
    /** The classes in use; their directory names do not collide. */
    ghost const classes: set<Bytes>

    var disk: Disk
    var index: Index
    var writers: map<Bytes, Writer>
    var maps: map<Path, Bytes>
    var bytesOnDisk: nat
    var quotaRejections: nat
    var salvagedSegments: nat

    ghost function Abs(): State
      reads this
    {
      State(disk, index, bytesOnDisk, quotaRejections)
    }

    ghost predicate Valid()
      reads this
    {
      && NoCollision(codec.classDir, classes)
      && IndexIn(index, classes)
      && AllAscending(disk)
      && WritersAgree(codec.classDir, classes, writers, disk)
      && MapsAgree(maps, disk)
    }

    constructor (codec: Codec<V>, cfg: Config, mmapReads: bool, rebuilt: Rebuilt, ghost classes: set<Bytes>)
      requires NoCollision(codec.classDir, classes) && IndexIn(rebuilt.index, classes)
      requires AllAscending(rebuilt.disk)
      ensures Valid()
      ensures Abs() == State(rebuilt.disk, rebuilt.index, rebuilt.bytesOnDisk, 0)
      ensures salvagedSegments == rebuilt.salvaged
      ensures this.codec == codec && this.mmapReads == mmapReads && this.classes == classes
      ensures this.cfg == cfg.(segmentMaxBytes := if cfg.segmentMaxBytes < 4096 then 4096 else cfg.segmentMaxBytes)
    {
      this.codec, this.mmapReads, this.classes := codec, mmapReads, classes;
      this.cfg := cfg.(segmentMaxBytes := if cfg.segmentMaxBytes < 4096 then 4096 else cfg.segmentMaxBytes);
      disk, index, bytesOnDisk := rebuilt.disk, rebuilt.index, rebuilt.bytesOnDisk;
      writers, maps, quotaRejections, salvagedSegments := map[], map[], 0, rebuilt.salvaged;
    }

    method WriterForClass(class_: Bytes) returns (w: Writer)
      requires Valid() && class_ in classes
      modifies this`writers, this`disk
      ensures Valid()
      ensures codec.classDir(class_) in disk
      ensures disk == old(disk)[codec.classDir(class_) := DirOn(old(disk), codec.classDir(class_))]
      ensures class_ in writers && writers[class_] == w
      ensures WriterAgrees(w, DirOn(old(disk), codec.classDir(class_)))
    {
      hide SegmentBytes, WriterAgrees;
      var d := codec.classDir(class_);
      if class_ !in writers {
        var segs := DirOn(disk, d);
        var w0 := if segs == [] then Writer(0, 0) else Writer(segs[|segs| - 1].id, |segs[|segs| - 1].bytes|);
        NewWriterAgrees(segs);
        CreateDir(maps, writers, codec.classDir, classes, disk, d);
        disk := disk[d := segs];
        writers := writers[class_ := w0];
        assert WritersAgree(codec.classDir, classes, writers, disk);
      }
      w := writers[class_];
    }

    /** `append_record`. The caches are kept in step with the files: the map of the
        segment is dropped before the write, and the writer advances after it. */
    method AppendRecord(key: Bytes, class_: Bytes, value: Option<V>) returns (r: Result<Location, ColdError>)
      requires Valid() && class_ in classes
      modifies this`disk, this`writers, this`maps, this`bytesOnDisk, this`quotaRejections
      ensures Valid()
      ensures (Abs(), r) == Append(cfg, codec, old(Abs()), key, class_, value)
    {
      hide EncodeRecord, SegmentBytes, WriterAgrees, Ascending;
      if !LenOk(|key|, MAX_FIELD_BYTES) || !LenOk(|class_|, MAX_FIELD_BYTES) {
        return Err(FieldTooLarge);
      }
      var flag, rawLen, payload, checksum := FLAG_TOMBSTONE, 0, [], ZERO_DIGEST;
      if value.Some? {
        var json := codec.toJson(value.value);
        if json.None? {
          return Err(NotSerializable);
        }
        var raw := json.value;
        if !LenOk(|raw|, MAX_PAYLOAD_BYTES) {
          return Err(FieldTooLarge);
        }
        flag, rawLen, payload, checksum := FLAG_VALUE, |raw|, codec.compress(raw), codec.digest(raw);
      }
      if !LenOk(|payload|, MAX_PAYLOAD_BYTES) {
        return Err(FieldTooLarge);
      }
      var record := EncodeRecord(flag, key, class_, rawLen, payload, checksum);
      assert BuildRecord(codec, key, class_, value) == Ok(record);
      hide BuildRecord;
      if value.Some? && cfg.maxDiskBytes.Some? && SatAdd(bytesOnDisk, |record|) > cfg.maxDiskBytes.value {
        quotaRejections := SatAdd(quotaRejections, 1);
        return Err(QuotaExceeded(bytesOnDisk, |record|, cfg.maxDiskBytes.value));
      }
      r := WriteRecord(class_, record);
    }

    /** The second half of `append_record`: rotate if the segment is full, drop the
        cached map, write, advance the writer. */
    method WriteRecord(class_: Bytes, record: Bytes) returns (r: Result<Location, ColdError>)
      requires Valid() && class_ in classes
      modifies this`disk, this`writers, this`maps, this`bytesOnDisk
      ensures Valid()
      ensures var d := codec.classDir(class_);
        var (id, offset) := Target(cfg, DirOn(old(disk), d), |record|);
        && disk == old(disk)[d := WriteAt(DirOn(old(disk), d), id, record)]
        && bytesOnDisk == old(bytesOnDisk) + |record|
        && r == Ok(Location(Path(d, id), offset, |record|, class_))
    {
      hide SegmentBytes, Ascending, WriteAt, Target, WriterAgrees, IsTarget, DirOn;
      var d := codec.classDir(class_);
      ghost var segs := DirOn(disk, d);
      var w := WriterForClass(class_);
      assert disk[d] == segs;
      TargetOfWriter(cfg, segs, w, |record|);
      if w.size > 0 && SatAdd(w.size, |record|) > cfg.segmentMaxBytes {
        w := Writer(w.id + 1, 0);
      }
      var path := Path(d, w.id);
      maps := maps - {path};
      WriteKeepsCaches(maps, writers, codec.classDir, classes, disk, class_, w, record);
      UpdateTwice(old(disk), d, segs, WriteAt(segs, w.id, record));
      disk := disk[d := WriteAt(disk[d], w.id, record)];
      writers := writers[class_ := Writer(w.id, w.size + |record|)];
      bytesOnDisk := bytesOnDisk + |record|;
      r := Ok(Location(path, w.size, |record|, class_));
    }

    /** `map_segment`: the cached mapping, or a new one of the whole file. */
    method MapSegment(path: Path) returns (mapped: Option<Bytes>)
      requires Valid()
      modifies this`maps
      ensures Valid()
      ensures mapped == SegmentBytes(DirOn(disk, path.dir), path.id)
    {
      hide SegmentBytes, DirOn;
      if path in maps {
        return Some(maps[path]);
      }
      mapped := SegmentBytes(DirOn(disk, path.dir), path.id);
      if mapped.Some? {
        maps := maps[path := mapped.value];
      }
    }

    /** With or without memory maps, a read finds the same bytes. */
    method ReadLocation(key: Bytes, location: Location) returns (r: Result<Entry<V>, ColdError>)
      requires Valid()
      modifies this`maps
      ensures Valid()
      ensures r == ColdState.ReadLocation(codec, disk, key, location)
    {
      hide SegmentBytes, DecodeValueRecord;
      if mmapReads {
        var mapped := MapSegment(location.path);
        if mapped.None? {
          return Err(Io);
        }
        var end := location.offset + location.totalLen;
        if end <= |mapped.value| {
          return DecodeValueRecord(codec, mapped.value[location.offset..end], key);
        }
      }
      var bytes := ReadAt(disk, location);
      if bytes.None? {
        return Err(Io);
      }
      return DecodeValueRecord(codec, bytes.value, key);
    }

    method Get(key: Bytes) returns (r: Result<Option<Entry<V>>, ColdError>)
      requires Valid()
      modifies this`maps
      ensures Valid()
      ensures r == ColdState.Get(codec, Abs(), key)
    {
      hide SegmentBytes, DecodeValueRecord, ReadAt;
      if key !in index {
        return Ok(None);
      }
      var entry := ReadLocation(key, index[key]);
      return if entry.Ok? then Ok(Some(entry.value)) else Err(entry.error);
    }

    method Put(key: Bytes, entry: Entry<V>) returns (err: Option<ColdError>)
      requires Valid() && entry.class_ in classes
      modifies this`disk, this`index, this`writers, this`maps, this`bytesOnDisk, this`quotaRejections
      ensures Valid()
      ensures (Abs(), err) == ColdState.Put(cfg, codec, old(Abs()), key, entry)
    {
      hide BuildRecord, SegmentBytes, WriterAgrees, Ascending, Target, WriteAt, OverQuota;
      if key in index && index[key].class_ != entry.class_ {
        return Some(ClassMismatch);
      }
      var r := AppendRecord(key, entry.class_, Some(entry.value));
      if r.Err? {
        return Some(r.error);
      }
      index := index[key := r.value];
      return None;
    }

    method Remove(key: Bytes) returns (r: Result<bool, ColdError>)
      requires Valid()
      modifies this`disk, this`index, this`writers, this`maps, this`bytesOnDisk, this`quotaRejections
      ensures Valid()
      ensures (Abs(), r) == ColdState.Remove(cfg, codec, old(Abs()), key)
    {
      hide BuildRecord, SegmentBytes, WriterAgrees, Ascending, Target, WriteAt, OverQuota;
      if key !in index {
        return Ok(false);
      }
      var w := AppendRecord(key, index[key].class_, None);
      if w.Err? {
        return Err(w.error);
      }
      index := index - {key};
      return Ok(true);
    }
  }

  lemma UpdateTwice<X, Y>(m: map<X, Y>, k: X, a: Y, b: Y)
    ensures m[k := a][k := b] == m[k := b]
  {
  }

  lemma TargetOfWriter(cfg: Config, segs: Dir, w: Writer, len: nat)
    requires WriterAgrees(w, segs)
    ensures Target(cfg, segs, len) ==
      if w.size > 0 && SatAdd(w.size, len) > cfg.segmentMaxBytes then (w.id + 1, 0) else (w.id, w.size)
    ensures IsTarget(segs, Target(cfg, segs, len).0, Target(cfg, segs, len).1)
  {
  }

  /** Rebuilding keeps the segments of every directory in order. */
  lemma {:induction false} RebuildKeepsOrder(u: Utf8, disk: Disk, order: seq<Bytes>)
    requires AllAscending(disk)
    requires forall d :: d in order ==> d in disk
    requires Rebuild(u, disk, order).Some?
    ensures AllAscending(Rebuild(u, disk, order).value.disk)
  {
    hide OpenDir, DirEffects, Overlay, DirTotal, SalvageDir;
    if order != [] {
      var n := |order| - 1;
      RebuildKeepsOrder(u, disk, order[..n]);
      OpenDirSound(u, order[n], disk[order[n]], Rebuild(u, disk, order[..n]).value.index);
    }
  }

  /** `open_with_limit`: rebuild the index, then start with empty caches. A store
      that cannot be rebuilt is not opened. */
  method Open<V(!new)>(codec: Codec<V>, cfg: Config, mmapReads: bool, disk: Disk, order: seq<Bytes>,
                       ghost classes: set<Bytes>)
    returns (store: SegmentedColdStore?<V>)
    requires AllAscending(disk) && Enumerates(order, disk)
    requires NoCollision(codec.classDir, classes)
    requires Rebuild(codec.utf8, disk, order).Some? ==> IndexIn(Rebuild(codec.utf8, disk, order).value.index, classes)
    ensures store == null <==> Rebuild(codec.utf8, disk, order).None?
    ensures store != null ==>
      && fresh(store) && store.Valid() && store.codec == codec && store.mmapReads == mmapReads
      && store.cfg == cfg.(segmentMaxBytes := if cfg.segmentMaxBytes < 4096 then 4096 else cfg.segmentMaxBytes)
      && var r := Rebuild(codec.utf8, disk, order).value;
        store.Abs() == State(r.disk, r.index, r.bytesOnDisk, 0) && store.salvagedSegments == r.salvaged
  {
    var rebuilt := RebuildIndex(codec.utf8, disk, order);
    if rebuilt.None? {
      return null;
    }
    RebuildKeepsOrder(codec.utf8, disk, order);
    store := new SegmentedColdStore(codec, cfg, mmapReads, rebuilt.value, classes);
  }

  lemma NewWriterAgrees(segs: Dir)
    ensures WriterAgrees(
              if segs == [] then Writer(0, 0) else Writer(segs[|segs| - 1].id, |segs[|segs| - 1].bytes|), segs)
  {
  }

  /** Creating a missing directory disturbs no cache. */
  lemma CreateDir(maps: map<Path, Bytes>, writers: map<Bytes, Writer>, classDir: Bytes -> Bytes, classes: set<Bytes>,
                  disk: Disk, d: Bytes)
    requires AllAscending(disk) && MapsAgree(maps, disk) && WritersAgree(classDir, classes, writers, disk)
    ensures var after := disk[d := DirOn(disk, d)];
      AllAscending(after) && MapsAgree(maps, after) && WritersAgree(classDir, classes, writers, after)
  {
    hide SegmentBytes, WriterAgrees;
    var after := disk[d := DirOn(disk, d)];
    forall p | p in maps
      ensures SegmentBytes(DirOn(after, p.dir), p.id) == Some(maps[p])
    {
      assert DirOn(after, p.dir) == DirOn(disk, p.dir);
    }
  }

  /** Writing at the end of one directory, once the map of that segment is gone,
      leaves every other map and every other writer right. */
  lemma WriteKeepsCaches(maps: map<Path, Bytes>, writers: map<Bytes, Writer>, classDir: Bytes -> Bytes,
                         classes: set<Bytes>, disk: Disk, class_: Bytes, w: Writer, record: Bytes)
    requires NoCollision(classDir, classes) && AllAscending(disk)
    requires class_ in classes && classDir(class_) in disk
    requires MapsAgree(maps, disk) && Path(classDir(class_), w.id) !in maps
    requires WritersAgree(classDir, classes, writers, disk)
    requires IsTarget(disk[classDir(class_)], w.id, w.size)
    ensures var d := classDir(class_);
      var after := disk[d := WriteAt(disk[d], w.id, record)];
      && AllAscending(after) && MapsAgree(maps, after)
      && WritersAgree(classDir, classes, writers[class_ := Writer(w.id, w.size + |record|)], after)
  {
    var d := classDir(class_);
    var segs := disk[d];
    var out := WriteAt(segs, w.id, record);
    var after := disk[d := out];
    assert Ascending(out) by { assert Ascending(segs); }
    assert WriterAgrees(Writer(w.id, w.size + |record|), out);
    hide SegmentBytes;
    forall p | p in maps
      ensures SegmentBytes(DirOn(after, p.dir), p.id) == Some(maps[p])
    {
      if p.dir == d {
        OtherSegmentsStay(segs, w.id, w.size, record, p.id);
      }
    }
  }

  lemma OtherSegmentsStay(segs: Dir, id: nat, offset: nat, record: Bytes, other: nat)
    requires IsTarget(segs, id, offset) && other != id
    ensures SegmentBytes(WriteAt(segs, id, record), other) == SegmentBytes(segs, other)
  {
    var out := WriteAt(segs, id, record);
    if segs != [] && segs[|segs| - 1].id == id {
      assert out[..|out| - 1] == segs[..|segs| - 1];
    } else {
      assert out[..|out| - 1] == segs;
    }
  }
}
