/** What a caller of the Cold store sees of single calls: when a put is refused and why,
    what a get answers after any run, when a segment is rotated. */
module ColdAnswers {
  import opened Prelude
  import opened ColdRecord
  import opened ColdLog
  import opened ColdDisk
  import opened ColdState
  import opened ColdRuns
  import opened ColdFormat

  /** The record of a put can be written at all. */
  ghost predicate Writable<V>(c: Codec<V>, key: Bytes, entry: Entry<V>)
  {
    && |key| <= 16777216 && |entry.class_| <= 16777216
    && c.toJson(entry.value).Some?
    && |c.toJson(entry.value).value| <= 1073741824
    && |c.compress(c.toJson(entry.value).value)| <= 1073741824
  }

  /** A put is accepted exactly if the key does not have another class, the record can be
      written, and its bytes fit under the disk limit, if there is one (a limit of
      2^64 - 1 never binds). Each refusal has its own answer. */
  lemma PutAnswers<V>(cfg: Config, c: Codec<V>, s: State, key: Bytes, entry: Entry<V>)
    ensures var n := RecordBytes(c, key, entry.class_, Some(entry.value));
      var err := Put(cfg, c, s, key, entry).1;
      var sameClass := key in s.index ==> s.index[key].class_ == entry.class_;
      && (err.None? <==>
           && sameClass && Writable(c, key, entry)
           && (|| cfg.maxDiskBytes.None? || cfg.maxDiskBytes.value >= 0xFFFF_FFFF_FFFF_FFFF
               || s.bytesOnDisk + n <= cfg.maxDiskBytes.value))
      && (err == Some(ClassMismatch) <==> !sameClass)
      && (err == Some(NotSerializable) || err == Some(FieldTooLarge) <==> sameClass && !Writable(c, key, entry))
      && (sameClass && Writable(c, key, entry) && err.Some? ==>
           err == Some(QuotaExceeded(s.bytesOnDisk, n, cfg.maxDiskBytes.value)))
  {
    BuildsIff(c, key, entry.class_, Some(entry.value));
    hide BuildRecord;
  }

  /** An accepted put takes the bytes of its record. */
  lemma PutCosts<V>(cfg: Config, c: Codec<V>, s: State, key: Bytes, entry: Entry<V>)
    ensures var (t, err) := Put(cfg, c, s, key, entry);
      t.bytesOnDisk ==
        s.bytesOnDisk + if err.None? then RecordBytes(c, key, entry.class_, Some(entry.value)) else 0
  {
    BuildsIff(c, key, entry.class_, Some(entry.value));
    hide BuildRecord;
  }

  /** After every run, a get answers what the plain map holds. */
  lemma GetAfterRun<V(!new)>(cfg: Config, c: Codec<V>, owner: Bytes -> Bytes, s: State, ops: seq<Op<V>>, key: Bytes)
    requires Lawful(c) && Inv(c, owner, s)
    requires forall i :: 0 <= i < |ops| ==> Fits(c, owner, ops[i])
    ensures var m := PlainRun(cfg, c, s, ops);
      var r := Get(c, Run(cfg, c, s, ops), key);
      && (key !in m ==> r == Ok(None))
      && (key in m && m[key].Ok? ==> r == Ok(Some(m[key].value)))
      && (key in m && m[key].Err? ==> r == Err(m[key].error))
  {
    RunTheorem(cfg, c, owner, s, ops);
    hide Run, PlainRun, Inv, ReadLocation;
  }

  /** From the empty store: the answer is the entry of the last accepted put, if no
      removal followed. */
  lemma GetFromEmpty<V(!new)>(cfg: Config, c: Codec<V>, owner: Bytes -> Bytes, ops: seq<Op<V>>, key: Bytes)
    requires Lawful(c) && forall i :: 0 <= i < |ops| ==> Fits(c, owner, ops[i])
    ensures Get(c, Run(cfg, c, State(map[], map[], 0, 0), ops), key) == Ok(LastPut(cfg, c, ops, key))
  {
    var s := State(map[], map[], 0, 0);
    EmptyStoreIsStart(c, owner);
    GetAfterRun(cfg, c, owner, s, ops, key);
    LastPutIsPlain(cfg, c, ops, key);
  }

  ghost function LastPut<V>(cfg: Config, c: Codec<V>, ops: seq<Op<V>>, key: Bytes): Option<Entry<V>>
  {
    if ops == [] then None else
    var before := ops[..|ops| - 1];
    var op := ops[|ops| - 1];
    if op.PutOp? && op.key == key && Put(cfg, c, Run(cfg, c, State(map[], map[], 0, 0), before), key, op.entry).1.None?
    then Some(op.entry)
    else if op.RemoveOp? && op.key == key then None
    else LastPut(cfg, c, before, key)
  }

  lemma {:induction false} LastPutIsPlain<V>(cfg: Config, c: Codec<V>, ops: seq<Op<V>>, key: Bytes)
    ensures var m := PlainRun(cfg, c, State(map[], map[], 0, 0), ops);
      var last := LastPut(cfg, c, ops, key);
      (key in m <==> last.Some?) && (key in m ==> m[key] == Ok(last.value))
  {
    hide Put, Remove, Rebuild, Run;
    if ops != [] {
      LastPutIsPlain(cfg, c, ops[..|ops| - 1], key);
    }
  }

  /** An append opens a new segment exactly if the last one holds something and the record
      would take it past the limit (a limit of 2^64 - 1 is never passed); the new one has
      the next id. The first segment of a class has id 0. */
  lemma RotatesIff<V>(cfg: Config, c: Codec<V>, s: State, key: Bytes, class_: Bytes, value: Option<V>)
    requires Append(cfg, c, s, key, class_, value).1.Ok?
    ensures var (t, location) := Append(cfg, c, s, key, class_, value);
      var n := RecordBytes(c, key, class_, value);
      var before := DirOn(s.disk, c.classDir(class_));
      && location.value.totalLen == n && location.value.class_ == class_
      && location.value.path.dir == c.classDir(class_)
      && if before == [] then location.value.path.id == 0 && location.value.offset == 0 else
         var last := before[|before| - 1];
         if 0 < |last.bytes| && |last.bytes| + n > cfg.segmentMaxBytes && cfg.segmentMaxBytes < 0xFFFF_FFFF_FFFF_FFFF
         then location.value.path.id == last.id + 1 && location.value.offset == 0
         else location.value.path.id == last.id && location.value.offset == |last.bytes|
  {
    BuildsIff(c, key, class_, value);
    hide BuildRecord, WriteAt;
  }

  /** Bytes that do not start with a record count as damage, and not as a torn write,
      when they start with a readable header whose record would fit. */
  lemma FramedIff(b: Bytes)
    ensures Framed(b) <==>
      exists h :: ValidHeader(h) && WriteHeader(h) <= b && 53 + h.keyLen + h.classLen + h.payloadLen <= |b|
  {
    if Framed(b) {
      var h := ParseHeader(b[..53]).value;
      ParsedIsWritten(b[..53]);
      assert WriteHeader(h) == b[..53][..53] == b[..53];
      assert ValidHeader(h) && WriteHeader(h) <= b;
    }
    if h :| ValidHeader(h) && WriteHeader(h) <= b && 53 + h.keyLen + h.classLen + h.payloadLen <= |b| {
      HeaderRoundTrip(h, []);
      assert b[..53] == WriteHeader(h) + [];
    }
  }

  /** Behind the records at the front of the file there is something that is no torn write:
      a readable header whose record would fit, or a record further on. */
  ghost predicate Damaged(u: Utf8, b: Bytes)
  {
    var t := b[CleanLen(u, b)..];
    t != [] && (Framed(t) || exists j :: 1 <= j < |t| && RecordLen(u, t[j..]).Some?)
  }

  ghost function CountDamaged(u: Utf8, segs: Dir): nat
  {
    if segs == [] then 0
    else CountDamaged(u, segs[..|segs| - 1]) + if Damaged(u, segs[|segs| - 1].bytes) then 1 else 0
  }

  ghost function CountAllDamaged(u: Utf8, disk: Disk, order: seq<Bytes>): nat
    requires forall d :: d in order ==> d in disk
  {
    if order == [] then 0
    else CountAllDamaged(u, disk, order[..|order| - 1]) + CountDamaged(u, disk[order[|order| - 1]])
  }

  lemma SalvagedIff(u: Utf8, path: Path, b: Bytes, index: Index)
    requires OpenSegment(u, path, b, index).Some?
    ensures OpenSegment(u, path, b, index).value.salvaged <==> Damaged(u, b)
  {
    hide RecordLen, HeaderOf, KeyOf, ClassOf, Apply, Replay, Salvage, Clean, CleanLen, Framed, ScanFrom;
    ScanIsReplay(u, path, 0, b, index);
    var t := b[CleanLen(u, b)..];
    var found := FindRecord(u, t, 1);
    assert found.Some? <==> exists j :: 1 <= j < |t| && RecordLen(u, t[j..]).Some?;
  }

  /** Opening counts as salvaged exactly the segments that are damaged. */
  lemma {:induction false} SalvageCountsDamaged(u: Utf8, dir: Bytes, segs: Dir, index: Index)
    requires OpenDir(u, dir, segs, index).Some?
    ensures OpenDir(u, dir, segs, index).value.salvaged == CountDamaged(u, segs)
  {
    hide OpenSegment, Damaged;
    if segs != [] {
      var last := segs[|segs| - 1];
      SalvageCountsDamaged(u, dir, segs[..|segs| - 1], index);
      var o := OpenDir(u, dir, segs[..|segs| - 1], index).value;
      SalvagedIff(u, Path(dir, last.id), last.bytes, o.index);
    }
  }

  lemma {:induction false} RebuildCountsDamaged(u: Utf8, disk: Disk, order: seq<Bytes>)
    requires forall d :: d in order ==> d in disk
    requires Rebuild(u, disk, order).Some?
    ensures Rebuild(u, disk, order).value.salvaged == CountAllDamaged(u, disk, order)
  {
    hide OpenDir, CountDamaged;
    if order != [] {
      var n := |order| - 1;
      RebuildCountsDamaged(u, disk, order[..n]);
      SalvageCountsDamaged(u, order[n], disk[order[n]], Rebuild(u, disk, order[..n]).value.index);
    }
  }
}
