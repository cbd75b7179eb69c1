/** What reopening does after a crash or damage, at the level of the whole store. */
module ColdRecovery {
  import opened Prelude
  import opened ColdRecord
  import opened ColdLog
  import opened ColdDisk
  import opened ColdState
  import opened ColdRuns

  // --------------------------------------------------------------- torn tails

  /** Salvaging a directory to whose end junk was written takes the junk away. */
  lemma SalvageAfterJunk(u: Utf8, owner: Bytes -> Bytes, home: Bytes -> Bytes, dir: Bytes, segs: Dir, id: nat,
                         offset: nat, junk: Bytes)
    requires DirOk(u, owner, home, dir, segs) && IsTarget(segs, id, offset)
    requires NoRecordStarts(u, junk, [])
    ensures SalvageDir(u, WriteAt(segs, id, junk)) == WriteAt(segs, id, [])
    ensures DirSurvivorsOwned(u, owner, home, dir, WriteAt(segs, id, junk))
    ensures Ascending(WriteAt(segs, id, junk))
  {
    hide Salvage, Clean, NoRecordStarts, SegmentOwned, SalvageDir;
    var appends := segs != [] && segs[|segs| - 1].id == id;
    var rest := if appends then segs[..|segs| - 1] else segs;
    var b := if appends then segs[|segs| - 1].bytes else [];
    EmptyIsOwned(u, owner, home, dir);
    JunkAfterClean(u, owner, home, dir, b, junk);
    CleanDirStays(u, owner, home, dir, rest);
    hide Ascending;
    WriteKeepsAscending(segs, id, offset, junk);
    assert WriteAt(segs, id, junk) == rest + [Segment(id, b + junk)] by { assert [] + junk == junk; }
    assert WriteAt(segs, id, []) == rest + [Segment(id, b)] by { assert b + [] == b; }
    SalvageDirSnoc(u, owner, home, dir, rest, Segment(id, b + junk));
    hide WriteAt;
  }

  lemma CleanDirStays(u: Utf8, owner: Bytes -> Bytes, home: Bytes -> Bytes, dir: Bytes, segs: Dir)
    requires forall i :: 0 <= i < |segs| ==> Clean(u, segs[i].bytes) && SegmentOwned(u, owner, home, dir, segs[i].bytes)
    ensures SalvageDir(u, segs) == segs && DirSurvivorsOwned(u, owner, home, dir, segs)
  {
    hide Salvage, Clean, SegmentOwned;
    forall i | 0 <= i < |segs|
      ensures Salvage(u, segs[i].bytes).kept == segs[i].bytes
    {
      SalvageOfClean(u, segs[i].bytes);
    }
  }

  lemma SalvageDirSnoc(u: Utf8, owner: Bytes -> Bytes, home: Bytes -> Bytes, dir: Bytes, segs: Dir, last: Segment)
    ensures SalvageDir(u, segs + [last]) == SalvageDir(u, segs) + [Segment(last.id, Salvage(u, last.bytes).kept)]
    ensures DirSurvivorsOwned(u, owner, home, dir, segs)
      && SegmentOwned(u, owner, home, dir, Salvage(u, last.bytes).kept)
      ==> DirSurvivorsOwned(u, owner, home, dir, segs + [last])
  {
    hide Salvage, SegmentOwned;
    assert (segs + [last])[..|segs|] == segs;
  }

  lemma WriteKeepsAscending(segs: Dir, id: nat, offset: nat, junk: Bytes)
    requires Ascending(segs) && IsTarget(segs, id, offset)
    ensures Ascending(WriteAt(segs, id, junk))
  {
  }

  lemma JunkAfterClean(u: Utf8, owner: Bytes -> Bytes, home: Bytes -> Bytes, dir: Bytes, b: Bytes, junk: Bytes)
    requires Clean(u, b) && SegmentOwned(u, owner, home, dir, b) && NoRecordStarts(u, junk, [])
    ensures Salvage(u, b + junk).kept == b && SegmentOwned(u, owner, home, dir, Salvage(u, b + junk).kept)
  {
    hide Salvage, NoRecordStarts, SegmentOwned;
    assert Clean(u, []);
    hide Clean;
    SalvageDropsOnlyDamage(u, b, junk, []);
    assert b + junk + [] == b + junk && b + [] == b;
  }

  lemma EmptyIsOwned(u: Utf8, owner: Bytes -> Bytes, home: Bytes -> Bytes, dir: Bytes)
    ensures SegmentOwned(u, owner, home, dir, []) && Clean(u, [])
  {
  }

  /** The disk after junk reached the end of the log of directory `d`, either in
      its last segment or in a segment just created. */
  function DiskWithJunk(disk: Disk, d: Bytes, id: nat, junk: Bytes): Disk
  {
    disk[d := WriteAt(DirOn(disk, d), id, junk)]
  }

  lemma SalvageOfJunkDisk(u: Utf8, owner: Bytes -> Bytes, home: Bytes -> Bytes, disk: Disk, d: Bytes, id: nat,
                          offset: nat, junk: Bytes)
    requires DiskOk(u, owner, home, disk) && IsTarget(DirOn(disk, d), id, offset)
    requires NoRecordStarts(u, junk, [])
    ensures SurvivorsOwned(u, owner, home, DiskWithJunk(disk, d, id, junk))
    ensures SalvageDisk(u, DiskWithJunk(disk, d, id, junk)) == DiskWithJunk(disk, d, id, [])
  {
    hide WriteAt, Salvage, Clean, NoRecordStarts, SalvageDir, DirSurvivorsOwned, DirOk;
    DirOnOk(u, owner, home, disk, d);
    SalvageAfterJunk(u, owner, home, d, DirOn(disk, d), id, offset, junk);
    CleanDiskSurvives(u, owner, home, disk);
    var torn, cut := DiskWithJunk(disk, d, id, junk), DiskWithJunk(disk, d, id, []);
    forall e | e in torn
      ensures SalvageDir(u, torn[e]) == cut[e]
    {
      if e != d { assert SalvageDisk(u, disk)[e] == disk[e]; }
    }
  }

  /** Junk in which no record starts is cut: the files return to their clean
      length, the index and every answer are those from before the crash, and the
      opened state is one from which every run theorem applies. */
  lemma JunkIsCut<V>(c: Codec<V>, owner: Bytes -> Bytes, s: State, d: Bytes, id: nat, offset: nat, junk: Bytes,
                     order: seq<Bytes>)
    requires Inv(c, owner, s) && IsTarget(DirOn(s.disk, d), id, offset)
    requires NoRecordStarts(c.utf8, junk, [])
    requires Enumerates(order, DiskWithJunk(s.disk, d, id, junk))
    ensures Rebuild(c.utf8, DiskWithJunk(s.disk, d, id, junk), order).Some?
    ensures var r := Rebuild(c.utf8, DiskWithJunk(s.disk, d, id, junk), order).value;
      && r.disk == DiskWithJunk(s.disk, d, id, [])
      && r.index == s.index && r.bytesOnDisk == s.bytesOnDisk
      && Inv(c, owner, State(r.disk, r.index, r.bytesOnDisk, 0))
      && View(c, State(r.disk, r.index, r.bytesOnDisk, 0)) == View(c, s)
  {
    hide RecordLen, KeyOf, ClassOf, HeaderOf, Salvage, Clean, NoRecordStarts, DiskWithJunk, Rebuild;
    hide SalvageDir, SurvivorsOwned, View, DirOk, ContentFind, DiskFind, SalvageDisk, DiskOk, Total, Find;
    var u, home := c.utf8, Home(c, owner);
    var torn, cut := DiskWithJunk(s.disk, d, id, junk), DiskWithJunk(s.disk, d, id, []);
    DirOnOk(u, owner, home, s.disk, d);
    SalvageOfJunkDisk(u, owner, home, s.disk, d, id, offset, junk);
    RebuildTheorem(u, owner, home, torn, order);
    CutDiskMeansTheSame(u, home, s.disk, d, id, offset);
    forall k
      ensures Find(s.index, k) == DiskFind(u, home, cut, k)
    {
      assert Find(s.index, k) == DiskFind(u, home, s.disk, k);
    }
    var r := Rebuild(u, torn, order).value;
    MatchingIndexIsUnique(u, home, cut, r.index, s.index);
    SameContentsSameAnswers(c, owner, s, State(r.disk, r.index, r.bytesOnDisk, 0));
  }

  lemma SameContentsSameAnswers<V>(c: Codec<V>, owner: Bytes -> Bytes, s: State, t: State)
    requires Inv(c, owner, s) && Inv(c, owner, t)
    requires forall k ::
      ContentFind(c.utf8, Home(c, owner), t.disk, k) == ContentFind(c.utf8, Home(c, owner), s.disk, k)
    ensures View(c, t) == View(c, s)
  {
    hide Inv, View, ContentFind;
    forall k
      ensures k in View(c, t) <==> k in View(c, s)
      ensures k in View(c, t) ==> View(c, t)[k] == View(c, s)[k]
    {
      SameContentSameView(c, owner, s, t, k);
    }
  }

  /** A disk with nothing written at a target says what it said before. */
  lemma CutDiskMeansTheSame(u: Utf8, home: Bytes -> Bytes, disk: Disk, d: Bytes, id: nat, offset: nat)
    requires AllClean(u, DirOn(disk, d)) && IsTarget(DirOn(disk, d), id, offset)
    ensures var cut := DiskWithJunk(disk, d, id, []);
      && Total(cut) == Total(disk)
      && forall k :: DiskFind(u, home, cut, k) == DiskFind(u, home, disk, k)
                     && ContentFind(u, home, cut, k) == ContentFind(u, home, disk, k)
  {
    hide RecordLen, KeyOf, ClassOf, HeaderOf, WriteAt, DirEffects, DirContents, DirTotal, DiskFind, ContentFind;
    var segs := DirOn(disk, d);
    var cut := DiskWithJunk(disk, d, id, []);
    WriteEffects(u, d, segs, id, offset, []);
    NothingInNothing(u, Path(d, id), offset);
    assert DirEffects(u, d, segs) + map[] == DirEffects(u, d, segs);
    assert DirContents(u, segs) + map[] == DirContents(u, segs);
    TotalOn(disk, d);
    TotalUpdate(disk, d, WriteAt(segs, id, []));
    forall k
      ensures DiskFind(u, home, cut, k) == DiskFind(u, home, disk, k)
              && ContentFind(u, home, cut, k) == ContentFind(u, home, disk, k)
    {
      if home(k) == d {
        FindHere(u, home, disk, k);
        FindHere(u, home, cut, k);
      } else {
        FindElsewhere(u, home, disk, d, WriteAt(segs, id, []), k);
      }
    }
  }

  lemma NothingInNothing(u: Utf8, path: Path, base: nat)
    ensures LogEffects(u, path, base, []) == map[] && LogContents(u, []) == map[]
  {
  }

  /** A crash while `append_record` writes: `n` of the record's bytes got through. */
  function CrashDisk<V>(cfg: Config, c: Codec<V>, s: State, key: Bytes, class_: Bytes, value: Option<V>, n: nat): Disk
    requires BuildRecord(c, key, class_, value).Ok? && n <= |BuildRecord(c, key, class_, value).value|
  {
    var r := BuildRecord(c, key, class_, value).value;
    var d := c.classDir(class_);
    DiskWithJunk(s.disk, d, Target(cfg, DirOn(s.disk, d), |r|).0, r[..n])
  }

  /** Crash recovery: a put or remove cut short at any byte, in an old segment or a
      freshly rotated one, leaves nothing behind. The one condition is that the part
      written embeds no complete record, which `EmbeddedRecordSurvives` shows needed. */
  lemma CrashRecovery<V>(cfg: Config, c: Codec<V>, owner: Bytes -> Bytes, s: State, key: Bytes, class_: Bytes,
                         value: Option<V>, n: nat, order: seq<Bytes>)
    requires Inv(c, owner, s) && c.utf8(key) && c.utf8(class_)
    requires BuildRecord(c, key, class_, value).Ok? && n < |BuildRecord(c, key, class_, value).value|
    requires FindRecord(c.utf8, BuildRecord(c, key, class_, value).value[..n], 1).None?
    requires Enumerates(order, CrashDisk(cfg, c, s, key, class_, value, n))
    ensures Rebuild(c.utf8, CrashDisk(cfg, c, s, key, class_, value, n), order).Some?
    ensures var r := Rebuild(c.utf8, CrashDisk(cfg, c, s, key, class_, value, n), order).value;
      && r.index == s.index && r.bytesOnDisk == s.bytesOnDisk
      && Inv(c, owner, State(r.disk, r.index, r.bytesOnDisk, 0))
      && View(c, State(r.disk, r.index, r.bytesOnDisk, 0)) == View(c, s)
  {
    hide RecordLen, KeyOf, ClassOf, HeaderOf, BuildRecord, WriteAt, Rebuild, Inv, View, FindRecord, Enumerates;
    var r := BuildRecord(c, key, class_, value).value;
    var d := c.classDir(class_);
    var (id, offset) := Target(cfg, DirOn(s.disk, d), |r|);
    TargetIsTarget(cfg, DirOn(s.disk, d), |r|);
    BuiltRecordIsRecord(c, key, class_, value);
    StrictPrefixIsNoRecord(c.utf8, r, n);
    assert r[..n] + [] == r[..n] && r[..n][0..] == r[..n];
    JunkIsCut(c, owner, s, d, id, offset, r[..n], order);
  }

  // ------------------------------------------------------------ damaged spans

  lemma {:induction false} ContentsReplace(u: Utf8, segs: Dir, i: nat, b: Bytes, key: Bytes)
    requires i < |segs|
    requires forall k :: k != key ==> (k in LogContents(u, b) <==> k in LogContents(u, segs[i].bytes))
    requires forall k :: k != key && k in LogContents(u, b) ==> LogContents(u, b)[k] == LogContents(u, segs[i].bytes)[k]
    ensures var out := segs[i := Segment(segs[i].id, b)];
      forall k :: k != key ==>
        && (k in DirContents(u, out) <==> k in DirContents(u, segs))
        && (k in DirContents(u, out) ==> DirContents(u, out)[k] == DirContents(u, segs)[k])
  {
    hide LogContents;
    var out := segs[i := Segment(segs[i].id, b)];
    var n := |segs| - 1;
    if i == n {
      assert out[..n] == segs[..n];
    } else {
      assert out[..n] == segs[..n][i := Segment(segs[i].id, b)];
      ContentsReplace(u, segs[..n], i, b, key);
    }
  }

  /** Taking one record out of a clean log changes the last word on its key only. */
  lemma ContentsWithout(u: Utf8, pre: Bytes, r: Bytes, post: Bytes)
    requires Clean(u, pre) && IsRecord(u, r)
    ensures var a, b := LogContents(u, pre + r + post), LogContents(u, pre + post);
      forall k :: k != KeyOf(u, r) ==> (k in b <==> k in a) && (k in b ==> b[k] == a[k])
  {
    hide RecordLen, KeyOf, ClassOf, HeaderOf, LogContents, Clean;
    RecordIsClean(u, r);
    CleanConcat(u, pre, r);
    LogContentsConcat(u, pre, post);
    LogContentsConcat(u, pre + r, post);
    LogContentsConcat(u, pre, r);
    RecordEffects(u, Path([], 0), 0, r);
  }

  /** The segment `i` of directory `d` with its bytes replaced. */
  function Overwritten(disk: Disk, d: Bytes, i: nat, b: Bytes): Disk
    requires d in disk && i < |disk[d]|
  {
    disk[d := disk[d][i := Segment(disk[d][i].id, b)]]
  }

  lemma OwnedParts(u: Utf8, owner: Bytes -> Bytes, home: Bytes -> Bytes, dir: Bytes, pre: Bytes, r: Bytes, post: Bytes)
    requires Clean(u, pre) && IsRecord(u, r) && Clean(u, pre + r + post)
    requires SegmentOwned(u, owner, home, dir, pre + r + post)
    ensures Clean(u, post) && Clean(u, pre + post) && SegmentOwned(u, owner, home, dir, pre + post)
  {
    hide RecordLen, KeyOf, ClassOf, HeaderOf, Clean, Owned, LogEffects;
    RecordIsClean(u, r);
    CleanConcat(u, pre, r);
    CleanConcat(u, pre + r, post);
    CleanConcat(u, pre, post);
    OwnedConcat(u, owner, pre, r);
    OwnedConcat(u, owner, pre + r, post);
    OwnedConcat(u, owner, pre, post);
    var p := Path(dir, 0);
    LogEffectsConcat(u, p, 0, pre, r);
    LogEffectsConcat(u, p, 0, pre + r, post);
    LogEffectsConcat(u, p, 0, pre, post);
    EffectKeysOnly(u, p, p, |pre + r|, |pre|, post);
  }

  /** Salvage loses only the damaged record: when the bytes of record `r` of one
      segment are overwritten by bytes in which no record starts, reopening keeps
      every other record of every segment, byte for byte and in order, and answers
      as before for every key but that of `r`. */
  lemma DamageLosesOnlyItsRecord<V>(c: Codec<V>, owner: Bytes -> Bytes, s: State, d: Bytes, i: nat, pre: Bytes,
                                    r: Bytes, post: Bytes, junk: Bytes, order: seq<Bytes>)
    requires Inv(c, owner, s)
    requires d in s.disk && i < |s.disk[d]| && s.disk[d][i].bytes == pre + r + post
    requires Clean(c.utf8, pre) && IsRecord(c.utf8, r)
    requires |junk| == |r| && NoRecordStarts(c.utf8, junk, post)
    requires Enumerates(order, s.disk)
    ensures Rebuild(c.utf8, Overwritten(s.disk, d, i, pre + junk + post), order).Some?
    ensures var o := Rebuild(c.utf8, Overwritten(s.disk, d, i, pre + junk + post), order).value;
      var t := State(o.disk, o.index, o.bytesOnDisk, 0);
      && o.disk == Overwritten(s.disk, d, i, pre + post)
      && Inv(c, owner, t)
      && forall k :: k != KeyOf(c.utf8, r) ==>
        && (k in View(c, t) <==> k in View(c, s))
        && (k in View(c, t) ==> View(c, t)[k] == View(c, s)[k])
  {
    hide RecordLen, KeyOf, ClassOf, HeaderOf, Salvage, Clean, NoRecordStarts, DirEffects, DirContents, LogContents;
    hide SegmentOwned, View, DiskFind, ContentFind, Total;
    var u, home := c.utf8, Home(c, owner);
    var key := KeyOf(u, r);
    assert DirOk(u, owner, home, d, s.disk[d]);
    OwnedParts(u, owner, home, d, pre, r, post);
    SalvageDropsOnlyDamage(u, pre, junk, post);
    var damaged := Overwritten(s.disk, d, i, pre + junk + post);
    var cut := Overwritten(s.disk, d, i, pre + post);
    CleanDiskSurvives(u, owner, home, s.disk);
    SalvageOfDamaged(u, owner, home, s.disk, d, i, pre + junk + post, pre + post);
    RebuildTheorem(u, owner, home, damaged, order);
    var o := Rebuild(u, damaged, order).value;
    var t := State(o.disk, o.index, o.bytesOnDisk, 0);
    ContentsWithout(u, pre, r, post);
    ContentsReplace(u, s.disk[d], i, pre + post, key);
    forall k | k != key
      ensures k in View(c, t) <==> k in View(c, s)
      ensures k in View(c, t) ==> View(c, t)[k] == View(c, s)[k]
    {
      if home(k) == d {
        FindHere(u, home, s.disk, k);
        FindHere(u, home, cut, k);
      } else {
        FindElsewhere(u, home, s.disk, d, cut[d], k);
      }
      hide Inv;
      SameContentSameView(c, owner, s, t, k);
    }
  }

  lemma SalvageOfDamaged(u: Utf8, owner: Bytes -> Bytes, home: Bytes -> Bytes, disk: Disk, d: Bytes, i: nat,
                         damaged: Bytes, kept: Bytes)
    requires SurvivorsOwned(u, owner, home, disk) && SalvageDisk(u, disk) == disk
    requires d in disk && i < |disk[d]|
    requires Salvage(u, damaged).kept == kept && SegmentOwned(u, owner, home, d, kept)
    ensures SurvivorsOwned(u, owner, home, Overwritten(disk, d, i, damaged))
    ensures SalvageDisk(u, Overwritten(disk, d, i, damaged)) == Overwritten(disk, d, i, kept)
  {
    hide Salvage, SegmentOwned, SalvageDir, DirSurvivorsOwned, Ascending;
    var a, b := Overwritten(disk, d, i, damaged), Overwritten(disk, d, i, kept);
    assert SalvageDisk(u, disk)[d] == disk[d];
    SalvageOfDamagedDir(u, owner, home, d, disk[d], i, damaged, kept);
    forall e | e in a
      ensures SalvageDir(u, a[e]) == b[e]
      ensures Ascending(a[e]) && DirSurvivorsOwned(u, owner, home, e, a[e])
    {
      if e != d {
        assert SalvageDisk(u, disk)[e] == disk[e];
      }
    }
    hide Overwritten;
  }

  lemma SalvageOfDamagedDir(u: Utf8, owner: Bytes -> Bytes, home: Bytes -> Bytes, d: Bytes, segs: Dir, i: nat,
                            damaged: Bytes, kept: Bytes)
    requires i < |segs| && Ascending(segs) && SalvageDir(u, segs) == segs && DirSurvivorsOwned(u, owner, home, d, segs)
    requires Salvage(u, damaged).kept == kept && SegmentOwned(u, owner, home, d, kept)
    ensures var out := segs[i := Segment(segs[i].id, damaged)];
      && SalvageDir(u, out) == segs[i := Segment(segs[i].id, kept)]
      && Ascending(out) && DirSurvivorsOwned(u, owner, home, d, out)
  {
    hide Salvage, SegmentOwned, SalvageDir;
    var out := segs[i := Segment(segs[i].id, damaged)];
    var salvaged := SalvageDir(u, out);
    forall j | 0 <= j < |out|
      ensures salvaged[j] == segs[i := Segment(segs[i].id, kept)][j]
      ensures SegmentOwned(u, owner, home, d, Salvage(u, out[j].bytes).kept)
    {
      assert SalvageDir(u, segs)[j] == segs[j];
      assert SegmentOwned(u, owner, home, d, Salvage(u, segs[j].bytes).kept);
    }
  }

  // ------------------------------------------------- why the conditions are there

  /** An embedded record does survive a torn write. `inner` is a tombstone for the
      empty key; `outer` a tombstone whose key is the text of `inner`. A crash that
      loses only the last byte of `outer` leaves a file that is salvaged to `inner`
      instead of being cut to nothing. */
  lemma EmbeddedRecordSurvives(u: Utf8, class_: Bytes)
    requires u([]) && |class_| == 1 && u(class_)
    requires u(EncodeRecord(FLAG_TOMBSTONE, [], [], 0, [], ZERO_DIGEST))
    ensures var inner := EncodeRecord(FLAG_TOMBSTONE, [], [], 0, [], ZERO_DIGEST);
      var outer := EncodeRecord(FLAG_TOMBSTONE, inner, class_, 0, [], ZERO_DIGEST);
      var torn := outer[..|outer| - 1];
      && IsRecord(u, inner) && IsRecord(u, outer)
      && FindRecord(u, torn, 1).Some?
      && Salvage(u, torn) == Salvaged(inner, HEADER_LEN)
  {
    hide RecordLen, KeyOf, ClassOf, HeaderOf;
    var inner := EncodeRecord(FLAG_TOMBSTONE, [], [], 0, [], ZERO_DIGEST);
    var outer := EncodeRecord(FLAG_TOMBSTONE, inner, class_, 0, [], ZERO_DIGEST);
    EncodeIsRecord(u, FLAG_TOMBSTONE, [], [], 0, [], ZERO_DIGEST);
    EncodeIsRecord(u, FLAG_TOMBSTONE, inner, class_, 0, [], ZERO_DIGEST);
    var torn := outer[..|outer| - 1];
    var head := torn[..HEADER_LEN];
    assert torn[HEADER_LEN..] == inner && torn == head + inner;
    StrictPrefixIsNoRecord(u, outer, |outer| - 1);
    forall j | 0 <= j < |head|
      ensures RecordLen(u, (head + inner)[j..]).None?
    {
      if j == 0 {
        assert torn[0..] == torn;
      } else {
        StartsWithMagic(u, torn[j..]);
        assert head == WriteHeader(Header(FLAG_TOMBSTONE, |inner|, 1, 0, 0, ZERO_DIGEST));
        NoMagicInside(|inner|, j);
      }
    }
    RecordIsClean(u, inner);
    SalvageSkipsDamage(u, head, inner);
    hide Salvage;
    assert RecordLen(u, torn[HEADER_LEN..]).Some?;
  }

  /** The magic number's first byte occurs nowhere else in the header of a short tombstone. */
  lemma NoMagicInside(keyLen: nat, j: nat)
    requires keyLen == HEADER_LEN && 1 <= j < HEADER_LEN
    ensures WriteHeader(Header(FLAG_TOMBSTONE, keyLen, 1, 0, 0, ZERO_DIGEST))[j] != MAGIC[0]
  {
    var h := WriteHeader(Header(FLAG_TOMBSTONE, keyLen, 1, 0, 0, ZERO_DIGEST));
    assert h[..21] == MAGIC + [FLAG_TOMBSTONE] + [53, 0, 0, 0] + [1, 0, 0, 0] + [0, 0, 0, 0] + [0, 0, 0, 0];
    assert h[21..] == ZERO_DIGEST;
    if j < 21 {
      assert h[j] == h[..21][j];
    } else {
      assert h[j] == h[21..][j - 21];
    }
  }
}
