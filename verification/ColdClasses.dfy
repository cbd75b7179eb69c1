/** One class per key: exactly when a store whose keys moved between classes can be
    opened again, and how a store gets into a state in which it cannot. */
module ColdClasses {
  import opened Prelude
  import opened ColdRecord
  import opened ColdLog
  import opened ColdDisk
  import opened ColdState
  import opened ColdRuns

  function Only(class_: Bytes): Bytes -> Bytes
  {
    (_: Bytes) => class_
  }

  /** The first record of `k` in `b` is a value. */
  predicate FirstIsValue(u: Utf8, b: Bytes, k: Bytes)
    decreases |b|
  {
    match RecordLen(u, b)
    case None => false
    case Some(n) => if KeyOf(u, b) == k then HeaderOf(u, b).flag == FLAG_VALUE else FirstIsValue(u, b[n..], k)
  }

  /** No key indexed under another class begins in `b` as a value. */
  ghost predicate Admits(u: Utf8, class_: Bytes, b: Bytes, index: Index)
  {
    forall k :: k in index && index[k].class_ != class_ ==> !FirstIsValue(u, b, k)
  }

  lemma AdmitsNext(u: Utf8, class_: Bytes, path: Path, base: nat, b: Bytes, index: Index)
    requires RecordLen(u, b).Some? && Apply(u, path, base, b, index).Some?
    requires HeaderOf(u, b).flag == FLAG_VALUE ==> ClassOf(u, b) == class_
    ensures Admits(u, class_, b, index)
      <==> Admits(u, class_, b[RecordLen(u, b).value..], Apply(u, path, base, b, index).value)
  {
    hide RecordLen, HeaderOf, KeyOf, ClassOf;
    var rest, next := b[RecordLen(u, b).value..], Apply(u, path, base, b, index).value;
    forall k
      ensures (k in index && index[k].class_ != class_ && FirstIsValue(u, b, k))
        <==> (k in next && next[k].class_ != class_ && FirstIsValue(u, rest, k))
    {
      assert k != KeyOf(u, b) ==> (k in next <==> k in index) && (k in next ==> next[k] == index[k]);
    }
  }

  /** When a log of one class can be replayed: only the first record of a key can be
      refused, and only if it is a value of a key that is live under another class. */
  lemma {:induction false} ReplaySucceedsIff(u: Utf8, class_: Bytes, path: Path, base: nat, b: Bytes, index: Index)
    requires Owned(u, Only(class_), b)
    ensures Replay(u, path, base, b, index).Some? <==> Admits(u, class_, b, index)
    decreases |b|
  {
    hide RecordLen, HeaderOf, KeyOf, ClassOf;
    if RecordLen(u, b).Some? {
      var n := RecordLen(u, b).value;
      var key := KeyOf(u, b);
      var next := Apply(u, path, base, b, index);
      if next.Some? {
        ReplaySucceedsIff(u, class_, path, base + n, b[n..], next.value);
        AdmitsNext(u, class_, path, base, b, index);
      } else {
        assert FirstIsValue(u, b, key);
      }
    }
  }

  /** The same for opening a segment, whatever its bytes: what counts is what salvage keeps. */
  lemma SegmentOpensIff(u: Utf8, class_: Bytes, path: Path, b: Bytes, index: Index)
    requires Owned(u, Only(class_), Salvage(u, b).kept)
    ensures OpenSegment(u, path, b, index).Some? <==> Admits(u, class_, Salvage(u, b).kept, index)
  {
    hide RecordLen, HeaderOf, KeyOf, ClassOf, Apply, Replay, ScanFrom, Owned, Salvage, Clean, CleanLen, Framed, Admits;
    var kept := Salvage(u, b).kept;
    ReplaySucceedsIff(u, class_, path, 0, kept, index);
    if OpenSegment(u, path, b, index).Some? {
      OpenIsSalvageAndReplay(u, path, b, index);
    } else if Replay(u, path, 0, kept, index).Some? {
      var pre, t := b[..CleanLen(u, b)], b[CleanLen(u, b)..];
      CleanPrefixIsClean(u, b);
      assert b == pre + t;
      SalvageConcat(u, pre, t);
      var post := Salvage(u, t).kept;
      ReplayConcat(u, path, 0, pre, post, index);
      OwnedConcat(u, Only(class_), pre, post);
      ScanIsReplay(u, path, 0, b, index);
      ReplayCleanPrefix(u, path, 0, b, index);
      var half := Replay(u, path, 0, pre, index).value;
      HalfScanAdmits(u, class_, path, pre, kept, index, half);
      ReplaySucceedsIff(u, class_, path, 0, kept, half);
      RescanAcceptsSalvaged(u, path, b, half);
    }
  }

  /** What an aborted first scan indexed is of the segment's own class. */
  lemma HalfScanAdmits(u: Utf8, class_: Bytes, path: Path, pre: Bytes, kept: Bytes, index: Index, half: Index)
    requires Owned(u, Only(class_), pre) && Replay(u, path, 0, pre, index) == Some(half)
    requires Admits(u, class_, kept, index)
    ensures Admits(u, class_, kept, half)
  {
    hide Replay, Owned, FirstIsValue, LogEffects;
    ReplayIsOverlay(u, path, 0, pre, index);
    var e := LogEffects(u, path, 0, pre);
    forall k | k in half && half[k].class_ != class_
      ensures !FirstIsValue(u, kept, k)
    {
      OverlayAt(index, e, k);
      if k in e {
        OwnedEffects(u, Only(class_), path, pre, k);
      }
    }
  }

  // ------------------------------------------------------------ directories

  /** The first record of `k` in the directory is a value. */
  ghost predicate DirFirstIsValue(u: Utf8, dir: Bytes, segs: Dir, k: Bytes)
  {
    if segs == [] then false else
    var before := segs[..|segs| - 1];
    if k in DirEffects(u, dir, before) then DirFirstIsValue(u, dir, before, k)
    else FirstIsValue(u, segs[|segs| - 1].bytes, k)
  }

  lemma {:induction false} FirstIsMentioned(u: Utf8, path: Path, base: nat, b: Bytes, k: Bytes)
    requires FirstIsValue(u, b, k)
    ensures k in LogEffects(u, path, base, b)
    decreases |b|
  {
    hide RecordLen, HeaderOf, KeyOf, ClassOf;
    var n := RecordLen(u, b).value;
    if KeyOf(u, b) != k {
      FirstIsMentioned(u, path, base + n, b[n..], k);
    }
  }

  lemma {:induction false} DirFirstIsMentioned(u: Utf8, dir: Bytes, segs: Dir, k: Bytes)
    requires DirFirstIsValue(u, dir, segs, k)
    ensures k in DirEffects(u, dir, segs)
  {
    hide FirstIsValue, LogEffects;
    var n := |segs| - 1;
    if k !in DirEffects(u, dir, segs[..n]) {
      FirstIsMentioned(u, Path(dir, segs[n].id), 0, segs[n].bytes, k);
    }
  }

  /** Every surviving value of the directory carries this class. */
  ghost predicate DirOfClass(u: Utf8, class_: Bytes, segs: Dir)
  {
    forall i :: 0 <= i < |segs| ==> Owned(u, Only(class_), Salvage(u, segs[i].bytes).kept)
  }

  ghost predicate DirAdmits(u: Utf8, class_: Bytes, dir: Bytes, segs: Dir, index: Index)
  {
    forall k :: k in index && index[k].class_ != class_ ==> !DirFirstIsValue(u, dir, SalvageDir(u, segs), k)
  }

  lemma DirEffectsOfClass(u: Utf8, class_: Bytes, dir: Bytes, segs: Dir, k: Bytes)
    requires DirOfClass(u, class_, segs)
    requires k in DirEffects(u, dir, SalvageDir(u, segs)) && DirEffects(u, dir, SalvageDir(u, segs))[k].Some?
    ensures DirEffects(u, dir, SalvageDir(u, segs))[k].value.class_ == class_
  {
    hide Owned, Salvage, DirEffects;
    var r := SalvageDir(u, segs);
    hide SalvageDir;
    forall i | 0 <= i < |r|
      ensures Owned(u, Only(class_), r[i].bytes)
    {
      assert r[i] == Segment(segs[i].id, Salvage(u, segs[i].bytes).kept);
    }
    OwnedDirEffects(u, Only(class_), dir, r, k);
  }

  /** When a directory of one class can be opened. */
  lemma {:induction false} DirOpensIff(u: Utf8, class_: Bytes, dir: Bytes, segs: Dir, index: Index)
    requires DirOfClass(u, class_, segs)
    ensures OpenDir(u, dir, segs, index).Some? <==> DirAdmits(u, class_, dir, segs, index)
    decreases |segs|
  {
    hide OpenSegment, LogEffects, Salvage, Owned, FirstIsValue, Overlay;
    if segs != [] {
      var n := |segs| - 1;
      var before, last := segs[..n], segs[n];
      var kept := SalvageDir(u, segs);
      assert kept[..n] == SalvageDir(u, before) && kept[n].bytes == Salvage(u, last.bytes).kept;
      DirOpensIff(u, class_, dir, before, index);
      forall k | DirFirstIsValue(u, dir, SalvageDir(u, before), k)
        ensures k in DirEffects(u, dir, SalvageDir(u, before))
      {
        DirFirstIsMentioned(u, dir, SalvageDir(u, before), k);
      }
      if OpenDir(u, dir, before, index).Some? {
        var o := OpenDir(u, dir, before, index).value;
        OpenDirSound(u, dir, before, index);
        SegmentOpensIff(u, class_, Path(dir, last.id), last.bytes, o.index);
        forall k
          ensures k in o.index && o.index[k].class_ != class_
            <==> k in index && index[k].class_ != class_ && k !in DirEffects(u, dir, SalvageDir(u, before))
        {
          OverlayAt(index, DirEffects(u, dir, o.segs), k);
          if k in DirEffects(u, dir, o.segs) && DirEffects(u, dir, o.segs)[k].Some? {
            DirEffectsOfClass(u, class_, dir, before, k);
          }
        }
      }
    }
  }

  // ------------------------------------------------------------ whole disks

  /** Each directory holds values of one class, as `class_dir` has it. */
  ghost predicate OneClassEach(u: Utf8, cls: Bytes -> Bytes, disk: Disk)
  {
    forall d :: d in disk ==> DirOfClass(u, cls(d), disk[d])
  }

  /** The last surviving record of `k` in directory `d` is a value. */
  ghost predicate EndsAlive(u: Utf8, disk: Disk, d: Bytes, k: Bytes)
  {
    && d in disk
    && var e := DirEffects(u, d, SalvageDir(u, disk[d]));
      k in e && e[k].Some?
  }

  /** The first surviving record of `k` in directory `d` is a value. */
  ghost predicate StartsAlive(u: Utf8, disk: Disk, d: Bytes, k: Bytes)
  {
    d in disk && DirFirstIsValue(u, d, SalvageDir(u, disk[d]), k)
  }

  /** Some record of `k` survives in directory `d`. */
  ghost predicate Mentions(u: Utf8, disk: Disk, d: Bytes, k: Bytes)
  {
    d in disk && k in DirEffects(u, d, SalvageDir(u, disk[d]))
  }

  /** Of the first `n` directories of `order`, the one at `i` is the last that mentions `k`,
      and leaves it alive. */
  ghost predicate Holds(u: Utf8, disk: Disk, order: seq<Bytes>, n: nat, i: nat, k: Bytes)
    requires n <= |order|
  {
    && i < n && EndsAlive(u, disk, order[i], k)
    && forall j :: i < j < n ==> !Mentions(u, disk, order[j], k)
  }

  /** No key held by the directories before `order[j]` starts alive there under another class. */
  ghost predicate AgreesAt(u: Utf8, cls: Bytes -> Bytes, disk: Disk, order: seq<Bytes>, j: nat)
    requires j < |order|
  {
    forall i, k :: 0 <= i < j && Holds(u, disk, order, j, i, k) && StartsAlive(u, disk, order[j], k) ==>
      cls(order[i]) == cls(order[j])
  }

  ghost predicate OrderAgrees(u: Utf8, cls: Bytes -> Bytes, disk: Disk, order: seq<Bytes>)
  {
    forall j :: 0 <= j < |order| ==> AgreesAt(u, cls, disk, order, j)
  }

  /** Only the visited part of the order matters. */
  lemma HoldsInPrefix(u: Utf8, disk: Disk, order: seq<Bytes>, m: nat, n: nat, i: nat, k: Bytes)
    requires n <= m <= |order|
    ensures Holds(u, disk, order[..m], n, i, k) <==> Holds(u, disk, order, n, i, k)
  {
    hide EndsAlive, Mentions;
    assert forall j :: 0 <= j < n ==> order[..m][j] == order[j];
  }

  lemma AgreesInPrefix(u: Utf8, cls: Bytes -> Bytes, disk: Disk, order: seq<Bytes>, m: nat, j: nat)
    requires j < m <= |order|
    ensures AgreesAt(u, cls, disk, order[..m], j) <==> AgreesAt(u, cls, disk, order, j)
  {
    hide Holds, StartsAlive;
    assert order[..m][j] == order[j];
    forall i, k | 0 <= i < j
      ensures Holds(u, disk, order[..m], j, i, k) <==> Holds(u, disk, order, j, i, k)
      ensures order[..m][i] == order[i]
    {
      HoldsInPrefix(u, disk, order, m, j, i, k);
    }
  }

  /** One more directory: it holds what it leaves alive, and of the rest what it does not mention. */
  lemma HoldsOneMore(u: Utf8, disk: Disk, order: seq<Bytes>, n: nat, i: nat, k: Bytes)
    requires n < |order|
    ensures Holds(u, disk, order, n + 1, i, k) <==>
      if i == n then EndsAlive(u, disk, order[n], k)
      else !Mentions(u, disk, order[n], k) && Holds(u, disk, order, n, i, k)
  {
    hide EndsAlive, Mentions;
  }

  /** What is indexed under `k`: the class of the directory that holds it, if one does. */
  ghost predicate IndexHolds(u: Utf8, cls: Bytes -> Bytes, disk: Disk, order: seq<Bytes>, index: Index)
  {
    forall k ::
      && (k in index ==> exists i :: 0 <= i < |order| && Holds(u, disk, order, |order|, i, k))
      && forall i :: 0 <= i < |order| && Holds(u, disk, order, |order|, i, k) ==>
           k in index && index[k].class_ == cls(order[i])
  }

  lemma IndexHoldsOneMore(u: Utf8, cls: Bytes -> Bytes, disk: Disk, order: seq<Bytes>, index: Index)
    requires OneClassEach(u, cls, disk) && order != [] && forall d :: d in order ==> d in disk
    requires IndexHolds(u, cls, disk, order[..|order| - 1], index)
    ensures var d := order[|order| - 1];
      IndexHolds(u, cls, disk, order, Overlay(index, DirEffects(u, d, SalvageDir(u, disk[d]))))
  {
    hide DirEffects, SalvageDir, DirOfClass, Overlay, Holds;
    var n := |order| - 1;
    var d, before := order[n], order[..n];
    var e := DirEffects(u, d, SalvageDir(u, disk[d]));
    var next := Overlay(index, e);
    forall k
      ensures k in next ==> exists i :: 0 <= i < |order| && Holds(u, disk, order, |order|, i, k)
      ensures forall i :: 0 <= i < |order| && Holds(u, disk, order, |order|, i, k) ==>
        k in next && next[k].class_ == cls(order[i])
    {
      OverlayAt(index, e, k);
      if k in e && e[k].Some? {
        DirEffectsOfClass(u, cls(d), d, disk[d], k);
      }
      if k in next {
        if k in e {
          HoldsOneMore(u, disk, order, n, n, k);
          assert Holds(u, disk, order, |order|, n, k);
        } else {
          var i :| 0 <= i < n && Holds(u, disk, before, |before|, i, k);
          HoldsInPrefix(u, disk, order, n, n, i, k);
          HoldsOneMore(u, disk, order, n, i, k);
        }
      }
      forall i | 0 <= i < |order| && Holds(u, disk, order, |order|, i, k)
        ensures k in next && next[k].class_ == cls(order[i])
      {
        HoldsOneMore(u, disk, order, n, i, k);
        if i != n {
          HoldsInPrefix(u, disk, order, n, n, i, k);
          assert before[i] == order[i];
        }
      }
    }
  }

  /** When a disk whose directories hold one class each opens in a given order: exactly if
      every key that starts alive in a directory visited, while an earlier one holds it, is
      held under the same class. */
  lemma {:induction false} OpensIff(u: Utf8, cls: Bytes -> Bytes, disk: Disk, order: seq<Bytes>)
    requires OneClassEach(u, cls, disk) && forall d :: d in order ==> d in disk
    ensures Rebuild(u, disk, order).Some? <==> OrderAgrees(u, cls, disk, order)
    ensures Rebuild(u, disk, order).Some? ==> IndexHolds(u, cls, disk, order, Rebuild(u, disk, order).value.index)
    decreases |order|
  {
    hide OpenDir, DirOfClass, AgreesAt, IndexHolds, DirAdmits, Overlay, OneClassEach;
    if order == [] {
      NothingHeld(u, cls, disk);
    } else {
      var n := |order| - 1;
      var d := order[n];
      OpensIff(u, cls, disk, order[..n]);
      forall j | 0 <= j < n
        ensures AgreesAt(u, cls, disk, order[..n], j) <==> AgreesAt(u, cls, disk, order, j)
      {
        AgreesInPrefix(u, cls, disk, order, n, j);
      }
      if Rebuild(u, disk, order[..n]).Some? {
        var index := Rebuild(u, disk, order[..n]).value.index;
        LastOpensIff(u, cls, disk, order, index);
        if OpenDir(u, d, disk[d], index).Some? {
          OpenDirSound(u, d, disk[d], index);
          IndexHoldsOneMore(u, cls, disk, order, index);
        }
      }
    }
  }

  lemma NothingHeld(u: Utf8, cls: Bytes -> Bytes, disk: Disk)
    ensures IndexHolds(u, cls, disk, [], map[])
  {
    hide EndsAlive, Mentions;
  }

  /** The last directory of the order opens exactly if it agrees with those before it. */
  lemma LastOpensIff(u: Utf8, cls: Bytes -> Bytes, disk: Disk, order: seq<Bytes>, index: Index)
    requires OneClassEach(u, cls, disk) && order != [] && forall d :: d in order ==> d in disk
    requires IndexHolds(u, cls, disk, order[..|order| - 1], index)
    ensures var n := |order| - 1;
      OpenDir(u, order[n], disk[order[n]], index).Some? <==> AgreesAt(u, cls, disk, order, n)
  {
    hide OpenDir, DirOfClass, DirFirstIsValue, SalvageDir, Holds;
    var n := |order| - 1;
    var d := order[n];
    DirOpensIff(u, cls(d), d, disk[d], index);
    forall i, k | 0 <= i < n
      ensures Holds(u, disk, order[..n], n, i, k) <==> Holds(u, disk, order, n, i, k)
      ensures order[..n][i] == order[i]
    {
      HoldsInPrefix(u, disk, order, n, n, i, k);
    }
    if AgreesAt(u, cls, disk, order, n) {
      forall k | k in index && index[k].class_ != cls(d)
        ensures !DirFirstIsValue(u, d, SalvageDir(u, disk[d]), k)
      {
        var i :| 0 <= i < n && Holds(u, disk, order[..n], n, i, k);
        assert Holds(u, disk, order, n, i, k);
      }
    }
  }

  // --------------------------------------------------- the order of the source

  /** The class directories in the order of their names, which is how the source visits them. */
  ghost predicate SortedVisit(order: seq<Bytes>, disk: Disk)
  {
    && Enumerates(order, disk)
    && forall i, j :: 0 <= i < j < |order| ==> TextBefore(order[i], order[j])
  }

  /** A key held by the directories before `e` in name order: `d` is the last of them that
      mentions it, and leaves it alive. */
  ghost predicate HeldBefore(u: Utf8, disk: Disk, d: Bytes, e: Bytes, k: Bytes)
  {
    && TextBefore(d, e) && EndsAlive(u, disk, d, k)
    && forall f :: f in disk && TextBefore(d, f) && TextBefore(f, e) ==> !Mentions(u, disk, f, k)
  }

  ghost predicate SortedAgrees(u: Utf8, cls: Bytes -> Bytes, disk: Disk)
  {
    forall d, e, k :: HeldBefore(u, disk, d, e, k) && StartsAlive(u, disk, e, k) ==> cls(d) == cls(e)
  }

  lemma HeldIsHolds(u: Utf8, disk: Disk, order: seq<Bytes>, i: nat, j: nat, k: Bytes)
    requires SortedVisit(order, disk) && i < |order| && j < |order|
    ensures HeldBefore(u, disk, order[i], order[j], k) <==> Holds(u, disk, order, j, i, k)
  {
    hide EndsAlive, Mentions, TextBefore;
    forall a, b | 0 <= a < |order| && 0 <= b < |order|
      ensures TextBefore(order[a], order[b]) <==> a < b
    {
      TextOrderIsTotal(order[a], order[b]);
    }
    if HeldBefore(u, disk, order[i], order[j], k) {
      forall m | i < m < j
        ensures !Mentions(u, disk, order[m], k)
      {
        assert order[m] in order;
      }
    }
    if Holds(u, disk, order, j, i, k) {
      forall f | f in disk && TextBefore(order[i], f) && TextBefore(f, order[j])
        ensures !Mentions(u, disk, f, k)
      {
        var m :| 0 <= m < |order| && order[m] == f;
      }
    }
  }

  /** When the source opens a disk, in terms of the files alone. */
  lemma SourceOpensIff(u: Utf8, cls: Bytes -> Bytes, disk: Disk, order: seq<Bytes>)
    requires OneClassEach(u, cls, disk) && SortedVisit(order, disk)
    ensures Rebuild(u, disk, order).Some? <==> SortedAgrees(u, cls, disk)
  {
    OpensIff(u, cls, disk, order);
    hide Rebuild, OneClassEach, HeldBefore, Holds, StartsAlive, SortedVisit, IndexHolds;
    if OrderAgrees(u, cls, disk, order) {
      forall d, e, k | HeldBefore(u, disk, d, e, k) && StartsAlive(u, disk, e, k)
        ensures cls(d) == cls(e)
      {
        BothAreThere(u, disk, d, e, k);
        var i := PlaceOf(order, disk, d);
        var j := PlaceOf(order, disk, e);
        HeldIsHolds(u, disk, order, i, j, k);
        assert AgreesAt(u, cls, disk, order, j);
      }
    }
    if SortedAgrees(u, cls, disk) {
      forall j | 0 <= j < |order|
        ensures AgreesAt(u, cls, disk, order, j)
      {
        forall i, k | 0 <= i < j && Holds(u, disk, order, j, i, k) && StartsAlive(u, disk, order[j], k)
          ensures cls(order[i]) == cls(order[j])
        {
          HeldIsHolds(u, disk, order, i, j, k);
        }
      }
    }
  }

  lemma BothAreThere(u: Utf8, disk: Disk, d: Bytes, e: Bytes, k: Bytes)
    requires EndsAlive(u, disk, d, k) || HeldBefore(u, disk, d, e, k)
    requires StartsAlive(u, disk, e, k)
    ensures d in disk && e in disk
  {
  }

  lemma PlaceOf(order: seq<Bytes>, disk: Disk, d: Bytes) returns (i: nat)
    requires SortedVisit(order, disk) && d in disk
    ensures i < |order| && order[i] == d
  {
    i :| i < |order| && order[i] == d;
  }

  /** Every disk can be visited in the order of its names. */
  lemma {:induction false} SortedVisitExists(disk: Disk) returns (order: seq<Bytes>)
    ensures SortedVisit(order, disk)
    decreases |disk|
  {
    if disk == map[] {
      order := [];
    } else {
      var d :| d in disk;
      assert d in disk.Keys;
      FirstExists(disk.Keys);
      var first :| first in disk.Keys && IsFirst(disk.Keys, first);
      SmallerMap(disk, first);
      var rest := SortedVisitExists(disk - {first});
      order := [first] + rest;
      FirstThenRest(disk, first, rest);
    }
  }

  lemma FirstThenRest(disk: Disk, first: Bytes, rest: seq<Bytes>)
    requires first in disk && IsFirst(disk.Keys, first) && SortedVisit(rest, disk - {first})
    ensures SortedVisit([first] + rest, disk)
  {
    hide TextBefore;
    var order := [first] + rest;
    assert forall e :: e in order <==> e == first || e in rest;
    forall i, j | 0 <= i < j < |order|
      ensures order[i] != order[j] && TextBefore(order[i], order[j])
    {
      assert order[j] == rest[j - 1] && rest[j - 1] in rest;
      assert order[j] in (disk - {first});
    }
  }

  // -------------------------------------------------------------- every order

  /** No key that ends alive in one directory starts alive in one of another class. */
  ghost predicate NoClash(u: Utf8, cls: Bytes -> Bytes, disk: Disk)
  {
    forall d, e, k :: EndsAlive(u, disk, d, k) && StartsAlive(u, disk, e, k) ==> cls(d) == cls(e)
  }

  ghost predicate Visits(order: seq<Bytes>, disk: Disk)
  {
    && (forall d :: d in order ==> d in disk)
    && forall i, j :: 0 <= i < j < |order| ==> order[i] != order[j]
  }

  /** Any visit can be completed to one of all directories. */
  lemma {:induction false} CompletesTo(disk: Disk, start: seq<Bytes>) returns (order: seq<Bytes>)
    requires Visits(start, disk)
    ensures Enumerates(order, disk) && start <= order
    decreases |disk.Keys - Names(start)|
  {
    if disk.Keys <= Names(start) {
      order := start;
    } else {
      var d :| d in disk.Keys && d !in Names(start);
      assert disk.Keys - Names(start + [d]) == (disk.Keys - Names(start)) - {d};
      order := CompletesTo(disk, start + [d]);
    }
  }

  /** A disk opens in every order, whatever names its directories have, if and only if no
      key clashes. */
  lemma OpensInEveryOrderIff(u: Utf8, cls: Bytes -> Bytes, disk: Disk)
    requires OneClassEach(u, cls, disk)
    ensures (forall order :: Enumerates(order, disk) ==> Rebuild(u, disk, order).Some?) <==> NoClash(u, cls, disk)
  {
    hide Rebuild, OneClassEach, EndsAlive, StartsAlive, IndexHolds, Mentions;
    if NoClash(u, cls, disk) {
      forall order | Enumerates(order, disk)
        ensures Rebuild(u, disk, order).Some?
      {
        OpensIff(u, cls, disk, order);
      }
    } else {
      var d, e, k :| EndsAlive(u, disk, d, k) && StartsAlive(u, disk, e, k) && cls(d) != cls(e);
      BothAreThere(u, disk, d, e, k);
      var order := CompletesTo(disk, [d, e]);
      assert order[0] == d && order[1] == e;
      OpensIff(u, cls, disk, order);
      assert Holds(u, disk, order, 1, 0, k);
      assert !AgreesAt(u, cls, disk, order, 1);
    }
  }

  // ------------------------------------------------------------ every run

  ghost predicate IsString(u: Utf8, location: Location)
  {
    u(location.class_)
  }

  /** What every run keeps, whatever classes its keys have: clean segments with values of
      the directory's class, and an index of strings. */
  ghost predicate ClassesOk(u: Utf8, cls: Bytes -> Bytes, s: State)
  {
    && (forall d :: d in s.disk ==> DirClassOk(u, cls(d), s.disk[d]))
    && forall k :: k in s.index ==> u(k) && IsString(u, s.index[k])
  }

  ghost predicate DirClassOk(u: Utf8, class_: Bytes, segs: Dir)
  {
    forall i :: 0 <= i < |segs| ==> Clean(u, segs[i].bytes) && Owned(u, Only(class_), segs[i].bytes)
  }

  /** Directories stand for classes. */
  ghost predicate StandsFor<V>(c: Codec<V>, cls: Bytes -> Bytes)
  {
    forall class_ :: cls(c.classDir(class_)) == class_
  }

  lemma OneRecord(u: Utf8, class_: Bytes, r: Bytes)
    requires IsRecord(u, r) && (HeaderOf(u, r).flag == FLAG_VALUE ==> ClassOf(u, r) == class_)
    ensures r != [] && Clean(u, r) && Salvage(u, r).kept == r && Owned(u, Only(class_), r)
    ensures HeaderOf(u, r).flag == FLAG_VALUE ==> FirstIsValue(u, r, KeyOf(u, r))
  {
    assert r[|r|..] == [];
    assert Owned(u, Only(class_), []);
    RecordIsClean(u, r);
    SalvageOfClean(u, r);
    hide Salvage;
  }

  lemma WriteKeepsClass(u: Utf8, class_: Bytes, segs: Dir, id: nat, r: Bytes)
    requires DirClassOk(u, class_, segs) && Clean(u, r) && Owned(u, Only(class_), r)
    ensures DirClassOk(u, class_, WriteAt(segs, id, r))
  {
    hide Clean, Owned;
    if segs != [] {
      CleanConcat(u, segs[|segs| - 1].bytes, r);
      OwnedConcat(u, Only(class_), segs[|segs| - 1].bytes, r);
    }
  }

  lemma AppendKeepsClasses<V>(cfg: Config, c: Codec<V>, cls: Bytes -> Bytes, s: State, key: Bytes, class_: Bytes,
                              value: Option<V>)
    requires StandsFor(c, cls) && ClassesOk(c.utf8, cls, s) && c.utf8(key) && c.utf8(class_)
    ensures var (t, location) := Append(cfg, c, s, key, class_, value);
      ClassesOk(c.utf8, cls, t) && (location.Ok? ==> IsString(c.utf8, location.value))
  {
    hide BuildRecord, DirClassOk, Target, WriteAt, RecordLen, HeaderOf, KeyOf, ClassOf, Clean, Owned, Salvage;
    var r := BuildRecord(c, key, class_, value);
    if r.Ok? {
      BuiltRecordIsRecord(c, key, class_, value);
      OneRecord(c.utf8, class_, r.value);
      var d := c.classDir(class_);
      assert DirClassOk(c.utf8, class_, DirOn(s.disk, d)) by { EmptyClassOk(c.utf8, class_); }
      WriteKeepsClass(c.utf8, class_, DirOn(s.disk, d), Target(cfg, DirOn(s.disk, d), |r.value|).0, r.value);
    }
  }

  lemma EmptyClassOk(u: Utf8, class_: Bytes)
    ensures DirClassOk(u, class_, [])
  {
  }

  lemma {:induction false} EffectsAreStrings(u: Utf8, path: Path, base: nat, b: Bytes, k: Bytes)
    requires k in LogEffects(u, path, base, b)
    ensures u(k) && (LogEffects(u, path, base, b)[k].Some? ==> IsString(u, LogEffects(u, path, base, b)[k].value))
    decreases |b|
  {
    hide RecordLen, HeaderOf, KeyOf, ClassOf;
    RecordIsUtf8(u, b);
    var n := RecordLen(u, b).value;
    if k in LogEffects(u, path, base + n, b[n..]) {
      EffectsAreStrings(u, path, base + n, b[n..], k);
    }
  }

  lemma {:induction false} DirEffectsAreStrings(u: Utf8, dir: Bytes, segs: Dir, k: Bytes)
    requires k in DirEffects(u, dir, segs)
    ensures u(k) && (DirEffects(u, dir, segs)[k].Some? ==> IsString(u, DirEffects(u, dir, segs)[k].value))
  {
    hide LogEffects;
    var n := |segs| - 1;
    if k in LogEffects(u, Path(dir, segs[n].id), 0, segs[n].bytes) {
      EffectsAreStrings(u, Path(dir, segs[n].id), 0, segs[n].bytes, k);
    } else {
      DirEffectsAreStrings(u, dir, segs[..n], k);
    }
  }

  lemma {:induction false} ReopenKeepsClasses(u: Utf8, cls: Bytes -> Bytes, disk: Disk, order: seq<Bytes>)
    requires forall d :: d in disk ==> DirClassOk(u, cls(d), disk[d])
    requires (forall d :: d in order ==> d in disk) && Rebuild(u, disk, order).Some?
    ensures var r := Rebuild(u, disk, order).value;
      && r.disk == disk
      && forall k :: k in r.index ==> u(k) && IsString(u, r.index[k])
    decreases |order|
  {
    hide OpenDir, DirEffects, Clean, Owned, Salvage;
    if order != [] {
      var n := |order| - 1;
      var d := order[n];
      ReopenKeepsClasses(u, cls, disk, order[..n]);
      var r := Rebuild(u, disk, order[..n]).value;
      OpenDirSound(u, d, disk[d], r.index);
      CleanDirIsItsSalvage(u, cls(d), disk[d]);
      var e := DirEffects(u, d, disk[d]);
      var index := Rebuild(u, disk, order).value.index;
      forall k | k in index
        ensures u(k) && IsString(u, index[k])
      {
        OverlayAt(r.index, e, k);
        if k in e {
          DirEffectsAreStrings(u, d, disk[d], k);
        }
      }
    }
  }

  lemma CleanDirIsItsSalvage(u: Utf8, class_: Bytes, segs: Dir)
    requires DirClassOk(u, class_, segs)
    ensures SalvageDir(u, segs) == segs && DirOfClass(u, class_, segs)
  {
    hide Clean, Owned, Salvage;
    forall i | 0 <= i < |segs|
      ensures Salvage(u, segs[i].bytes).kept == segs[i].bytes
    {
      SalvageOfClean(u, segs[i].bytes);
    }
  }

  ghost predicate Strings<V>(c: Codec<V>, op: Op<V>)
  {
    op.PutOp? ==> c.utf8(op.key) && c.utf8(op.entry.class_)
  }

  lemma RunOneKeepsClasses<V>(cfg: Config, c: Codec<V>, cls: Bytes -> Bytes, s: State, op: Op<V>)
    requires StandsFor(c, cls) && ClassesOk(c.utf8, cls, s) && Strings(c, op)
    ensures ClassesOk(c.utf8, cls, RunOne(cfg, c, s, op).0)
  {
    hide Append, Rebuild, DirClassOk;
    match op
    case PutOp(key, entry) => AppendKeepsClasses(cfg, c, cls, s, key, entry.class_, Some(entry.value));
    case RemoveOp(key) =>
      if key in s.index {
        AppendKeepsClasses(cfg, c, cls, s, key, s.index[key].class_, None);
      }
    case ReopenOp(order) =>
      if Enumerates(order, s.disk) && Rebuild(c.utf8, s.disk, order).Some? {
        ReopenKeepsClasses(c.utf8, cls, s.disk, order);
      }
  }

  lemma {:induction false} RunKeepsClasses<V>(cfg: Config, c: Codec<V>, cls: Bytes -> Bytes, ops: seq<Op<V>>)
    requires StandsFor(c, cls) && forall i :: 0 <= i < |ops| ==> Strings(c, ops[i])
    ensures var t := Run(cfg, c, State(map[], map[], 0, 0), ops);
      ClassesOk(c.utf8, cls, t) && OneClassEach(c.utf8, cls, t.disk)
    decreases |ops|
  {
    hide RunOne, Strings, DirClassOk, DirOfClass, StandsFor;
    var t := Run(cfg, c, State(map[], map[], 0, 0), ops);
    if ops != [] {
      var n := |ops| - 1;
      RunKeepsClasses(cfg, c, cls, ops[..n]);
      RunOneKeepsClasses(cfg, c, cls, Run(cfg, c, State(map[], map[], 0, 0), ops[..n]), ops[n]);
    }
    forall d | d in t.disk
      ensures DirOfClass(c.utf8, cls(d), t.disk[d])
    {
      CleanDirIsItsSalvage(c.utf8, cls(d), t.disk[d]);
    }
  }

  /** After any run from the empty store, with keys under whatever classes they were put:
      when the source can open the files again, when a given order can, and when all can. */
  lemma RunReopensIff<V>(cfg: Config, c: Codec<V>, cls: Bytes -> Bytes, ops: seq<Op<V>>, order: seq<Bytes>)
    requires StandsFor(c, cls) && forall i :: 0 <= i < |ops| ==> Strings(c, ops[i])
    requires Enumerates(order, Run(cfg, c, State(map[], map[], 0, 0), ops).disk)
    ensures var disk := Run(cfg, c, State(map[], map[], 0, 0), ops).disk;
      && (Rebuild(c.utf8, disk, order).Some? <==> OrderAgrees(c.utf8, cls, disk, order))
      && (SortedVisit(order, disk) ==> (Rebuild(c.utf8, disk, order).Some? <==> SortedAgrees(c.utf8, cls, disk)))
      && (NoClash(c.utf8, cls, disk) <==> forall o :: Enumerates(o, disk) ==> Rebuild(c.utf8, disk, o).Some?)
  {
    RunKeepsClasses(cfg, c, cls, ops);
    hide Run, Strings, StandsFor, Rebuild, OrderAgrees, SortedAgrees, NoClash, OneClassEach, ClassesOk, IndexHolds;
    var disk := Run(cfg, c, State(map[], map[], 0, 0), ops).disk;
    OpensIff(c.utf8, cls, disk, order);
    if SortedVisit(order, disk) {
      SourceOpensIff(c.utf8, cls, disk, order);
    }
    OpensInEveryOrderIff(c.utf8, cls, disk);
  }

  // ------------------------------------------------- how a store gets there

  /** The directory of a class after a key was put and removed in it: the two records in
      one segment, or in two when the second rotated. */
  ghost predicate PutThenRemoved(segs: Dir, put: Bytes, gone: Bytes)
  {
    segs == [Segment(0, put + gone)] || segs == [Segment(0, put), Segment(1, gone)]
  }

  lemma TwoRecords(u: Utf8, class_: Bytes, put: Bytes, gone: Bytes)
    requires IsRecord(u, put) && IsRecord(u, gone) && KeyOf(u, put) == KeyOf(u, gone)
    requires HeaderOf(u, put).flag == FLAG_VALUE && ClassOf(u, put) == class_ && HeaderOf(u, gone).flag != FLAG_VALUE
    ensures var b := put + gone;
      Salvage(u, b).kept == b && Owned(u, Only(class_), b) && FirstIsValue(u, b, KeyOf(u, put))
  {
    hide RecordLen, HeaderOf, KeyOf, ClassOf, Clean, Owned, Salvage;
    OneRecord(u, class_, put);
    OneRecord(u, class_, gone);
    CleanStep(u, put, gone);
    OwnedConcat(u, Only(class_), put, gone);
    CleanConcat(u, put, gone);
    SalvageOfClean(u, put + gone);
  }

  lemma TwoEffects(u: Utf8, path: Path, put: Bytes, gone: Bytes)
    requires IsRecord(u, put) && IsRecord(u, gone) && KeyOf(u, put) == KeyOf(u, gone)
    requires HeaderOf(u, gone).flag != FLAG_VALUE
    ensures LogEffects(u, path, 0, put).Keys == {KeyOf(u, put)}
    ensures LogEffects(u, path, 0, gone) == map[KeyOf(u, put) := None]
    ensures LogEffects(u, path, 0, put + gone) == map[KeyOf(u, put) := None]
  {
    hide RecordLen, HeaderOf, KeyOf, ClassOf, Clean, LogEffects;
    RecordEffects(u, path, 0, put);
    RecordEffects(u, path, 0, gone);
    RecordEffects(u, path, |put|, gone);
    RecordIsClean(u, put);
    LogEffectsConcat(u, path, 0, put, gone);
  }

  lemma PutThenRemovedStarts(u: Utf8, dir: Bytes, segs: Dir, put: Bytes, gone: Bytes, class_: Bytes, key: Bytes)
    requires PutThenRemoved(segs, put, gone) && IsRecord(u, put) && IsRecord(u, gone)
    requires KeyOf(u, put) == key && HeaderOf(u, put).flag == FLAG_VALUE && ClassOf(u, put) == class_
    requires KeyOf(u, gone) == key && HeaderOf(u, gone).flag != FLAG_VALUE
    ensures SalvageDir(u, segs) == segs && DirOfClass(u, class_, segs)
    ensures DirFirstIsValue(u, dir, segs, key)
    ensures DirEffects(u, dir, segs) == map[key := None]
  {
    hide RecordLen, HeaderOf, KeyOf, ClassOf, Clean, FirstIsValue, Owned, LogEffects, Salvage;
    OneRecord(u, class_, put);
    OneRecord(u, class_, gone);
    TwoRecords(u, class_, put, gone);
    TwoEffects(u, Path(dir, 0), put, gone);
    TwoEffects(u, Path(dir, 1), put, gone);
    if segs == [Segment(0, put + gone)] {
      assert segs[..0] == [];
    } else {
      assert segs[..1] == [Segment(0, put)] && segs[..1][..0] == [];
    }
  }

  /** One record alone in its directory. */
  lemma PutAlone(u: Utf8, class_: Bytes, dir: Bytes, put: Bytes, effect: Effects)
    requires Salvage(u, put).kept == put && Owned(u, Only(class_), put)
    requires LogEffects(u, Path(dir, 0), 0, put) == effect
    ensures var segs := [Segment(0, put)];
      SalvageDir(u, segs) == segs && DirOfClass(u, class_, segs) && DirEffects(u, dir, segs) == effect
  {
    hide Owned, LogEffects, Salvage;
    assert [Segment(0, put)][..0] == [];
  }

  /** What the files are after a key was put, removed and put again under another class. */
  lemma FilesAfterClassChange<V>(cfg: Config, c: Codec<V>, key: Bytes, x: Entry<V>, y: Entry<V>)
    requires c.utf8(key) && c.utf8(x.class_) && c.utf8(y.class_) && c.classDir(x.class_) != c.classDir(y.class_)
    requires var s1 := Put(cfg, c, State(map[], map[], 0, 0), key, x);
      var s2 := Remove(cfg, c, s1.0, key);
      s1.1.None? && s2.1.Ok? && Put(cfg, c, s2.0, key, y).1.None?
    ensures BuildRecord(c, key, x.class_, Some(x.value)).Ok? && BuildRecord(c, key, x.class_, None).Ok?
    ensures BuildRecord(c, key, y.class_, Some(y.value)).Ok?
    ensures var s1 := Put(cfg, c, State(map[], map[], 0, 0), key, x).0;
      var t := Put(cfg, c, Remove(cfg, c, s1, key).0, key, y).0;
      var (dx, dy) := (c.classDir(x.class_), c.classDir(y.class_));
      && t.disk.Keys == {dx, dy} && key in t.index
      && PutThenRemoved(t.disk[dx], BuildRecord(c, key, x.class_, Some(x.value)).value,
                        BuildRecord(c, key, x.class_, None).value)
      && t.disk[dy] == [Segment(0, BuildRecord(c, key, y.class_, Some(y.value)).value)]
  {
    hide BuildRecord;
    var s1 := Put(cfg, c, State(map[], map[], 0, 0), key, x).0;
    var s2 := Remove(cfg, c, s1, key).0;
    var put := BuildRecord(c, key, x.class_, Some(x.value)).value;
    assert s1.disk[c.classDir(x.class_)] == [Segment(0, put)];
    assert s2.disk.Keys == {c.classDir(x.class_)};
  }

  /** A key that changes class can make the store refuse to open. It is enough to put a key,
      remove it, and put it again under a class with another directory, all accepted, in
      a store that was empty: the key is there to read, and the source opens the files
      exactly if the name of the first directory comes before that of the second. */
  lemma ClassChangeBlocksReopening<V>(cfg: Config, c: Codec<V>, key: Bytes, x: Entry<V>, y: Entry<V>)
    requires c.utf8(key) && c.utf8(x.class_) && c.utf8(y.class_) && c.classDir(x.class_) != c.classDir(y.class_)
    requires var s1 := Put(cfg, c, State(map[], map[], 0, 0), key, x);
      var s2 := Remove(cfg, c, s1.0, key);
      s1.1.None? && s2.1.Ok? && Put(cfg, c, s2.0, key, y).1.None?
    ensures var s1 := Put(cfg, c, State(map[], map[], 0, 0), key, x).0;
      var t := Put(cfg, c, Remove(cfg, c, s1, key).0, key, y).0;
      var (dx, dy) := (c.classDir(x.class_), c.classDir(y.class_));
      && t.disk.Keys == {dx, dy} && key in t.index
      && forall order :: SortedVisit(order, t.disk) ==>
           (Rebuild(c.utf8, t.disk, order).Some? <==> TextBefore(dx, dy))
  {
    var u, dx, dy := c.utf8, c.classDir(x.class_), c.classDir(y.class_);
    var s1 := Put(cfg, c, State(map[], map[], 0, 0), key, x).0;
    var t := Put(cfg, c, Remove(cfg, c, s1, key).0, key, y).0;
    FilesAfterClassChange(cfg, c, key, x, y);
    BuiltRecordIsRecord(c, key, x.class_, Some(x.value));
    BuiltRecordIsRecord(c, key, x.class_, None);
    BuiltRecordIsRecord(c, key, y.class_, Some(y.value));
    hide BuildRecord, Put, Remove, RecordLen, HeaderOf, KeyOf, ClassOf, PutThenRemoved, Rebuild;
    var put, gone := BuildRecord(c, key, x.class_, Some(x.value)).value, BuildRecord(c, key, x.class_, None).value;
    var again := BuildRecord(c, key, y.class_, Some(y.value)).value;
    PutThenRemovedStarts(u, dx, t.disk[dx], put, gone, x.class_, key);
    OneRecord(u, y.class_, again);
    RecordEffects(u, Path(dy, 0), 0, again);
    hide Owned, LogEffects, Salvage, Clean, FirstIsValue;
    PutAlone(u, y.class_, dy, again, EffectOf(u, Path(dy, 0), 0, again));
    hide DirFirstIsValue, DirEffects, DirOfClass;
    TwoDirectories(u, t.disk, dx, dy, x.class_, y.class_, key);
    forall order | SortedVisit(order, t.disk)
      ensures order == if TextBefore(dx, dy) then [dx, dy] else [dy, dx]
    {
      OrderOfTwo(order, t.disk, dx, dy);
    }
  }

  lemma ThreeDiffer(order: seq<Bytes>)
    requires forall i, j :: 0 <= i < j < |order| ==> order[i] != order[j]
    ensures |order| > 2 ==> order[0] != order[1] && order[1] != order[2] && order[0] != order[2]
  {
  }

  lemma OrderOfTwo(order: seq<Bytes>, disk: Disk, d: Bytes, e: Bytes)
    requires SortedVisit(order, disk) && disk.Keys == {d, e} && d != e
    ensures order == if TextBefore(d, e) then [d, e] else [e, d]
  {
    hide TextBefore;
    var i := PlaceOf(order, disk, d);
    var j := PlaceOf(order, disk, e);
    forall m | 0 <= m < |order|
      ensures order[m] == order[i] || order[m] == order[j]
    {
      assert order[m] in disk;
    }
    TextOrderIsTotal(d, e);
    ThreeDiffer(order);
    assert i != j && |order| == 2;
  }

  /** The files in the two orders. */
  lemma TwoDirectories(u: Utf8, disk: Disk, d: Bytes, e: Bytes, cd: Bytes, ce: Bytes, key: Bytes)
    requires d != e && cd != ce && disk.Keys == {d, e}
    requires DirOfClass(u, cd, disk[d]) && DirOfClass(u, ce, disk[e])
    requires SalvageDir(u, disk[d]) == disk[d] && SalvageDir(u, disk[e]) == disk[e]
    requires DirFirstIsValue(u, d, disk[d], key) && DirEffects(u, d, disk[d]) == map[key := None]
    requires key in DirEffects(u, e, disk[e]) && DirEffects(u, e, disk[e])[key].Some?
    ensures Rebuild(u, disk, [d, e]).Some? && Rebuild(u, disk, [e, d]).None?
  {
    hide DirEffects, DirFirstIsValue, DirOfClass, SalvageDir, Rebuild, IndexHolds;
    var cls := (x: Bytes) => if x == d then cd else ce;
    var bad, good := [e, d], [d, e];
    OpensIff(u, cls, disk, good);
    OpensIff(u, cls, disk, bad);
    assert Holds(u, disk, bad, 1, 0, key) && StartsAlive(u, disk, bad[1], key);
    assert !AgreesAt(u, cls, disk, bad, 1);
    forall k
      ensures !Holds(u, disk, good, 1, 0, k)
    {
      assert !EndsAlive(u, disk, d, k);
    }
    assert AgreesAt(u, cls, disk, good, 0) && AgreesAt(u, cls, disk, good, 1);
  }
}
