/** Replaying, scanning and salvaging one Cold segment file.

    `Replay`, `ScanFrom` and `Salvage` are functions of the bytes still to be read
    (`b`, found at offset `base`); the methods of ColdStore do the same work as the
    source does it, with offsets into the whole file. */
module ColdLog {
  import opened Prelude
  import opened ColdRecord

  datatype Path = Path(dir: Bytes, id: nat)

  datatype Location = Location(path: Path, offset: nat, totalLen: nat, class_: Bytes)

  type Index = map<Bytes, Location>

  // ------------------------------------------------------------ clean logs

  /** `b` is a concatenation of complete records. */
  predicate Clean(u: Utf8, b: Bytes)
    decreases |b|
  {
    b == [] || (RecordLen(u, b).Some? && Clean(u, b[RecordLen(u, b).value..]))
  }

  /** How many bytes of `b` the complete records at its front take. */
  function CleanLen(u: Utf8, b: Bytes): (n: nat)
    ensures n <= |b|
    decreases |b|
  {
    match RecordLen(u, b)
    case None => 0
    case Some(n) => n + CleanLen(u, b[n..])
  }

  lemma {:induction false} CleanIffCleanLen(u: Utf8, b: Bytes)
    ensures Clean(u, b) <==> CleanLen(u, b) == |b|
    decreases |b|
  {
    hide RecordLen, HeaderOf, KeyOf, ClassOf;
    if RecordLen(u, b).Some? {
      CleanIffCleanLen(u, b[RecordLen(u, b).value..]);
    }
  }

  /** One step into a concatenation whose first part is a nonempty clean log. */
  lemma CleanStep(u: Utf8, a: Bytes, t: Bytes)
    requires Clean(u, a) && a != []
    ensures RecordLen(u, a).Some? && RecordLen(u, a + t) == RecordLen(u, a)
    ensures HeaderOf(u, a + t) == HeaderOf(u, a)
    ensures KeyOf(u, a + t) == KeyOf(u, a) && ClassOf(u, a + t) == ClassOf(u, a)
    ensures (a + t)[RecordLen(u, a).value..] == a[RecordLen(u, a).value..] + t
    ensures Clean(u, a[RecordLen(u, a).value..])
  {
    hide RecordLen, HeaderOf, KeyOf, ClassOf;
    var n := RecordLen(u, a).value;
    hide Clean;
    CutInFirst(a, t, n);
    RecordIsLocal(u, a, a + t);
  }

  lemma CutInFirst(a: Bytes, t: Bytes, n: nat)
    requires n <= |a|
    ensures (a + t)[..n] == a[..n] && (a + t)[n..] == a[n..] + t
  {
  }

  lemma {:induction false} CleanLenConcat(u: Utf8, a: Bytes, t: Bytes)
    requires Clean(u, a)
    ensures CleanLen(u, a + t) == |a| + CleanLen(u, t)
    decreases |a|
  {
    hide RecordLen, HeaderOf, KeyOf, ClassOf;
    if a == [] {
      assert a + t == t;
    } else {
      CleanStep(u, a, t);
      CleanLenConcat(u, a[RecordLen(u, a).value..], t);
    }
  }

  lemma CleanConcat(u: Utf8, a: Bytes, t: Bytes)
    requires Clean(u, a)
    ensures Clean(u, a + t) <==> Clean(u, t)
  {
    hide RecordLen, HeaderOf, KeyOf, ClassOf;
    CleanLenConcat(u, a, t);
    CleanIffCleanLen(u, a + t);
    CleanIffCleanLen(u, t);
  }

  lemma RecordIsClean(u: Utf8, r: Bytes)
    requires IsRecord(u, r)
    ensures Clean(u, r)
  {
    assert r[|r|..] == [];
  }

  lemma {:induction false} CleanPrefixIsClean(u: Utf8, b: Bytes)
    ensures Clean(u, b[..CleanLen(u, b)])
    ensures RecordLen(u, b[CleanLen(u, b)..]).None?
    decreases |b|
  {
    hide RecordLen, HeaderOf, KeyOf, ClassOf;
    match RecordLen(u, b) {
      case None =>
        assert b[0..] == b;
      case Some(n) =>
        var v := CleanLen(u, b);
        var rest := b[n..];
        CleanPrefixIsClean(u, rest);
        FirstRecord(u, b);
        RecordIsClean(u, b[..n]);
        assert b[..v] == b[..n] + rest[..CleanLen(u, rest)];
        CleanConcat(u, b[..n], rest[..CleanLen(u, rest)]);
        assert b[v..] == rest[CleanLen(u, rest)..];
    }
  }

  // ---------------------------------------------------------------- replay

  /** What indexing one record does; `None` is the "key under two classes" error. */
  function Apply(u: Utf8, path: Path, base: nat, r: Bytes, index: Index): Option<Index>
    requires RecordLen(u, r).Some?
  {
    var key := KeyOf(u, r);
    if HeaderOf(u, r).flag == FLAG_VALUE then
      if key in index && index[key].class_ != ClassOf(u, r) then None
      else Some(index[key := Location(path, base, RecordLen(u, r).value, ClassOf(u, r))])
    else
      Some(index - {key})
  }

  /** Indexing the complete records at the front of `b`. */
  function Replay(u: Utf8, path: Path, base: nat, b: Bytes, index: Index): Option<Index>
    decreases |b|
  {
    match RecordLen(u, b)
    case None => Some(index)
    case Some(n) =>
      match Apply(u, path, base, b, index)
      case None => None
      case Some(next) => Replay(u, path, base + n, b[n..], next)
  }

  /** Replay over a concatenation is replay of the parts in turn. */
  lemma {:induction false} ReplayConcat(u: Utf8, path: Path, base: nat, a: Bytes, t: Bytes, index: Index)
    requires Clean(u, a)
    ensures Replay(u, path, base, a + t, index) ==
      match Replay(u, path, base, a, index)
      case None => None
      case Some(mid) => Replay(u, path, base + |a|, t, mid)
    decreases |a|
  {
    hide RecordLen, HeaderOf, KeyOf, ClassOf;
    if a == [] {
      assert a + t == t;
    } else {
      CleanStep(u, a, t);
      var n := RecordLen(u, a).value;
      var next := Apply(u, path, base, a, index);
      if next.Some? {
        ReplayConcat(u, path, base + n, a[n..], t, next.value);
      }
    }
  }

  /** Only the clean front of `b` is replayed. */
  lemma ReplayCleanPrefix(u: Utf8, path: Path, base: nat, b: Bytes, index: Index)
    ensures Replay(u, path, base, b, index) == Replay(u, path, base, b[..CleanLen(u, b)], index)
  {
    hide RecordLen, HeaderOf, KeyOf, ClassOf;
    var v := CleanLen(u, b);
    CleanPrefixIsClean(u, b);
    assert b == b[..v] + b[v..];
    ReplayConcat(u, path, base, b[..v], b[v..], index);
  }

  // --------------------------------------------------------------- effects

  /** The last word of a log on every key it mentions: a location, or removed. */
  type Effects = map<Bytes, Option<Location>>

  function EffectOf(u: Utf8, path: Path, base: nat, r: Bytes): Effects
    requires RecordLen(u, r).Some?
  {
    map[KeyOf(u, r) :=
      if HeaderOf(u, r).flag == FLAG_VALUE
      then Some(Location(path, base, RecordLen(u, r).value, ClassOf(u, r)))
      else None]
  }

  function LogEffects(u: Utf8, path: Path, base: nat, b: Bytes): Effects
    decreases |b|
  {
    match RecordLen(u, b)
    case None => map[]
    case Some(n) => EffectOf(u, path, base, b) + LogEffects(u, path, base + n, b[n..])
  }

  function Overlay(index: Index, e: Effects): Index
  {
    (index - e.Keys) + map k | k in e && e[k].Some? :: e[k].value
  }

  lemma OverlayTwice(index: Index, e: Effects, f: Effects)
    ensures Overlay(Overlay(index, e), f) == Overlay(index, e + f)
  {
    var a, b := Overlay(Overlay(index, e), f), Overlay(index, e + f);
    forall k
      ensures (k in a <==> k in b) && (k in a ==> a[k] == b[k])
    {
      OverlayAt(index, e, k);
      OverlayAt(Overlay(index, e), f, k);
      OverlayAt(index, e + f, k);
    }
    hide Overlay;
    assert a == b;
  }

  lemma OverlayAt(index: Index, e: Effects, k: Bytes)
    ensures k in Overlay(index, e) <==> if k in e then e[k].Some? else k in index
    ensures k in Overlay(index, e) ==> Overlay(index, e)[k] == if k in e then e[k].value else index[k]
  {
  }

  lemma OverlayNothing(index: Index)
    ensures Overlay(index, map[]) == index
  {
  }

  lemma ApplyIsOverlay(u: Utf8, path: Path, base: nat, r: Bytes, index: Index)
    requires RecordLen(u, r).Some? && Apply(u, path, base, r, index).Some?
    ensures Apply(u, path, base, r, index).value == Overlay(index, EffectOf(u, path, base, r))
  {
    hide RecordLen, HeaderOf, KeyOf, ClassOf;
  }

  /** A replay that succeeds overlays the effects of the log, whatever it met before. */
  lemma {:induction false} ReplayIsOverlay(u: Utf8, path: Path, base: nat, b: Bytes, index: Index)
    requires Replay(u, path, base, b, index).Some?
    ensures Replay(u, path, base, b, index).value == Overlay(index, LogEffects(u, path, base, b))
    decreases |b|
  {
    hide RecordLen, HeaderOf, KeyOf, ClassOf, Apply, EffectOf, Overlay;
    match RecordLen(u, b) {
      case None =>
        OverlayNothing(index);
      case Some(n) =>
        var next := Apply(u, path, base, b, index).value;
        ApplyIsOverlay(u, path, base, b, index);
        ReplayIsOverlay(u, path, base + n, b[n..], next);
        OverlayTwice(index, EffectOf(u, path, base, b), LogEffects(u, path, base + n, b[n..]));
    }
  }

  /** Replaying a log on the index it produced changes nothing. */
  lemma ReplayAgain(u: Utf8, path: Path, base: nat, b: Bytes, index: Index, once: Index)
    requires Replay(u, path, base, b, index) == Some(once)
    requires Replay(u, path, base, b, once).Some?
    ensures Replay(u, path, base, b, once) == Some(once)
  {
    hide RecordLen, HeaderOf, KeyOf, ClassOf;
    var e := LogEffects(u, path, base, b);
    ReplayIsOverlay(u, path, base, b, index);
    ReplayIsOverlay(u, path, base, b, once);
    OverlayTwice(index, e, e);
    assert e + e == e;
  }

  /** The half-updated index left by an aborted scan does no harm: replaying the
      whole log from it, if not refused, ends where a replay from the index
      before the aborted scan ends. */
  lemma HalfScanIsHarmless(u: Utf8, path: Path, pre: Bytes, post: Bytes, index: Index, half: Index)
    requires Clean(u, pre)
    requires Replay(u, path, 0, pre, index) == Some(half)
    requires Replay(u, path, 0, pre + post, half).Some?
    ensures Replay(u, path, 0, pre + post, half) == Replay(u, path, 0, pre + post, index)
  {
    hide RecordLen, HeaderOf, KeyOf, ClassOf;
    ReplayConcat(u, path, 0, pre, post, half);
    ReplayConcat(u, path, 0, pre, post, index);
    ReplayAgain(u, path, 0, pre, index, half);
  }

  // ------------------------------------------------------ one class per key

  /** Every value record of `b` carries the class its key is meant to have. */
  ghost predicate Owned(u: Utf8, owner: Bytes -> Bytes, b: Bytes)
    decreases |b|
  {
    match RecordLen(u, b)
    case None => true
    case Some(n) =>
      && (HeaderOf(u, b).flag == FLAG_VALUE ==> ClassOf(u, b) == owner(KeyOf(u, b)))
      && Owned(u, owner, b[n..])
  }

  ghost predicate IndexOwned(owner: Bytes -> Bytes, index: Index)
  {
    forall k :: k in index ==> index[k].class_ == owner(k)
  }

  lemma {:induction false} OwnedReplaySucceeds(u: Utf8, owner: Bytes -> Bytes, path: Path, base: nat, b: Bytes,
                                               index: Index)
    requires Owned(u, owner, b) && IndexOwned(owner, index)
    ensures Replay(u, path, base, b, index).Some?
    ensures IndexOwned(owner, Replay(u, path, base, b, index).value)
    decreases |b|
  {
    hide RecordLen, HeaderOf, KeyOf, ClassOf;
    match RecordLen(u, b) {
      case None =>
      case Some(n) =>
        OwnedReplaySucceeds(u, owner, path, base + n, b[n..], Apply(u, path, base, b, index).value);
    }
  }

  lemma {:induction false} OwnedConcat(u: Utf8, owner: Bytes -> Bytes, a: Bytes, t: Bytes)
    requires Clean(u, a)
    ensures Owned(u, owner, a + t) <==> Owned(u, owner, a) && Owned(u, owner, t)
    decreases |a|
  {
    hide RecordLen, HeaderOf, KeyOf, ClassOf;
    if a == [] {
      assert a + t == t;
    } else {
      CleanStep(u, a, t);
      OwnedConcat(u, owner, a[RecordLen(u, a).value..], t);
    }
  }

  // ------------------------------------------------------------------ scan

  datatype Scan = Indexed(validLen: nat, index: Index) | Corrupt(half: Index) | Fatal

  /** The header is readable and the announced record fits in `b`. */
  predicate Framed(b: Bytes)
  {
    && |b| >= HEADER_LEN
    && ParseHeader(b[..HEADER_LEN]).Some?
    && TotalLen(ParseHeader(b[..HEADER_LEN]).value) <= |b|
  }

  lemma StrictPrefixIsNotFramed(u: Utf8, r: Bytes, n: nat)
    requires IsRecord(u, r) && n < |r|
    ensures !Framed(r[..n])
  {
    if n >= HEADER_LEN {
      SubSlice(r, n, 0, HEADER_LEN);
    }
  }

  /** First position from `from` on where a structurally valid record starts. */
  function FindRecord(u: Utf8, b: Bytes, from: nat): (r: Option<nat>)
    ensures r.Some? ==> from <= r.value < |b| && RecordLen(u, b[r.value..]).Some?
    ensures forall j :: from <= j < (if r.Some? then r.value else |b|) ==> RecordLen(u, b[j..]).None?
    decreases |b| - from
  {
    if from + HEADER_LEN > |b| then None
    else if b[from..from + 4] == MAGIC && RecordLen(u, b[from..]).Some? then Some(from)
    else
      assert RecordLen(u, b[from..]).Some? ==> b[from..from + 4] == MAGIC by {
        StartsWithMagic(u, b[from..]);
        assert b[from..][..4] == b[from..from + 4];
      }
      FindRecord(u, b, from + 1)
  }

  lemma StartsWithMagic(u: Utf8, b: Bytes)
    ensures RecordLen(u, b).Some? ==> b[..4] == MAGIC
  {
    if RecordLen(u, b).Some? {
      SubSlice(b, HEADER_LEN, 0, 4);
    }
  }

  /** `tail_or_corrupt` on the unread bytes. */
  function TailOrCorrupt(u: Utf8, base: nat, b: Bytes, index: Index): Scan
  {
    if FindRecord(u, b, 1).Some? then Corrupt(index) else Indexed(base, index)
  }

  function ScanFrom(u: Utf8, path: Path, base: nat, b: Bytes, index: Index): Scan
    decreases |b|
  {
    if b == [] then Indexed(base, index)
    else match RecordLen(u, b)
      case None => if Framed(b) then Corrupt(index) else TailOrCorrupt(u, base, b, index)
      case Some(n) =>
        match Apply(u, path, base, b, index)
        case None => Fatal
        case Some(next) => ScanFrom(u, path, base + n, b[n..], next)
  }

  /** The scanner accepts exactly the records `RecordLen` accepts: it indexes the
      clean front of the file, and its verdict depends on the rest alone. */
  lemma {:induction false} ScanIsReplay(u: Utf8, path: Path, base: nat, b: Bytes, index: Index)
    ensures var v := CleanLen(u, b);
      var t := b[v..];
      ScanFrom(u, path, base, b, index) ==
        match Replay(u, path, base, b, index)
        case None => Fatal
        case Some(out) =>
          if t == [] then Indexed(base + v, out)
          else if Framed(t) then Corrupt(out)
          else TailOrCorrupt(u, base + v, t, out)
    decreases |b|
  {
    hide RecordLen, HeaderOf, KeyOf, ClassOf;
    match RecordLen(u, b) {
      case None =>
        assert b[0..] == b;
      case Some(n) =>
        var next := Apply(u, path, base, b, index);
        if next.Some? {
          ScanIsReplay(u, path, base + n, b[n..], next.value);
          assert b[n..][CleanLen(u, b[n..])..] == b[CleanLen(u, b)..];
        }
    }
  }

  // --------------------------------------------------------------- salvage

  datatype Salvaged = Salvaged(kept: Bytes, dropped: nat)

  /** The position the resynchronisation jumps to. */
  function NextRecord(u: Utf8, b: Bytes): (next: nat)
    requires b != []
    ensures 1 <= next <= |b|
    ensures forall j :: 1 <= j < next ==> RecordLen(u, b[j..]).None?
    ensures next < |b| ==> RecordLen(u, b[next..]).Some?
  {
    match FindRecord(u, b, 1)
    case None => |b|
    case Some(next) => next
  }

  function Salvage(u: Utf8, b: Bytes): Salvaged
    decreases |b|
  {
    if b == [] then Salvaged([], 0)
    else match RecordLen(u, b)
      case Some(n) =>
        var s := Salvage(u, b[n..]);
        Salvaged(b[..n] + s.kept, s.dropped)
      case None =>
        var next := NextRecord(u, b);
        var s := Salvage(u, b[next..]);
        Salvaged(s.kept, next + s.dropped)
  }

  /** Salvage is total, loses no byte silently, and leaves only complete records. */
  lemma {:induction false} SalvageIsClean(u: Utf8, b: Bytes)
    ensures |Salvage(u, b).kept| + Salvage(u, b).dropped == |b|
    ensures Clean(u, Salvage(u, b).kept)
    decreases |b|
  {
    hide RecordLen, HeaderOf, KeyOf, ClassOf;
    if b != [] {
      match RecordLen(u, b) {
        case Some(n) =>
          SalvageIsClean(u, b[n..]);
          FirstRecord(u, b);
          RecordIsClean(u, b[..n]);
          CleanConcat(u, b[..n], Salvage(u, b[n..]).kept);
        case None =>
          SalvageIsClean(u, b[NextRecord(u, b)..]);
      }
    }
  }

  /** Salvage keeps a clean front as it is. */
  lemma {:induction false} SalvageConcat(u: Utf8, a: Bytes, t: Bytes)
    requires Clean(u, a)
    ensures Salvage(u, a + t) == Salvaged(a + Salvage(u, t).kept, Salvage(u, t).dropped)
    decreases |a|
  {
    hide RecordLen, HeaderOf, KeyOf, ClassOf;
    if a == [] {
      assert a + t == t;
    } else {
      CleanStep(u, a, t);
      var n := RecordLen(u, a).value;
      SalvageConcat(u, a[n..], t);
      assert (a + t)[..n] == a[..n];
      assert a[..n] + (a[n..] + Salvage(u, t).kept) == a + Salvage(u, t).kept;
    }
  }

  lemma SalvageOfClean(u: Utf8, b: Bytes)
    requires Clean(u, b)
    ensures Salvage(u, b) == Salvaged(b, 0)
  {
    hide RecordLen, HeaderOf, KeyOf, ClassOf;
    SalvageConcat(u, b, []);
    assert b + [] == b;
  }

  /** Salvaging twice is salvaging once. */
  lemma SalvageIsIdempotent(u: Utf8, b: Bytes)
    ensures Salvage(u, Salvage(u, b).kept) == Salvaged(Salvage(u, b).kept, 0)
  {
    SalvageIsClean(u, b);
    SalvageOfClean(u, Salvage(u, b).kept);
  }

  /** No structurally valid record starts inside the span `d` that is followed by `post`. */
  ghost predicate NoRecordStarts(u: Utf8, d: Bytes, post: Bytes)
  {
    forall j :: 0 <= j < |d| ==> RecordLen(u, (d + post)[j..]).None?
  }

  lemma SalvageSkipsDamage(u: Utf8, d: Bytes, post: Bytes)
    requires Clean(u, post) && NoRecordStarts(u, d, post)
    ensures Salvage(u, d + post) == Salvaged(post, |d|)
  {
    hide RecordLen, HeaderOf, KeyOf, ClassOf, Clean, NextRecord;
    var t := d + post;
    SalvageOfClean(u, post);
    if d == [] {
      assert t == post;
    } else {
      assert RecordLen(u, t).None? by { assert t[0..] == t; }
      NextRecordAfterDamage(u, d, post);
      hide NoRecordStarts;
      assert t[|d|..] == post;
    }
  }

  /** Exactly the byte strings in which a record starts somewhere leave something
      behind when they are salvaged. */
  lemma NothingSalvagedIff(u: Utf8, t: Bytes)
    ensures Salvage(u, t).kept == [] <==> NoRecordStarts(u, t, [])
  {
    hide RecordLen, HeaderOf, KeyOf, ClassOf, Clean;
    assert t + [] == t;
    if t != [] && RecordLen(u, t).None? {
      var next := NextRecord(u, t);
      if next < |t| {
        assert Salvage(u, t[next..]).kept != [];
      } else {
        assert t[next..] == [];
        assert t[0..] == t;
      }
    } else if t != [] {
      assert t[0..] == t;
    }
  }

  /** A damaged span costs its own bytes and nothing else. */
  lemma SalvageDropsOnlyDamage(u: Utf8, pre: Bytes, d: Bytes, post: Bytes)
    requires Clean(u, pre) && Clean(u, post) && NoRecordStarts(u, d, post)
    ensures Salvage(u, pre + d + post) == Salvaged(pre + post, |d|)
  {
    hide NoRecordStarts, Clean, Salvage;
    SalvageSkipsDamage(u, d, post);
    assert pre + d + post == pre + (d + post);
    SalvageConcat(u, pre, d + post);
  }

  lemma NextRecordAfterDamage(u: Utf8, d: Bytes, post: Bytes)
    requires d != [] && Clean(u, post) && NoRecordStarts(u, d, post)
    ensures NextRecord(u, d + post) == |d|
    ensures FindRecord(u, d + post, 1).Some? <==> post != []
  {
    hide RecordLen, HeaderOf, KeyOf, ClassOf;
    var t := d + post;
    assert t[|d|..] == post;
    var next := NextRecord(u, t);
    assert post != [] ==> RecordLen(u, t[|d|..]).Some?;
  }

  // --------------------------------------------------- opening one segment

  datatype Opened = Opened(bytes: Bytes, index: Index, salvaged: bool)

  /** The body of the rebuild loop for one file: scan, salvage and rescan if the
      damage is in the middle, then cut what follows the valid length. */
  function OpenSegment(u: Utf8, path: Path, b: Bytes, index: Index): Option<Opened>
  {
    match ScanFrom(u, path, 0, b, index)
    case Fatal => None
    case Indexed(validLen, out) =>
      if validLen <= |b| then Some(Opened(b[..validLen], out, false)) else None
    case Corrupt(half) =>
      var kept := Salvage(u, b).kept;
      match ScanFrom(u, path, 0, kept, half)
      case Fatal => None
      case Corrupt(_) => None
      case Indexed(validLen, out) =>
        if validLen <= |kept| then Some(Opened(kept[..validLen], out, true)) else None
  }

  /** The "still damaged after salvage" branch is unreachable: the rescan accepts
      the salvaged file to its last byte, or stops on a class conflict. */
  lemma RescanAcceptsSalvaged(u: Utf8, path: Path, b: Bytes, half: Index)
    ensures var kept := Salvage(u, b).kept;
      ScanFrom(u, path, 0, kept, half) ==
        match Replay(u, path, 0, kept, half)
        case None => Fatal
        case Some(out) => Indexed(|kept|, out)
  {
    hide RecordLen, HeaderOf, KeyOf, ClassOf;
    var kept := Salvage(u, b).kept;
    SalvageIsClean(u, b);
    CleanIffCleanLen(u, kept);
    ScanIsReplay(u, path, 0, kept, half);
  }

  /** The bytes left after the clean front, when they are cut as a torn tail,
      are just what salvage would drop. */
  lemma TornTailIsSalvage(u: Utf8, b: Bytes)
    requires FindRecord(u, b[CleanLen(u, b)..], 1).None?
    ensures Salvage(u, b).kept == b[..CleanLen(u, b)]
  {
    hide RecordLen, HeaderOf, KeyOf, ClassOf, Clean, Salvage;
    var v := CleanLen(u, b);
    var t := b[v..];
    CleanPrefixIsClean(u, b);
    TornTailSalvagesToNothing(u, t);
    assert b == b[..v] + t;
    SalvageConcat(u, b[..v], t);
  }

  lemma TornTailSalvagesToNothing(u: Utf8, t: Bytes)
    requires RecordLen(u, t).None? && FindRecord(u, t, 1).None?
    ensures Salvage(u, t).kept == []
  {
    hide RecordLen, HeaderOf, KeyOf, ClassOf, Clean, FindRecord;
    assert t[|t|..] == [];
  }

  /** Opening a segment, whatever its bytes: if it is not refused, the file is cut
      or rewritten to what salvage keeps, and the index is the clean replay of
      those bytes, even when a first scan was aborted half way. */
  lemma OpenIsSalvageAndReplay(u: Utf8, path: Path, b: Bytes, index: Index)
    requires OpenSegment(u, path, b, index).Some?
    ensures var o := OpenSegment(u, path, b, index).value;
      && o.bytes == Salvage(u, b).kept
      && Clean(u, o.bytes)
      && Replay(u, path, 0, o.bytes, index) == Some(o.index)
  {
    hide RecordLen, HeaderOf, KeyOf, ClassOf, Apply, Replay, ScanFrom, Owned, Salvage, Clean, CleanLen, Framed;
    var v := CleanLen(u, b);
    ScanIsReplay(u, path, 0, b, index);
    ReplayCleanPrefix(u, path, 0, b, index);
    SalvageIsClean(u, b);
    match ScanFrom(u, path, 0, b, index) {
      case Indexed(validLen, out) =>
        TornTailIsSalvage(u, b);
      case Corrupt(half) =>
        var kept := Salvage(u, b).kept;
        RescanAcceptsSalvaged(u, path, b, half);
        assert kept[..|kept|] == kept;
        CleanPrefixIsClean(u, b);
        assert b == b[..v] + b[v..];
        SalvageConcat(u, b[..v], b[v..]);
        HalfScanIsHarmless(u, path, b[..v], Salvage(u, b[v..]).kept, index, half);
      case Fatal =>
    }
  }

  /** When the surviving records keep one class per key, opening never fails. */
  lemma OwnedSegmentOpens(u: Utf8, owner: Bytes -> Bytes, path: Path, b: Bytes, index: Index)
    requires Owned(u, owner, Salvage(u, b).kept) && IndexOwned(owner, index)
    ensures OpenSegment(u, path, b, index).Some?
    ensures IndexOwned(owner, OpenSegment(u, path, b, index).value.index)
  {
    hide RecordLen, HeaderOf, KeyOf, ClassOf, Apply, Replay, ScanFrom, Owned, Salvage, Clean, CleanLen, Framed;
    var v := CleanLen(u, b);
    var pre, t := b[..v], b[v..];
    CleanPrefixIsClean(u, b);
    assert b == pre + t;
    SalvageConcat(u, pre, t);
    OwnedConcat(u, owner, pre, Salvage(u, t).kept);
    ReplayCleanPrefix(u, path, 0, b, index);
    OwnedReplaySucceeds(u, owner, path, 0, pre, index);
    ScanIsReplay(u, path, 0, b, index);
    var half := Replay(u, path, 0, pre, index).value;
    OwnedReplaySucceeds(u, owner, path, 0, Salvage(u, b).kept, half);
    RescanAcceptsSalvaged(u, path, b, half);
  }

  /** Salvage loses only the damage: a clean log with a span overwritten by bytes
      in which no valid record starts opens to the other records in order, and the
      index is their clean replay. Salvage (rather than a cut) is counted exactly
      when something follows the span or the span still frames a record. */
  lemma DamagedSpanOpens(u: Utf8, owner: Bytes -> Bytes, path: Path, pre: Bytes, d: Bytes, post: Bytes, index: Index)
    requires Clean(u, pre) && Clean(u, post) && NoRecordStarts(u, d, post)
    requires Owned(u, owner, pre) && Owned(u, owner, post) && IndexOwned(owner, index)
    ensures Replay(u, path, 0, pre + post, index).Some?
    ensures OpenSegment(u, path, pre + d + post, index) ==
      Some(Opened(pre + post, Replay(u, path, 0, pre + post, index).value,
                  d != [] && (post != [] || Framed(d))))
  {
    hide RecordLen, HeaderOf, KeyOf, ClassOf, Apply, Replay, ScanFrom, Owned, Salvage, Clean, Framed;
    var b := pre + d + post;
    SalvageDropsOnlyDamage(u, pre, d, post);
    OwnedConcat(u, owner, pre, post);
    OwnedSegmentOpens(u, owner, path, b, index);
    OpenIsSalvageAndReplay(u, path, b, index);
    ScanIsReplay(u, path, 0, b, index);
    var t := d + post;
    assert b == pre + t;
    CleanLenConcat(u, pre, t);
    if d == [] {
      assert t == post;
      CleanIffCleanLen(u, post);
      assert b[CleanLen(u, b)..] == [];
    } else {
      assert t[0..] == t;
      assert b[CleanLen(u, b)..] == t;
      NextRecordAfterDamage(u, d, post);
      if post == [] {
        assert t == d;
      }
    }
  }

  /** Crash recovery: a clean log with a torn or garbage tail in which no valid
      record starts reopens to the clean log and its index. */
  lemma TornTailOpens(u: Utf8, owner: Bytes -> Bytes, path: Path, log: Bytes, tail: Bytes, index: Index)
    requires Clean(u, log) && NoRecordStarts(u, tail, [])
    requires Owned(u, owner, log) && IndexOwned(owner, index)
    ensures Replay(u, path, 0, log, index).Some?
    ensures OpenSegment(u, path, log + tail, index) ==
      Some(Opened(log, Replay(u, path, 0, log, index).value, Framed(tail)))
  {
    DamagedSpanOpens(u, owner, path, log, tail, [], index);
    assert log + tail + [] == log + tail;
    assert log + [] == log;
  }

  /** A torn write, that is a strict prefix of a record, is cut off the file if
      and only if no complete record is embedded in it. */
  lemma TornWriteIsCutIff(u: Utf8, owner: Bytes -> Bytes, path: Path, log: Bytes, r: Bytes, n: nat, index: Index)
    requires Clean(u, log) && IsRecord(u, r) && n < |r|
    requires Owned(u, owner, log) && IndexOwned(owner, index)
    ensures Replay(u, path, 0, log, index).Some?
    ensures OpenSegment(u, path, log + r[..n], index) == Some(Opened(log, Replay(u, path, 0, log, index).value, false))
      <==> FindRecord(u, r[..n], 1).None?
  {
    hide RecordLen, HeaderOf, KeyOf, ClassOf, Apply, Replay, ScanFrom, Owned, Salvage, Clean, Framed;
    var tail := r[..n];
    StrictPrefixIsNoRecord(u, r, n);
    StrictPrefixIsNotFramed(u, r, n);
    OwnedReplaySucceeds(u, owner, path, 0, log, index);
    if FindRecord(u, tail, 1).None? {
      assert tail + [] == tail && tail[0..] == tail;
      TornTailOpens(u, owner, path, log, tail, index);
    } else {
      var b := log + tail;
      CleanLenConcat(u, log, tail);
      assert b[CleanLen(u, b)..] == tail;
      ScanIsReplay(u, path, 0, b, index);
      ReplayConcat(u, path, 0, log, tail, index);
    }
  }
}
