/** The Hot tier: admission bounded by entries and by bytes, greedy eviction in a
    four-level order, critical entries pinned, writes in two phases. */
module HotSpec {
  import opened Prelude
  import opened Policy

  datatype HotEntry<V> = HotEntry(
    class_: ClassName,
    value: V,
    priority: Priority,
    expiresAt: Option<int>,
    lastAccess: int,
    accessCount: nat,
    demoteAfter: Option<nat>,
    sizeBytes: nat)

  type Entries<V> = map<Key, HotEntry<V>>

  datatype HotError =
    | NotSerializable
    | HotByteCapacity(requestedBytes: nat, maxBytes: nat)
    | CriticalCapacity(maxEntries: nat)

  // --------------------------------------------------------------- weights

  function Weight<V>(k: Key, e: HotEntry<V>): nat
  {
    |k.text| + e.sizeBytes
  }

  /** Bytes that `m` takes in Hot. */
  ghost function TotalBytes<V>(m: Entries<V>): nat
  {
    if m == map[] then 0 else
    var k :| k in m;
    Weight(k, m[k]) + TotalBytes(m - {k})
  }

  lemma SmallerWithout<V>(m: Entries<V>, k: Key)
    requires k in m
    ensures |m - {k}| == |m| - 1
  {
    assert (m - {k}).Keys == m.Keys - {k};
  }

  lemma {:induction false} BytesWithout<V>(m: Entries<V>, k: Key)
    requires k in m
    ensures TotalBytes(m) == Weight(k, m[k]) + TotalBytes(m - {k})
    decreases |m|
  {
    var j :| j in m && TotalBytes(m) == Weight(j, m[j]) + TotalBytes(m - {j});
    if j != k {
      SmallerWithout(m, j);
      SmallerWithout(m, k);
      BytesWithout(m - {j}, k);
      BytesWithout(m - {k}, j);
      assert m - {j} - {k} == m - {k} - {j};
    }
  }

  lemma BytesUpdate<V>(m: Entries<V>, k: Key, e: HotEntry<V>)
    ensures TotalBytes(m[k := e]) == Weight(k, e) + TotalBytes(m - {k})
  {
    BytesWithout(m[k := e], k);
    assert m[k := e] - {k} == m - {k};
  }

  /** A part of a store weighs no more and counts no more. */
  lemma {:induction false} PartIsSmaller<V>(a: Entries<V>, b: Entries<V>)
    requires forall k :: k in a ==> k in b && a[k] == b[k]
    ensures TotalBytes(a) <= TotalBytes(b) && |a| <= |b|
    decreases |b|
  {
    if a != map[] {
      var k :| k in a;
      SmallerWithout(a, k);
      SmallerWithout(b, k);
      PartIsSmaller(a - {k}, b - {k});
      BytesWithout(a, k);
      BytesWithout(b, k);
    }
  }

  // --------------------------------------------------------- eviction order

  predicate Live<V>(e: HotEntry<V>, now: int)
  {
    !(e.expiresAt.Some? && now >= e.expiresAt.value)
  }

  function LivePart<V>(m: Entries<V>, now: int): Entries<V>
  {
    map k | k in m && Live(m[k], now) :: m[k]
  }

  /** Strictly earlier in the eviction order: priority, access count, larger size
      first, last access. */
  predicate Precedes<V>(a: HotEntry<V>, b: HotEntry<V>)
  {
    if Rank(a.priority) != Rank(b.priority) then Rank(a.priority) < Rank(b.priority)
    else if a.accessCount != b.accessCount then a.accessCount < b.accessCount
    else if a.sizeBytes != b.sizeBytes then a.sizeBytes > b.sizeBytes
    else a.lastAccess < b.lastAccess
  }

  function Evictable<V>(m: Entries<V>): set<Key>
  {
    set k | k in m && m[k].priority != Critical
  }

  function Pinned<V>(m: Entries<V>): Entries<V>
  {
    map k | k in m && m[k].priority == Critical :: m[k]
  }

  type Victims<V> = seq<(Key, HotEntry<V>)>

  function Keys<V>(vs: Victims<V>): set<Key>
  {
    set i | 0 <= i < |vs| :: vs[i].0
  }

  /** `vs` are taken from `pool` one by one, each a minimum of what is left. */
  ghost predicate Greedy<V>(m: Entries<V>, pool: set<Key>, vs: Victims<V>)
    requires pool <= m.Keys
  {
    forall i :: 0 <= i < |vs| ==>
      && vs[i].0 in pool && vs[i].1 == m[vs[i].0]
      && vs[i].0 !in Keys(vs[..i])
      && forall k :: k in pool - Keys(vs[..i]) ==> !Precedes(m[k], vs[i].1)
  }

  /** Greedy choice means: distinct victims in non-decreasing eviction order, and
      no survivor of the pool precedes any victim. */
  lemma GreedyIsOrdered<V>(m: Entries<V>, pool: set<Key>, vs: Victims<V>)
    requires pool <= m.Keys && Greedy(m, pool, vs)
    ensures forall i, j :: 0 <= i < j < |vs| ==> vs[i].0 != vs[j].0 && !Precedes(vs[j].1, vs[i].1)
    ensures forall i, k :: 0 <= i < |vs| && k in pool - Keys(vs) ==> !Precedes(m[k], vs[i].1)
    ensures Keys(vs) <= pool && |Keys(vs)| == |vs|
  {
    forall i, j | 0 <= i < j < |vs|
      ensures vs[i].0 != vs[j].0 && !Precedes(vs[j].1, vs[i].1)
    {
      KeysOfPrefix(vs[..j], i);
      assert vs[..j][..i] == vs[..i];
      assert vs[..j][i].0 in Keys(vs[..j]);
    }
    forall i, k | 0 <= i < |vs| && k in pool - Keys(vs)
      ensures !Precedes(m[k], vs[i].1)
    {
      KeysOfPrefix(vs, i);
    }
    DistinctKeys(vs);
  }

  lemma KeysOfPrefix<V>(vs: Victims<V>, i: nat)
    requires i <= |vs|
    ensures Keys(vs[..i]) <= Keys(vs)
  {
    forall k | k in Keys(vs[..i])
      ensures k in Keys(vs)
    {
      var n :| 0 <= n < i && vs[..i][n].0 == k;
      assert vs[n].0 == k;
    }
  }

  lemma {:induction false} DistinctKeys<V>(vs: Victims<V>)
    requires forall i, j :: 0 <= i < j < |vs| ==> vs[i].0 != vs[j].0
    ensures |Keys(vs)| == |vs|
  {
    if vs != [] {
      var n := |vs| - 1;
      DistinctKeys(vs[..n]);
      KeysSnoc(vs[..n], vs[n]);
      assert vs[..n] + [vs[n]] == vs;
      assert vs[n].0 !in Keys(vs[..n]);
    }
  }

  lemma KeysSnoc<V>(vs: Victims<V>, v: (Key, HotEntry<V>))
    ensures Keys(vs + [v]) == Keys(vs) + {v.0}
  {
    var ws := vs + [v];
    forall k | k in Keys(vs) + {v.0}
      ensures k in Keys(ws)
    {
      if k in Keys(vs) {
        var i :| 0 <= i < |vs| && vs[i].0 == k;
        assert ws[i].0 == k;
      } else {
        assert ws[|vs|].0 == k;
      }
    }
  }

  /** Taking one more minimum keeps the choice greedy. */
  lemma GreedySnoc<V>(m: Entries<V>, pool: set<Key>, vs: Victims<V>, k: Key)
    requires pool <= m.Keys && Greedy(m, pool, vs)
    requires k in pool - Keys(vs)
    requires forall j :: j in pool - Keys(vs) ==> !Precedes(m[j], m[k])
    ensures Greedy(m, pool, vs + [(k, m[k])])
  {
    var ws := vs + [(k, m[k])];
    forall i | 0 <= i < |ws|
      ensures ws[i].0 in pool && ws[i].1 == m[ws[i].0] && ws[i].0 !in Keys(ws[..i])
      ensures forall j :: j in pool - Keys(ws[..i]) ==> !Precedes(m[j], ws[i].1)
    {
      if i < |vs| {
        assert ws[..i] == vs[..i] && ws[i] == vs[i];
      } else {
        assert ws[..i] == vs;
      }
    }
  }

  // -------------------------------------------------------------- admission

  function LiveOthers<V>(m: Entries<V>, key: Key, now: int): Entries<V>
  {
    LivePart(m, now) - {key}
  }

  predicate ReplacesLive<V>(m: Entries<V>, key: Key, now: int)
  {
    key in m && Live(m[key], now)
  }

  /** When a write fits: the pinned entries leave room for it, in bytes and, if it
      takes a new place, in places. */
  ghost predicate Admissible<V>(m: Entries<V>, maxEntries: nat, maxBytes: nat, key: Key, incoming: nat, now: int)
  {
    var pinned := Pinned(LiveOthers(m, key, now));
    && TotalBytes(pinned) + incoming <= maxBytes
    && (!ReplacesLive(m, key, now) ==> |pinned| + 1 <= maxEntries)
  }

  /** How many entries must go for the entry count alone. */
  function Needed<V>(m: Entries<V>, maxEntries: nat, key: Key, now: int): nat
  {
    if ReplacesLive(m, key, now) || |LivePart(m, now)| + 1 <= maxEntries then 0
    else |LivePart(m, now)| + 1 - maxEntries
  }

  ghost function Left<V>(m: Entries<V>, key: Key, now: int, vs: Victims<V>): Entries<V>
  {
    LiveOthers(m, key, now) - Keys(vs)
  }

  /** The victims make enough room. */
  ghost predicate Enough<V>(m: Entries<V>, maxEntries: nat, maxBytes: nat, key: Key, incoming: nat, now: int,
                            vs: Victims<V>)
  {
    && |vs| >= Needed(m, maxEntries, key, now)
    && TotalBytes(Left(m, key, now, vs)) + incoming <= maxBytes
  }

  /** `vs` is a right choice of victims: greedy among the live, unpinned others;
      enough; and not enough without its last one. */
  ghost predicate RightVictims<V>(m: Entries<V>, maxEntries: nat, maxBytes: nat, key: Key, incoming: nat, now: int,
                                  vs: Victims<V>)
  {
    var others := LiveOthers(m, key, now);
    && Greedy(others, Evictable(others), vs)
    && Enough(m, maxEntries, maxBytes, key, incoming, now, vs)
    && Minimal(m, maxEntries, maxBytes, key, incoming, now, vs)
  }

  /** Without the last victim there would not be room. */
  ghost predicate Minimal<V>(m: Entries<V>, maxEntries: nat, maxBytes: nat, key: Key, incoming: nat, now: int,
                             vs: Victims<V>)
  {
    vs != [] ==> !Enough(m, maxEntries, maxBytes, key, incoming, now, vs[..|vs| - 1])
  }

  lemma MinimalSnoc<V>(m: Entries<V>, maxEntries: nat, maxBytes: nat, key: Key, incoming: nat, now: int,
                       vs: Victims<V>, v: (Key, HotEntry<V>))
    requires !Enough(m, maxEntries, maxBytes, key, incoming, now, vs)
    ensures Minimal(m, maxEntries, maxBytes, key, incoming, now, vs + [v])
  {
    hide Enough;
    assert (vs + [v])[..|vs|] == vs;
  }

  lemma {:induction false} SplitByPin<V>(m: Entries<V>)
    ensures |m| == |Pinned(m)| + |Evictable(m)|
    ensures TotalBytes(m - Evictable(m)) == TotalBytes(Pinned(m))
  {
    assert m.Keys == Pinned(m).Keys + Evictable(m);
    assert Pinned(m).Keys !! Evictable(m);
    assert m - Evictable(m) == Pinned(m);
  }

  /** With every evictable entry taken and still no room, the write does not fit. */
  lemma ExhaustedMeansInadmissible<V>(m: Entries<V>, maxEntries: nat, maxBytes: nat, key: Key, incoming: nat, now: int,
                                      vs: Victims<V>)
    requires maxEntries >= 1
    requires var others := LiveOthers(m, key, now);
      Greedy(others, Evictable(others), vs) && Evictable(others) <= Keys(vs)
    requires !Enough(m, maxEntries, maxBytes, key, incoming, now, vs)
    ensures !Admissible(m, maxEntries, maxBytes, key, incoming, now)
    ensures TotalBytes(Left(m, key, now, vs)) == TotalBytes(Pinned(LiveOthers(m, key, now)))
    ensures |vs| < Needed(m, maxEntries, key, now) <==>
      !ReplacesLive(m, key, now) && |Pinned(LiveOthers(m, key, now))| + 1 > maxEntries
  {
    var others := LiveOthers(m, key, now);
    GreedyIsOrdered(others, Evictable(others), vs);
    assert Keys(vs) == Evictable(others);
    SplitByPin(others);
    if !ReplacesLive(m, key, now) {
      assert others == LivePart(m, now);
    }
  }

  /** A choice of victims that is enough shows that the write fits. */
  lemma EnoughMeansAdmissible<V>(m: Entries<V>, maxEntries: nat, maxBytes: nat, key: Key, incoming: nat, now: int,
                                 vs: Victims<V>)
    requires var others := LiveOthers(m, key, now); Greedy(others, Evictable(others), vs)
    requires Enough(m, maxEntries, maxBytes, key, incoming, now, vs)
    ensures Admissible(m, maxEntries, maxBytes, key, incoming, now)
  {
    var others := LiveOthers(m, key, now);
    GreedyIsOrdered(others, Evictable(others), vs);
    SplitByPin(others);
    assert |Keys(vs)| <= |Evictable(others)| by { SubsetSize(Keys(vs), Evictable(others)); }
    PartIsSmaller(Pinned(others), Left(m, key, now, vs));
    if !ReplacesLive(m, key, now) {
      assert others == LivePart(m, now);
    }
  }

  /** What a committed write leaves in Hot. */
  ghost function Committed<V>(m: Entries<V>, key: Key, entry: HotEntry<V>, now: int, vs: Victims<V>): Entries<V>
  {
    (LivePart(m, now) - Keys(vs))[key := entry]
  }

  ghost predicate Bounded<V>(m: Entries<V>, maxEntries: nat, maxBytes: nat)
  {
    |m| <= maxEntries && TotalBytes(m) <= maxBytes
  }

  lemma CommitBytes<V>(m: Entries<V>, key: Key, entry: HotEntry<V>, now: int, vs: Victims<V>)
    ensures TotalBytes(Committed(m, key, entry, now, vs)) == Weight(key, entry) + TotalBytes(Left(m, key, now, vs))
  {
    hide Keys, TotalBytes, LivePart;
    var left := LivePart(m, now) - Keys(vs);
    BytesUpdate(left, key, entry);
    assert left - {key} == Left(m, key, now, vs);
  }

  lemma CommitCount<V>(m: Entries<V>, key: Key, entry: HotEntry<V>, now: int, vs: Victims<V>)
    requires Keys(vs) <= LiveOthers(m, key, now).Keys && |Keys(vs)| == |vs|
    ensures |Committed(m, key, entry, now, vs)| ==
      |LivePart(m, now)| - |vs| + if ReplacesLive(m, key, now) then 0 else 1
  {
    hide Keys;
    CountAfter(LivePart(m, now), Keys(vs), key, entry);
  }

  /** A write that made enough room keeps both bounds. */
  lemma CommitKeepsBounds<V>(m: Entries<V>, maxEntries: nat, maxBytes: nat, key: Key, entry: HotEntry<V>, now: int,
                             vs: Victims<V>)
    requires maxEntries >= 1 && Bounded(m, maxEntries, maxBytes)
    requires Greedy(LiveOthers(m, key, now), Evictable(LiveOthers(m, key, now)), vs)
    requires Enough(m, maxEntries, maxBytes, key, Weight(key, entry), now, vs)
    ensures Bounded(Committed(m, key, entry, now, vs), maxEntries, maxBytes)
  {
    hide Greedy, Keys, Live, Precedes, Committed, Left, TotalBytes;
    var others := LiveOthers(m, key, now);
    GreedyIsOrdered(others, Evictable(others), vs);
    CommitBytes(m, key, entry, now, vs);
    CommitCount(m, key, entry, now, vs);
    PartIsSmaller(LivePart(m, now), m);
  }

  lemma CountAfter<V>(live: Entries<V>, gone: set<Key>, key: Key, entry: HotEntry<V>)
    requires gone <= live.Keys && key !in gone
    ensures |(live - gone)[key := entry]| == |live| - |gone| + if key in live then 0 else 1
  {
    var left := live - gone;
    assert left.Keys == live.Keys - gone;
    assert left[key := entry].Keys == left.Keys + {key};
    assert |left.Keys| == |live.Keys| - |gone|;
  }
}
