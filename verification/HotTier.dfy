/** The Hot store as the source runs it. The hash map iterates in any order: a
    minimum is some minimum, and the contracts hold for every choice. */
module HotTier {
  import opened Prelude
  import opened Policy
  import opened HotSpec

  /** `min_by` over the entries of `pool`. */
  method MinVictim<V>(m: Entries<V>, pool: set<Key>) returns (best: Option<Key>)
    requires pool <= m.Keys
    ensures best.None? <==> pool == {}
    ensures best.Some? ==> best.value in pool && forall k :: k in pool ==> !Precedes(m[k], m[best.value])
  {
    best := None;
    var rest := pool;
    while rest != {}
      invariant rest <= pool
      invariant best.None? <==> rest == pool
      invariant best.Some? ==> best.value in pool
      invariant best.Some? ==> forall k :: k in pool - rest ==> !Precedes(m[k], m[best.value])
      decreases |rest|
    {
      var k :| k in rest;
      rest := rest - {k};
      if best.None? || Precedes(m[k], m[best.value]) {
        best := Some(k);
      }
    }
  }

  method SumBytes<V>(m: Entries<V>) returns (n: nat)
    ensures n == TotalBytes(m)
  {
    n := 0;
    var rest := m;
    while rest != map[]
      invariant n + TotalBytes(rest) == TotalBytes(m)
      decreases |rest|
    {
      var k :| k in rest;
      BytesWithout(rest, k);
      SmallerWithout(rest, k);
      n := n + Weight(k, rest[k]);
      rest := rest - {k};
    }
  }

  /** The `limit` first of `pool` in eviction order, with their entries. */
  method TakeInOrder<V>(m: Entries<V>, pool: set<Key>, limit: nat) returns (vs: Victims<V>)
    requires pool <= m.Keys
    ensures Greedy(m, pool, vs)
    ensures |vs| <= limit && (|vs| == limit || Keys(vs) == pool)
  {
    vs := [];
    while |vs| < limit
      invariant |vs| <= limit && Greedy(m, pool, vs)
    {
      var next := MinVictim(m, pool - Keys(vs));
      GreedyIsOrdered(m, pool, vs);
      if next.None? {
        return;
      }
      GreedySnoc(m, pool, vs, next.value);
      vs := vs + [(next.value, m[next.value])];
    }
  }

  /** The next victim, if an evictable entry is left. */
  method NextVictim<V>(m: Entries<V>, key: Key, now: int, ghost vs: Victims<V>, taken: set<Key>,
                       others: Entries<V>)
    returns (v: Option<(Key, HotEntry<V>)>)
    requires taken == Keys(vs) && others == LiveOthers(m, key, now)
    requires Greedy(others, Evictable(others), vs)
    ensures v.None? ==> Evictable(others) <= taken
    ensures v.Some? ==>
      && Greedy(others, Evictable(others), vs + [v.value])
      && Keys(vs + [v.value]) == taken + {v.value.0}
      && v.value.0 in Evictable(others) - taken
      && TotalBytes(Left(m, key, now, vs)) ==
           Weight(v.value.0, v.value.1) + TotalBytes(Left(m, key, now, vs + [v.value]))
  {
    var pool := Evictable(others);
    var next := MinVictim(others, pool - taken);
    if next.None? {
      return None;
    }
    var k := next.value;
    GreedySnoc(others, pool, vs, k);
    KeysSnoc(vs, (k, others[k]));
    LeftAfter(m, key, now, vs, k);
    return Some((k, others[k]));
  }

  /** The victim loop: take the first evictable entry until there is room, or until
      there is nothing left to take. */
  method SelectVictims<V>(m: Entries<V>, maxEntries: nat, maxBytes: nat, key: Key, incoming: nat, now: int)
    returns (victims: Victims<V>, resident: nat, enough: bool)
    ensures var others := LiveOthers(m, key, now);
      && Greedy(others, Evictable(others), victims)
      && (!enough ==> Evictable(others) <= Keys(victims))
    ensures resident == TotalBytes(Left(m, key, now, victims))
    ensures enough == Enough(m, maxEntries, maxBytes, key, incoming, now, victims)
    ensures enough ==> RightVictims(m, maxEntries, maxBytes, key, incoming, now, victims)
  {
    var needed := Needed(m, maxEntries, key, now);
    var others := LiveOthers(m, key, now);
    resident := SumBytes(others);
    victims := [];
    var taken: set<Key> := {};
    NoVictims(m, maxEntries, maxBytes, key, incoming, now);
    hide Precedes, Live, Needed, Left, LiveOthers, Minimal, Keys, Greedy, TotalBytes;
    while |victims| < needed || resident + incoming > maxBytes
      invariant Greedy(others, Evictable(others), victims)
      invariant taken == Keys(victims)
      invariant resident == TotalBytes(Left(m, key, now, victims))
      invariant Minimal(m, maxEntries, maxBytes, key, incoming, now, victims)
      decreases Evictable(others) - taken
    {
      var v := NextVictim(m, key, now, victims, taken, others);
      if v.None? {
        enough := false;
        return;
      }
      MinimalSnoc(m, maxEntries, maxBytes, key, incoming, now, victims, v.value);
      resident := resident - Weight(v.value.0, v.value.1);
      victims := victims + [v.value];
      taken := taken + {v.value.0};
    }
    enough := true;
  }

  lemma NoVictims<V>(m: Entries<V>, maxEntries: nat, maxBytes: nat, key: Key, incoming: nat, now: int)
    ensures var others := LiveOthers(m, key, now);
      && Greedy(others, Evictable(others), [])
      && Left(m, key, now, []) == others
      && Minimal(m, maxEntries, maxBytes, key, incoming, now, [])
      && Keys<V>([]) == {}
  {
    assert LiveOthers(m, key, now) - {} == LiveOthers(m, key, now);
  }

  /** An admission computed without changing Hot. */
  datatype Prepared<V> = Prepared(key: Key, entry: HotEntry<V>, now: int, victims: Victims<V>)

  function NewEntry<V>(value: V, class_: ClassPolicy, now: int, sizeBytes: nat): HotEntry<V>
  {
    HotEntry(class_.name, value, class_.priority,
             if class_.ttl.Some? then Some(now + class_.ttl.value) else None,
             now, 1, class_.demoteAfter, sizeBytes)
  }

  predicate Idle<V>(e: HotEntry<V>, now: int)
  {
    e.priority != Critical && e.demoteAfter.Some?
    && now >= e.lastAccess && now - e.lastAccess >= e.demoteAfter.value
  }

  /** The unpinned live entries idle for their window. */
  function IdlePool<V>(m: Entries<V>, now: int): set<Key>
  {
    var live := LivePart(m, now);
    set k | k in live && Idle(live[k], now)
  }

  /** The life of an entry written at `start`, by the policy of its class alone: until when
      it is live, and from when on it is idle if it is not read. */
  lemma EntryLives<V>(value: V, c: ClassPolicy, start: int, size: nat, now: int)
    ensures var e := NewEntry(value, c, start, size);
      && e.value == value && e.class_ == c.name && e.priority == c.priority
      && e.sizeBytes == size && e.accessCount == 1 && e.lastAccess == start
      && (Live(e, now) <==> (c.ttl.Some? ==> now < start + c.ttl.value))
      && (Idle(e, now) <==>
           && c.priority != Critical && c.demoteAfter.Some?
           && now >= start && now >= start + c.demoteAfter.value)
  {
  }

  class HotStore<V> {
    const maxEntries: nat
    const maxBytes: nat
    /** Length of the JSON text of a value; `None` if it cannot be serialized. */
    const jsonLen: V -> Option<nat>

    var entries: Entries<V>
    var evictions: nat
    var expiredRemovals: nat

    constructor (maxEntries: nat, maxBytes: nat, jsonLen: V -> Option<nat>)
      ensures this.maxEntries == (if maxEntries == 0 then 1 else maxEntries)
      ensures this.maxBytes == maxBytes && this.jsonLen == jsonLen
      ensures entries == map[] && evictions == 0 && expiredRemovals == 0
      ensures Valid()
    {
      this.maxEntries := if maxEntries == 0 then 1 else maxEntries;
      this.maxBytes, this.jsonLen := maxBytes, jsonLen;
      entries, evictions, expiredRemovals := map[], 0, 0;
    }

    /** Both bounds hold, counting expired entries not yet purged. */
    ghost predicate Valid()
      reads this
    {
      maxEntries >= 1 && Bounded(entries, maxEntries, maxBytes)
    }

    /** Exact admission: the write is admitted if and only if the pinned entries
        leave room; the victims are greedy, enough, and none too many; each refusal
        has its own error. Hot is not touched. */
    method PrepareUpsert(key: Key, value: V, class_: ClassPolicy, now: int) returns (r: Result<Prepared<V>, HotError>)
      requires maxEntries >= 1
      ensures r.Ok? <==>
        (jsonLen(value).Some? &&
         Admissible(entries, maxEntries, maxBytes, key, |key.text| + jsonLen(value).value, now))
      ensures r.Ok? ==>
        && r.value.key == key && r.value.now == now
        && r.value.entry == NewEntry(value, class_, now, jsonLen(value).value)
        && RightVictims(entries, maxEntries, maxBytes, key, Weight(key, r.value.entry), now, r.value.victims)
      ensures r.Ok? ==> forall t :: Live(r.value.entry, t) <==> (class_.ttl.Some? ==> t < now + class_.ttl.value)
      ensures r.Ok? ==> forall t ::
        Idle(r.value.entry, t) <==>
          && class_.priority != Critical && class_.demoteAfter.Some?
          && t >= now && t >= now + class_.demoteAfter.value
      ensures jsonLen(value).None? ==> r == Err(NotSerializable)
      ensures jsonLen(value).Some? && r.Err? ==>
        var incoming := |key.text| + jsonLen(value).value;
        var pinned := Pinned(LiveOthers(entries, key, now));
        r.error ==
          if incoming > maxBytes then HotByteCapacity(incoming, maxBytes)
          else if !ReplacesLive(entries, key, now) && |pinned| + 1 > maxEntries then CriticalCapacity(maxEntries)
          else HotByteCapacity(TotalBytes(pinned) + incoming, maxBytes)
    {
      var size := jsonLen(value);
      if size.None? {
        return Err(NotSerializable);
      }
      var incoming := |key.text| + size.value;
      if incoming > maxBytes {
        return Err(HotByteCapacity(incoming, maxBytes));
      }
      var victims, resident, enough := SelectVictims(entries, maxEntries, maxBytes, key, incoming, now);
      hide Greedy, LiveOthers, Needed, Left, Pinned;
      if !enough {
        ExhaustedMeansInadmissible(entries, maxEntries, maxBytes, key, incoming, now, victims);
        return Err(if |victims| < Needed(entries, maxEntries, key, now) then CriticalCapacity(maxEntries)
                   else HotByteCapacity(resident + incoming, maxBytes));
      }
      EnoughMeansAdmissible(entries, maxEntries, maxBytes, key, incoming, now, victims);
      forall t
        ensures var e := NewEntry(value, class_, now, size.value);
          && (Live(e, t) <==> (class_.ttl.Some? ==> t < now + class_.ttl.value))
          && (Idle(e, t) <==>
               && class_.priority != Critical && class_.demoteAfter.Some?
               && t >= now && t >= now + class_.demoteAfter.value)
      {
        EntryLives(value, class_, now, size.value, t);
      }
      hide NewEntry, Live, Idle;
      return Ok(Prepared(key, NewEntry(value, class_, now, size.value), now, victims));
    }

    /** Purge, drop the victims, insert. Called on the store the admission was
        prepared on. */
    method CommitUpsert(p: Prepared<V>)
      requires Valid()
      requires Greedy(LiveOthers(entries, p.key, p.now), Evictable(LiveOthers(entries, p.key, p.now)), p.victims)
      requires Enough(entries, maxEntries, maxBytes, p.key, Weight(p.key, p.entry), p.now, p.victims)
      modifies this
      ensures Valid()
      ensures entries == Committed(old(entries), p.key, p.entry, p.now, p.victims)
      ensures evictions == old(evictions) + |p.victims|
      ensures expiredRemovals == old(expiredRemovals) + |old(entries)| - |LivePart(old(entries), p.now)|
    {
      CommitKeepsBounds(entries, maxEntries, maxBytes, p.key, p.entry, p.now, p.victims);
      hide Greedy, Enough, LiveOthers, LivePart, TotalBytes, Keys;
      PurgeExpired(p.now);
      DropVictims(p.victims);
      entries := entries[p.key := p.entry];
    }

    method DropVictims(victims: Victims<V>)
      modifies this`entries, this`evictions
      ensures entries == old(entries) - Keys(victims)
      ensures evictions == old(evictions) + |victims|
    {
      hide Keys, FirstKeys;
      FirstKeysEnds(victims);
      var i := 0;
      while i < |victims|
        invariant i <= |victims|
        invariant entries == old(entries) - FirstKeys(victims, i)
        invariant evictions == old(evictions) + i
      {
        FirstKeysStep(victims, i);
        entries := entries - {victims[i].0};
        evictions := evictions + 1;
        i := i + 1;
      }
    }

    method PurgeExpired(now: int)
      requires Valid()
      modifies this`entries, this`expiredRemovals
      ensures Valid()
      ensures entries == LivePart(old(entries), now)
      ensures expiredRemovals == old(expiredRemovals) + |old(entries)| - |entries|
    {
      var before := |entries|;
      PartIsSmaller(LivePart(entries, now), entries);
      entries := LivePart(entries, now);
      expiredRemovals := expiredRemovals + before - |entries|;
    }

    /** A read purges what expired and marks the access; it changes no value. */
    method Get(key: Key, now: int) returns (r: Option<V>)
      requires Valid()
      modifies this`entries, this`expiredRemovals
      ensures Valid()
      ensures var live := LivePart(old(entries), now);
        && r == (if key in live then Some(live[key].value) else None)
        && entries == (if key in live
             then live[key := live[key].(lastAccess := now, accessCount := SatAdd(live[key].accessCount, 1))]
             else live)
    {
      PurgeExpired(now);
      if key !in entries {
        return None;
      }
      var e := entries[key];
      ghost var live := entries;
      TouchKeepsBytes(entries, key, e.(lastAccess := now, accessCount := SatAdd(e.accessCount, 1)));
      entries := entries[key := e.(lastAccess := now, accessCount := SatAdd(e.accessCount, 1))];
      return Some(e.value);
    }

    method Remove(key: Key) returns (removed: bool)
      requires Valid()
      modifies this`entries
      ensures Valid()
      ensures entries == old(entries) - {key} && removed == (key in old(entries))
    {
      removed := key in entries;
      PartIsSmaller(entries - {key}, entries);
      entries := entries - {key};
    }

    /** Puts back an entry whose demotion failed, without a check: the caller has just
        taken it out, so the room is there. */
    method Restore(key: Key, entry: HotEntry<V>)
      modifies this`entries
      ensures entries == old(entries)[key := entry]
    {
      entries := entries[key := entry];
    }

    /** Gives up one entry under pressure: the first in eviction order among the
        live unpinned ones, if there is one. */
    method ReclaimOne(now: int) returns (victim: Option<(Key, HotEntry<V>)>)
      requires Valid()
      modifies this
      ensures Valid()
      ensures var live := LivePart(old(entries), now);
        && (victim.None? <==> Evictable(live) == {})
        && (victim.None? ==> entries == live && evictions == old(evictions))
        && (victim.Some? ==>
          && Greedy(live, Evictable(live), [victim.value])
          && entries == live - {victim.value.0} && evictions == old(evictions) + 1)
    {
      PurgeExpired(now);
      var k := MinVictim(entries, Evictable(entries));
      if k.None? {
        return None;
      }
      GreedySnoc(entries, Evictable(entries), [], k.value);
      victim := Some((k.value, entries[k.value]));
      assert [] + [victim.value] == [victim.value];
      PartIsSmaller(entries - {k.value}, entries);
      entries := entries - {k.value};
      evictions := evictions + 1;
    }

    /** Takes out up to `limit` idle entries, in eviction order. */
    method ReclaimIdle(now: int, limit: nat) returns (victims: Victims<V>)
      requires Valid()
      modifies this
      ensures Valid()
      ensures var live := LivePart(old(entries), now);
        var pool := IdlePool(old(entries), now);
        && Greedy(live, pool, victims)
        && |victims| <= limit && (|victims| == limit || Keys(victims) == pool)
        && entries == live - Keys(victims)
      ensures evictions == old(evictions) + |victims|
    {
      PurgeExpired(now);
      var pool := set k | k in entries && Idle(entries[k], now);
      victims := TakeInOrder(entries, pool, limit);
      PartIsSmaller(entries - Keys(victims), entries);
      entries := entries - Keys(victims);
      evictions := evictions + |victims|;
    }
  }

  function FirstKeys<V>(vs: Victims<V>, i: nat): set<Key>
    requires i <= |vs|
  {
    Keys(vs[..i])
  }

  lemma FirstKeysStep<V>(vs: Victims<V>, i: nat)
    requires i < |vs|
    ensures FirstKeys(vs, i + 1) == FirstKeys(vs, i) + {vs[i].0}
  {
    assert vs[..i + 1] == vs[..i] + [vs[i]];
    KeysSnoc(vs[..i], vs[i]);
  }

  lemma FirstKeysEnds<V>(vs: Victims<V>)
    ensures FirstKeys(vs, 0) == {} && FirstKeys(vs, |vs|) == Keys(vs)
  {
    assert vs[..|vs|] == vs;
  }

  lemma TouchKeepsBytes<V>(m: Entries<V>, key: Key, e: HotEntry<V>)
    requires key in m && e.sizeBytes == m[key].sizeBytes
    ensures TotalBytes(m[key := e]) == TotalBytes(m) && |m[key := e]| == |m|
  {
    BytesUpdate(m, key, e);
    BytesWithout(m, key);
    assert m[key := e].Keys == m.Keys;
  }

  lemma LeftAfter<V>(m: Entries<V>, key: Key, now: int, vs: Victims<V>, k: Key)
    requires k in LiveOthers(m, key, now) && k !in Keys(vs)
    ensures var others := LiveOthers(m, key, now);
      TotalBytes(Left(m, key, now, vs)) == Weight(k, others[k]) + TotalBytes(Left(m, key, now, vs + [(k, others[k])]))
  {
    hide Live, TotalBytes;
    var others := LiveOthers(m, key, now);
    KeysSnoc(vs, (k, others[k]));
    BytesWithout(Left(m, key, now, vs), k);
    assert Left(m, key, now, vs) - {k} == Left(m, key, now, vs + [(k, others[k])]);
  }
}
