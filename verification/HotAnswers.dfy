/** What a caller of Hot sees, in terms of policies and instants alone: which entry goes
    first, which writes fit, how long an entry lives and when it is idle. */
module HotAnswers {
  import opened Prelude
  import opened Policy
  import opened HotSpec
  import opened HotTier

  /** The first entry to go has the lower priority; then fewer accesses; then more bytes;
      then the older last access. */
  lemma EvictionOrder<V>(a: HotEntry<V>, b: HotEntry<V>)
    ensures a.priority != b.priority ==>
      (Precedes(a, b) <==>
        || a.priority == Low || b.priority == Critical
        || (a.priority == Normal && b.priority == High))
    ensures a.priority == b.priority && a.accessCount != b.accessCount ==>
      (Precedes(a, b) <==> a.accessCount < b.accessCount)
    ensures a.priority == b.priority && a.accessCount == b.accessCount && a.sizeBytes != b.sizeBytes ==>
      (Precedes(a, b) <==> a.sizeBytes > b.sizeBytes)
    ensures a.priority == b.priority && a.accessCount == b.accessCount && a.sizeBytes == b.sizeBytes ==>
      (Precedes(a, b) <==> a.lastAccess < b.lastAccess)
  {
  }

  /** So it is an order: entries that do not precede one another are ties, and ties are
      transitive. */
  lemma EvictionOrderIsWeak<V>(a: HotEntry<V>, b: HotEntry<V>, c: HotEntry<V>)
    ensures !Precedes(a, a)
    ensures Precedes(a, b) ==> !Precedes(b, a)
    ensures Precedes(a, b) ==> Precedes(a, c) || Precedes(c, b)
  {
  }

  /** The other live critical entries. */
  ghost function CriticalOthers<V>(m: Entries<V>, key: Key, now: int): Entries<V>
  {
    map k | k in m && k != key && m[k].priority == Critical && (m[k].expiresAt.None? || now < m[k].expiresAt.value)
      :: m[k]
  }

  /** Only critical entries can keep a write out: it fits exactly if they leave its bytes
      free and, unless it replaces a live entry, a place. */
  lemma FitsIff<V>(m: Entries<V>, maxEntries: nat, maxBytes: nat, key: Key, incoming: nat, now: int)
    ensures var critical := CriticalOthers(m, key, now);
      var inPlace := key in m && (m[key].expiresAt.None? || now < m[key].expiresAt.value);
      Admissible(m, maxEntries, maxBytes, key, incoming, now) <==>
        TotalBytes(critical) + incoming <= maxBytes && (inPlace || |critical| < maxEntries)
  {
    CriticalArePinned(m, key, now);
    hide TotalBytes, LiveOthers, Pinned, CriticalOthers;
  }

  lemma CriticalArePinned<V>(m: Entries<V>, key: Key, now: int)
    ensures Pinned(LiveOthers(m, key, now)) == CriticalOthers(m, key, now)
  {
  }

  /** Bytes in Hot: the length of the key and of the JSON text, of every entry. */
  lemma BytesOf<V>(m: Entries<V>, k: Key)
    ensures TotalBytes<V>(map[]) == 0
    ensures k in m ==> TotalBytes(m) == |k.text| + m[k].sizeBytes + TotalBytes(m - {k})
  {
    if k in m {
      BytesWithout(m, k);
    }
  }

  /** A victim is live, is not the key written, and is never critical. */
  lemma VictimsAreExpendable<V>(m: Entries<V>, maxEntries: nat, maxBytes: nat, key: Key, incoming: nat, now: int,
                                vs: Victims<V>, i: nat)
    requires RightVictims(m, maxEntries, maxBytes, key, incoming, now, vs) && i < |vs|
    ensures vs[i].0 in m && vs[i].1 == m[vs[i].0] && vs[i].0 != key
    ensures vs[i].1.priority != Critical && (vs[i].1.expiresAt.Some? ==> now < vs[i].1.expiresAt.value)
  {
    hide TotalBytes, Precedes, Minimal, Enough;
  }

  /** No more victims than needed: without the last of them the bytes or the places would
      not suffice; with all of them they do. */
  lemma VictimsAreNeeded<V>(m: Entries<V>, maxEntries: nat, maxBytes: nat, key: Key, incoming: nat, now: int,
                            vs: Victims<V>)
    requires RightVictims(m, maxEntries, maxBytes, key, incoming, now, vs)
    ensures var inPlace := key in m && (m[key].expiresAt.None? || now < m[key].expiresAt.value);
      var live := |LivePart(m, now)|;
      && TotalBytes(LivePart(m, now) - {key} - Keys(vs)) + incoming <= maxBytes
      && (!inPlace ==> live + 1 - |vs| <= maxEntries)
      && (vs != [] ==>
           || TotalBytes(LivePart(m, now) - {key} - Keys(vs[..|vs| - 1])) + incoming > maxBytes
           || (!inPlace && live + 1 - (|vs| - 1) > maxEntries))
  {
    hide TotalBytes, Precedes, Greedy, Keys, LivePart;
  }

  /** What an admitted write leaves: its entry and every live entry that is no victim. */
  lemma CommitLeaves<V>(m: Entries<V>, key: Key, entry: HotEntry<V>, now: int, vs: Victims<V>, k: Key)
    ensures var after := Committed(m, key, entry, now, vs);
      && key in after && after[key] == entry
      && (k != key ==>
           (k in after <==>
             && k in m && (m[k].expiresAt.Some? ==> now < m[k].expiresAt.value)
             && forall i :: 0 <= i < |vs| ==> vs[i].0 != k))
      && (k != key && k in after ==> after[k] == m[k])
  {
  }

  /** An admitted write leaves its entry among the idle ones exactly between the end of its
      window and its deadline, by the policy of its class alone. */
  lemma WrittenEntryIsIdleIff<V>(m: Entries<V>, key: Key, value: V, c: ClassPolicy, start: int, size: nat,
                                 vs: Victims<V>, now: int)
    ensures var after := Committed(m, key, NewEntry(value, c, start, size), start, vs);
      && (key in LivePart(after, now) <==> (c.ttl.Some? ==> now < start + c.ttl.value))
      && (key in IdlePool(after, now) <==>
           && (c.ttl.Some? ==> now < start + c.ttl.value)
           && c.priority != Critical && c.demoteAfter.Some?
           && now >= start && now >= start + c.demoteAfter.value)
  {
    EntryLives(value, c, start, size, now);
    hide Live, Idle, NewEntry, Keys;
  }

  /** An entry is idle for its window since its last access, whatever it is. */
  lemma IdleIff<V>(m: Entries<V>, now: int, k: Key)
    ensures k in IdlePool(m, now) <==>
      && k in m && (m[k].expiresAt.Some? ==> now < m[k].expiresAt.value)
      && m[k].priority != Critical && m[k].demoteAfter.Some?
      && now >= m[k].lastAccess && now >= m[k].lastAccess + m[k].demoteAfter.value
  {
  }
}
