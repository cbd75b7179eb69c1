/** The steps of the memory manager on snapshots of its state, and what every
    step keeps: the tiers agree, no deferred write is lost, and persisted values
    reach the sink before they are visible. */
module ManagerSteps {
  import opened Prelude
  import opened Policy
  import opened HotSpec
  import opened HotTier
  import opened Tiers
  import opened Deferred
  import opened Coherence

  /** Hot, the lower tiers, the pending writes, what the sink accepted, and two
      records of history: the last value committed to Hot for each key, and the
      last record enqueued for each key. */
  datatype Snap<V> = Snap(
    hot: Entries<V>, low: TierState<V>, items: Items<V>, log: seq<PersistRecord<V>>,
    last: map<Key, V>, enqueued: map<Key, PersistRecord<V>>)

  predicate IsDurable(c: ClassPolicy)
  {
    c.policy == Immediate || c.policy == Persistent
  }

  predicate IsDeferred(c: ClassPolicy)
  {
    c.policy == Durability.Deferred
  }

  predicate ClassIs(cfg: Cfg, c: ClassPolicy)
  {
    c.name in cfg.classes && cfg.classes[c.name] == c
  }

  function RecordOf<V>(k: Key, v: V, c: ClassPolicy): PersistRecord<V>
  {
    PersistRecord(k, c.name, v, c.policy, c.priority)
  }

  // ------------------------------------------------------------- invariants

  /** Nothing in Hot is past its deadline. */
  ghost predicate NoneExpired<V>(hot: Entries<V>, now: int)
  {
    forall k :: k in hot ==> Live(hot[k], now)
  }

  ghost predicate TiersAgree<V>(cfg: Cfg, owner: Key -> ClassName, s: Snap<V>)
  {
    Coherent(cfg, owner, s.hot, s.low, s.last)
  }

  ghost predicate Accepted<V>(log: seq<PersistRecord<V>>, k: Key, v: V)
  {
    LastOf(log, k).Some? && LastOf(log, k).value.value == v
  }

  /** A key of a persisted class that is not archived to Frozen as well. */
  predicate SinkOnly(cfg: Cfg, owner: Key -> ClassName, k: Key)
  {
    && owner(k) in cfg.classes
    && IsDurable(cfg.classes[owner(k)]) && cfg.classes[owner(k)].temperature != Frozen
  }

  predicate DeferredKey(cfg: Cfg, owner: Key -> ClassName, k: Key)
  {
    owner(k) in cfg.classes && IsDeferred(cfg.classes[owner(k)])
  }

  /** No deferred write is lost; only keys of deferred classes are deferred; what
      Hot shows of a persisted key is what the sink accepted last. Expiry does not
      matter here. */
  ghost predicate SinkAgrees<V>(cfg: Cfg, owner: Key -> ClassName, s: Snap<V>)
  {
    && Placed(cfg, owner, s.low) && HotOwned(owner, s.hot)
    && NothingLost(s.items, s.log, s.enqueued)
    && (forall k :: k in s.enqueued ==> DeferredKey(cfg, owner, k))
    && forall k :: k in s.hot && SinkOnly(cfg, owner, k) ==> Accepted(s.log, k, s.hot[k].value)
  }

  /** What the agreement of the tiers says of one key, by its class: its tier, and no other,
      holds copies of it; Hot, or else that tier, holds its last value, or neither if there
      is none. */
  ghost predicate KeyShows<V>(cfg: Cfg, class_: ClassName, s: Snap<V>, k: Key)
  {
    && (k in s.low.warm ==> KeptIn(cfg, class_, ToWarm))
    && (k in s.low.cold ==> KeptIn(cfg, class_, ToCold))
    && (k in s.low.frozen ==> KeptIn(cfg, class_, ToFrozen))
    && (KeptIn(cfg, class_, ToWarm) ==> Shows(s.hot, s.low.warm, s.last, k))
    && (KeptIn(cfg, class_, ToCold) ==> Shows(s.hot, s.low.cold, s.last, k))
    && (KeptIn(cfg, class_, ToFrozen) ==> Shows(s.hot, s.low.frozen, s.last, k))
  }

  ghost predicate Shows<V>(hot: Entries<V>, low: Store<V>, last: map<Key, V>, k: Key)
  {
    if k in hot then k in last && hot[k].value == last[k]
    else (k in low <==> k in last) && (k in last ==> low[k].value == last[k])
  }

  lemma AgreementShows<V>(cfg: Cfg, owner: Key -> ClassName, s: Snap<V>, k: Key)
    requires TiersAgree(cfg, owner, s)
    ensures KeyShows(cfg, owner(k), s, k)
  {
    assert KeyAgrees(cfg, owner, s.hot, s.low, s.last, k);
    assert forall t :: k in StoreOf(s.low, t) ==> Backing(cfg, owner, k) == Some(t);
    BackingIff(cfg, owner, k, ToWarm);
    BackingIff(cfg, owner, k, ToCold);
    BackingIff(cfg, owner, k, ToFrozen);
    assert k in s.low.warm <==> k in StoreOf(s.low, ToWarm);
    assert k in s.low.cold <==> k in StoreOf(s.low, ToCold);
    assert k in s.low.frozen <==> k in StoreOf(s.low, ToFrozen);
    hide Backing, KeptIn;
  }

  /** What the agreement of the sink says of one key: the last record enqueued is pending,
      or the last the sink accepted; and what Hot shows of an immediate or persistent class,
      unless it is archived to Frozen too, is what the sink accepted last. */
  ghost predicate SinkShows<V>(cfg: Cfg, class_: ClassName, s: Snap<V>, k: Key)
  {
    && (k in s.items ==> k in s.enqueued)
    && (k in s.enqueued ==>
         if k in s.items then s.items[k].record == s.enqueued[k] else LastOf(s.log, k) == Some(s.enqueued[k]))
    && (k in s.hot && class_ in cfg.classes && cfg.classes[class_].policy in {Immediate, Persistent}
          && cfg.classes[class_].temperature != Frozen ==>
         LastOf(s.log, k).Some? && LastOf(s.log, k).value.value == s.hot[k].value)
  }

  lemma SinkAgreementShows<V>(cfg: Cfg, owner: Key -> ClassName, s: Snap<V>, k: Key)
    requires SinkAgrees(cfg, owner, s)
    ensures SinkShows(cfg, owner(k), s, k)
  {
    hide Placed, LastOf;
  }

  // ------------------------------------------------------------------ steps

  /** A refused write: some victims may have been copied down, nothing else changed. */
  ghost predicate Refused<V>(cfg: Cfg, a: Snap<V>, b: Snap<V>, vs: Victims<V>, done: nat)
  {
    && FromHot(a.hot, vs) && done <= |vs|
    && b == a.(low := AllDemoted(cfg, a.low, vs[..done]))
  }

  /** One attempt to write to Hot: refused with a part of its victims copied down,
      or carried out with the right victims, all of them demoted first. */
  ghost predicate HotWrite<V>(cfg: Cfg, maxEntries: nat, maxBytes: nat, hot: Entries<V>, low: TierState<V>,
                              hot': Entries<V>, low': TierState<V>, key: Key, entry: HotEntry<V>, now: int, ok: bool,
                              vs: Victims<V>, done: nat)
  {
    && FromHot(hot, vs) && done <= |vs|
    && low' == AllDemoted(cfg, low, vs[..done])
    && if !ok then hot' == hot else
      && done == |vs|
      && hot' == Committed(hot, key, entry, now, vs)
      && RightVictims(hot, maxEntries, maxBytes, key, Weight(key, entry), now, vs)
  }

  /** The write is visible: victims demoted and gone, the entry in Hot. */
  ghost function Visible<V>(cfg: Cfg, a: Snap<V>, key: Key, entry: HotEntry<V>, now: int, vs: Victims<V>): Snap<V>
  {
    a.(hot := Committed(a.hot, key, entry, now, vs),
       low := AllDemoted(cfg, a.low, vs),
       last := a.last[key := entry.value])
  }

  /** A flush: the ready records leave the queue, the first `n` reach the sink, the
      rest go back, ready at once. */
  ghost predicate Flushed<V>(a: Snap<V>, b: Snap<V>, now: int, force: bool, batch: seq<PersistRecord<V>>, n: nat)
  {
    var ready := ReadyKeys(a.items, now, force);
    && n <= |batch|
    && Lists(a.items, ready, batch)
    && b == a.(items := Requeued(a.items - ready, batch[n..], now), log := a.log + batch[..n])
  }

  // ----------------------------------------------------- what flushes preserve

  lemma {:induction false} FlushInProgress<V>(a: Snap<V>, now: int, force: bool, batch: seq<PersistRecord<V>>, n: nat)
    requires NothingLost(a.items, a.log, a.enqueued)
    requires n <= |batch| && Lists(a.items, ReadyKeys(a.items, now, force), batch)
    ensures NothingLostMidFlush(a.items - ReadyKeys(a.items, now, force), a.log + batch[..n], a.enqueued, batch, n)
  {
    hide NothingLost, NothingLostMidFlush, Lists, ReadyKeys;
    var ready := ReadyKeys(a.items, now, force);
    if n == 0 {
      ReadyAreItems(a.items, now, force);
      TakeStartsFlush(a.items, a.log, a.enqueued, ready, batch);
      assert a.log + batch[..0] == a.log;
    } else {
      FlushInProgress(a, now, force, batch, n - 1);
      PersistOne(a.items - ready, a.log + batch[..n - 1], a.enqueued, batch, n - 1);
      assert a.log + batch[..n] == (a.log + batch[..n - 1]) + [batch[n - 1]];
    }
  }

  lemma ReadyAreItems<V>(items: Items<V>, now: int, force: bool)
    ensures ReadyKeys(items, now, force) <= items.Keys
  {
  }

  /** A flush that stops at any record loses no write and lets none overtake. */
  lemma FlushLosesNothing<V>(a: Snap<V>, b: Snap<V>, now: int, force: bool, batch: seq<PersistRecord<V>>, n: nat)
    requires NothingLost(a.items, a.log, a.enqueued)
    requires Flushed(a, b, now, force, batch, n)
    ensures NothingLost(b.items, b.log, b.enqueued)
  {
    hide NothingLost, NothingLostMidFlush, Lists, ReadyKeys, Requeued;
    FlushInProgress(a, now, force, batch, n);
    RequeueLosesNothing(a.items - ReadyKeys(a.items, now, force), b.log, a.enqueued, batch, n, now);
  }

  lemma {:induction false} LogOfOtherKey<V>(log: seq<PersistRecord<V>>, more: seq<PersistRecord<V>>, k: Key)
    requires forall i :: 0 <= i < |more| ==> more[i].key != k
    ensures LastOf(log + more, k) == LastOf(log, k)
  {
    if more == [] {
      assert log + more == log;
    } else {
      var n := |more| - 1;
      LogOfOtherKey(log, more[..n], k);
      LastOfSnoc(log + more[..n], more[n], k);
      assert log + more == (log + more[..n]) + [more[n]];
    }
  }

  lemma FlushKeepsSink<V>(cfg: Cfg, owner: Key -> ClassName, a: Snap<V>, b: Snap<V>, now: int, force: bool,
                          batch: seq<PersistRecord<V>>, n: nat)
    requires SinkAgrees(cfg, owner, a) && Flushed(a, b, now, force, batch, n)
    ensures SinkAgrees(cfg, owner, b)
  {
    hide Requeued, ReadyKeys;
    FlushLosesNothing(a, b, now, force, batch, n);
    hide NothingLostMidFlush;
    forall k | k in b.hot && SinkOnly(cfg, owner, k)
      ensures Accepted(b.log, k, b.hot[k].value)
    {
      assert k !in a.enqueued && k !in a.items;
      LogOfOtherKey(a.log, batch[..n], k);
    }
  }

  /** A forced flush that succeeds empties the queue. */
  lemma ForcedFlushEmpties<V>(a: Snap<V>, b: Snap<V>, now: int, batch: seq<PersistRecord<V>>)
    requires Flushed(a, b, now, true, batch, |batch|)
    ensures b.items == map[]
  {
    assert batch[|batch|..] == [];
    assert ReadyKeys(a.items, now, true) == a.items.Keys;
  }

  /** A flush that succeeds only takes records out of the queue. */
  lemma FlushShrinks<V>(a: Snap<V>, b: Snap<V>, now: int, force: bool, batch: seq<PersistRecord<V>>)
    requires Flushed(a, b, now, force, batch, |batch|)
    ensures b.items == a.items - ReadyKeys(a.items, now, force)
    ensures |b.items| <= |a.items|
  {
    assert batch[|batch|..] == [];
    var ready := ReadyKeys(a.items, now, force);
    assert (a.items - ready).Keys == a.items.Keys - ready;
    SubsetSize(a.items.Keys - ready, a.items.Keys);
  }

  // ------------------------------------------------------ what writes preserve

  /** Atomicity: a refused write leaves Hot, the sink and the queue unchanged and
      adds to the lower tiers only values still in Hot. */
  lemma RefusalKeepsAgreement<V>(cfg: Cfg, owner: Key -> ClassName, a: Snap<V>, b: Snap<V>, vs: Victims<V>, done: nat)
    requires Refused(cfg, a, b, vs, done)
    ensures TiersAgree(cfg, owner, a) ==> TiersAgree(cfg, owner, b)
    ensures SinkAgrees(cfg, owner, a) ==> SinkAgrees(cfg, owner, b)
    ensures b.hot == a.hot && b.log == a.log && b.items == a.items
  {
    hide NothingLost, Placed, AllDemoted;
    if SinkAgrees(cfg, owner, a) {
      DemotionsKeepPlaced(cfg, owner, a.hot, a.low, vs[..done]);
    }
    if TiersAgree(cfg, owner, a) {
      DemoteAll(cfg, owner, a.hot, a.low, a.last, vs[..done]);
    }
  }

  lemma NothingExpires<V>(hot: Entries<V>, now: int)
    requires NoneExpired(hot, now)
    ensures LivePart(hot, now) == hot
  {
  }

  /** A committed write keeps the tiers in agreement; its value is the last one. */
  lemma VisibleKeepsTiers<V>(cfg: Cfg, owner: Key -> ClassName, a: Snap<V>, key: Key, entry: HotEntry<V>, now: int,
                             vs: Victims<V>)
    requires TiersAgree(cfg, owner, a) && NoneExpired(a.hot, now)
    requires FromHot(a.hot, vs) && entry.class_ == owner(key)
    ensures TiersAgree(cfg, owner, Visible(cfg, a, key, entry, now, vs))
  {
    hide Coherent, FromHot, AllDemoted, NoneExpired, Saved, Keys;
    NothingExpires(a.hot, now);
    DemoteAll(cfg, owner, a.hot, a.low, a.last, vs);
    EvictSaved(cfg, owner, a.hot, AllDemoted(cfg, a.low, vs), a.last, vs);
    InsertInHot(cfg, owner, a.hot - Keys(vs), AllDemoted(cfg, a.low, vs), a.last, key, entry);
  }

  lemma VisibleKeepsSink<V>(cfg: Cfg, owner: Key -> ClassName, a: Snap<V>, key: Key, entry: HotEntry<V>, now: int,
                            vs: Victims<V>)
    requires SinkAgrees(cfg, owner, a) && !SinkOnly(cfg, owner, key)
    requires FromHot(a.hot, vs) && entry.class_ == owner(key)
    ensures SinkAgrees(cfg, owner, Visible(cfg, a, key, entry, now, vs))
  {
    hide NothingLost, AllDemoted, Keys, Placed;
    DemotionsKeepPlaced(cfg, owner, a.hot, a.low, vs);
  }

  /** Persist before visible: the record is in the sink when the value is in Hot. */
  lemma PersistThenVisible<V>(cfg: Cfg, owner: Key -> ClassName, a: Snap<V>, key: Key, entry: HotEntry<V>, now: int,
                              vs: Victims<V>, c: ClassPolicy)
    requires SinkAgrees(cfg, owner, a) && ClassIs(cfg, c) && IsDurable(c) && owner(key) == c.name
    requires FromHot(a.hot, vs) && entry.class_ == owner(key)
    ensures var b := Visible(cfg, a, key, entry, now, vs);
      SinkAgrees(cfg, owner, b.(log := b.log + [RecordOf(key, entry.value, c)]))
  {
    hide AllDemoted, Keys, Placed;
    DemotionsKeepPlaced(cfg, owner, a.hot, a.low, vs);
    var r := RecordOf(key, entry.value, c);
    var b := Visible(cfg, a, key, entry, now, vs);
    DirectWriteLosesNothing(a.items, a.log, a.enqueued, r);
    hide NothingLost;
    forall k | k in b.hot && SinkOnly(cfg, owner, k)
      ensures Accepted(a.log + [r], k, b.hot[k].value)
    {
      LastOfSnoc(a.log, r, k);
    }
  }

  lemma EnqueueKeepsSink<V>(cfg: Cfg, owner: Key -> ClassName, a: Snap<V>, item: Item<V>)
    requires SinkAgrees(cfg, owner, a) && DeferredKey(cfg, owner, item.record.key)
    ensures SinkAgrees(cfg, owner, a.(items := a.items[item.record.key := item],
                                      enqueued := a.enqueued[item.record.key := item.record]))
  {
    EnqueueLosesNothing(a.items, a.log, a.enqueued, item);
    hide NothingLost;
  }

  /** Copying what Hot holds to the key's own tier keeps everything. */
  lemma MirrorKeepsAgreement<V>(cfg: Cfg, owner: Key -> ClassName, a: Snap<V>, t: Tier, key: Key)
    requires key in a.hot && TierOf(cfg, owner(key)) == Some(t)
    ensures var b := a.(low := PutIn(cfg, a.low, t, key, LowEntry(owner(key), a.hot[key].value)));
      && (TiersAgree(cfg, owner, a) ==> TiersAgree(cfg, owner, b))
      && (SinkAgrees(cfg, owner, a) ==> SinkAgrees(cfg, owner, b))
  {
    hide Placed, NothingLost, PutIn, KeyAgrees;
    if TiersAgree(cfg, owner, a) {
      MirrorLast(cfg, owner, a.hot, a.low, a.last, key, t, a.hot[key].value);
    }
    if SinkAgrees(cfg, owner, a) {
      PutKeepsPlaced(cfg, owner, a.low, t, key, a.hot[key].value);
    }
  }

  // -------------------------------------------------------- the whole upsert

  /** The value was also copied to the tier of its class. */
  ghost function Mirrored<V>(cfg: Cfg, a: Snap<V>, c: ClassPolicy, key: Key, value: V, mirrored: bool): Snap<V>
  {
    if mirrored && TierOf(cfg, c.name).Some?
    then a.(low := PutIn(cfg, a.low, TierOf(cfg, c.name).value, key, LowEntry(c.name, value)))
    else a
  }

  ghost function Enqueued<V>(a: Snap<V>, item: Item<V>): Snap<V>
  {
    a.(items := a.items[item.record.key := item], enqueued := a.enqueued[item.record.key := item.record])
  }

  /** What follows a visible write, by durability: the record was persisted before; or
      is enqueued and flushed after; or only what is due is flushed. */
  ghost predicate Followed<V>(cfg: Cfg, maxPending: nat, visible: Snap<V>, b: Snap<V>, c: ClassPolicy, key: Key,
                              value: V, now: int, mirrored: bool, batch: seq<PersistRecord<V>>, n: nat)
  {
    var s := Mirrored(cfg, visible, c, key, value, mirrored);
    var r := RecordOf(key, value, c);
    match c.policy
    case Immediate => b == s.(log := s.log + [r])
    case Persistent => b == s.(log := s.log + [r])
    case Deferred =>
      var q := Enqueued(s, Item(r, now, c.flush));
      Flushed(q, b, now, |q.items| >= maxPending, batch, n)
    case Volatile => Flushed(s, b, now, false, batch, n)
    case Cache => Flushed(s, b, now, false, batch, n) || (b == s && !mirrored && TierOf(cfg, c.name) == Some(ToWarm))
  }

  /** A write that became visible, with what follows it. */
  ghost predicate Written<V>(cfg: Cfg, maxPending: nat, a: Snap<V>, b: Snap<V>, c: ClassPolicy, key: Key,
                             entry: HotEntry<V>, now: int, vs: Victims<V>, mirrored: bool,
                             batch: seq<PersistRecord<V>>, n: nat)
  {
    Followed(cfg, maxPending, Visible(cfg, a, key, entry, now, vs), b, c, key, entry.value, now, mirrored, batch, n)
  }

  /** An upsert: refused before it is visible, or visible with the right victims and
      whatever follows; successful only if all of it was done. */
  ghost predicate Upserted<V>(cfg: Cfg, maxEntries: nat, maxBytes: nat, maxPending: nat, a: Snap<V>, b: Snap<V>,
                              c: ClassPolicy, key: Key, entry: HotEntry<V>, now: int, ok: bool, committed: bool,
                              vs: Victims<V>, done: nat, mirrored: bool, batch: seq<PersistRecord<V>>, n: nat)
  {
    && (ok ==> committed && n == |batch|)
    && if committed then
         && FromHot(a.hot, vs)
         && RightVictims(a.hot, maxEntries, maxBytes, key, Weight(key, entry), now, vs)
         && Written(cfg, maxPending, a, b, c, key, entry, now, vs, mirrored, batch, n)
       else Refused(cfg, a, b, vs, done)
  }

  /** What decides an upsert: whether Hot can take the value, and which of the calls it
      makes fail. The victims that are saved are those before the first demotion that
      fails; the write is visible when all are saved and, for a durable class, the sink
      takes the record; `target` is the tier that gets a copy afterwards. */
  ghost predicate Decided<V>(cfg: Cfg, c: ClassPolicy, fits: bool, plan: Plan, hasSink: bool, sink: seq<bool>,
                             target: Option<Tier>, ok: bool, committed: bool, vs: Victims<V>, done: nat,
                             mirrored: bool, pending: nat, n: nat)
  {
    && done == Savable(cfg, plan, vs)
    && (committed <==> fits && done == |vs| && (IsDurable(c) ==> hasSink && !FailsNext(sink)))
    && n == Accepts(sink, pending)
    && (mirrored <==>
         && target.Some? && committed && !Fails(PlanAfter(cfg, plan, vs), target.value)
         && (target == Some(ToFrozen) ==> n == pending))
    && (ok <==> committed && n == pending && (target.Some? ==> mirrored))
  }

  /** The tier that a visible write of the class is copied to. */
  function CopyTier(cfg: Cfg, c: ClassPolicy): Option<Tier>
  {
    if TierOf(cfg, c.name) == Some(ToCold) then None else TierOf(cfg, c.name)
  }

  lemma VisibleHolds<V>(cfg: Cfg, a: Snap<V>, key: Key, entry: HotEntry<V>, now: int, vs: Victims<V>)
    ensures var b := Visible(cfg, a, key, entry, now, vs); key in b.hot && b.hot[key] == entry
  {
  }

  lemma WrittenShows<V>(cfg: Cfg, maxPending: nat, a: Snap<V>, b: Snap<V>, c: ClassPolicy, key: Key,
                        entry: HotEntry<V>, now: int, vs: Victims<V>, mirrored: bool, batch: seq<PersistRecord<V>>,
                        n: nat)
    requires Written(cfg, maxPending, a, b, c, key, entry, now, vs, mirrored, batch, n)
    ensures var m := Mirrored(cfg, Visible(cfg, a, key, entry, now, vs), c, key, entry.value, mirrored);
      b.hot == m.hot && b.low == m.low && b.last == m.last
  {
    hide Visible, Mirrored, Lists, ReadyKeys, Requeued, TierOf;
  }

  /** Every visible write keeps the tiers in agreement, unless something expired
      meanwhile, and makes its value the last one of its key. */
  lemma WriteKeepsTiers<V>(cfg: Cfg, owner: Key -> ClassName, maxPending: nat, a: Snap<V>, b: Snap<V>, c: ClassPolicy,
                           key: Key, entry: HotEntry<V>, now: int, vs: Victims<V>, mirrored: bool,
                           batch: seq<PersistRecord<V>>, n: nat)
    requires Written(cfg, maxPending, a, b, c, key, entry, now, vs, mirrored, batch, n)
    requires FromHot(a.hot, vs) && owner(key) == c.name == entry.class_
    ensures b.last == a.last[key := entry.value]
    ensures TiersAgree(cfg, owner, a) && NoneExpired(a.hot, now) ==> TiersAgree(cfg, owner, b)
  {
    var s := Visible(cfg, a, key, entry, now, vs);
    WrittenShows(cfg, maxPending, a, b, c, key, entry, now, vs, mirrored, batch, n);
    hide Written;
    VisibleHolds(cfg, a, key, entry, now, vs);
    if TiersAgree(cfg, owner, a) && NoneExpired(a.hot, now) {
      VisibleKeepsTiers(cfg, owner, a, key, entry, now, vs);
      hide Visible, Coherent, NoneExpired, FromHot, PutIn;
      if mirrored && TierOf(cfg, c.name).Some? {
        MirrorKeepsAgreement(cfg, owner, s, TierOf(cfg, c.name).value, key);
      }
    }
  }

  /** Every visible write keeps the sink side in agreement. */
  lemma WriteKeepsSink<V>(cfg: Cfg, owner: Key -> ClassName, maxPending: nat, a: Snap<V>, b: Snap<V>, c: ClassPolicy,
                          key: Key, entry: HotEntry<V>, now: int, vs: Victims<V>, mirrored: bool,
                          batch: seq<PersistRecord<V>>, n: nat)
    requires SinkAgrees(cfg, owner, a) && ClassIs(cfg, c)
    requires Written(cfg, maxPending, a, b, c, key, entry, now, vs, mirrored, batch, n)
    requires FromHot(a.hot, vs) && owner(key) == c.name == entry.class_
    ensures SinkAgrees(cfg, owner, b)
  {
    var s := Visible(cfg, a, key, entry, now, vs);
    var r := RecordOf(key, entry.value, c);
    VisibleHolds(cfg, a, key, entry, now, vs);
    var t := TierOf(cfg, c.name);
    if IsDurable(c) {
      PersistThenVisible(cfg, owner, a, key, entry, now, vs, c);
      hide SinkAgrees, Visible, FromHot, PutIn;
      if mirrored && t.Some? {
        MirrorKeepsAgreement(cfg, owner, s.(log := s.log + [r]), t.value, key);
      }
    } else {
      VisibleKeepsSink(cfg, owner, a, key, entry, now, vs);
      hide SinkAgrees, Visible, FromHot, PutIn;
      if mirrored && t.Some? {
        MirrorKeepsAgreement(cfg, owner, s, t.value, key);
      }
      var m := Mirrored(cfg, s, c, key, entry.value, mirrored);
      assert SinkAgrees(cfg, owner, m);
      hide Mirrored;
      if IsDeferred(c) {
        var item := Item(r, now, c.flush);
        EnqueueKeepsSink(cfg, owner, m, item);
        FlushKeepsSink(cfg, owner, Enqueued(m, item), b, now, |Enqueued(m, item).items| >= maxPending, batch, n);
      } else if Flushed(m, b, now, false, batch, n) {
        FlushKeepsSink(cfg, owner, m, b, now, false, batch, n);
      }
    }
  }

  /** A deferred write whose flush succeeds leaves room in the queue. */
  lemma DeferredWriteLeavesRoom<V>(cfg: Cfg, maxPending: nat, a: Snap<V>, b: Snap<V>, c: ClassPolicy, key: Key,
                                   entry: HotEntry<V>, now: int, vs: Victims<V>, mirrored: bool,
                                   batch: seq<PersistRecord<V>>)
    requires IsDeferred(c) && maxPending >= 1
    requires Written(cfg, maxPending, a, b, c, key, entry, now, vs, mirrored, batch, |batch|)
    ensures |b.items| < maxPending
  {
    var s := Mirrored(cfg, Visible(cfg, a, key, entry, now, vs), c, key, entry.value, mirrored);
    var q := Enqueued(s, Item(RecordOf(key, entry.value, c), now, c.flush));
    if |q.items| >= maxPending {
      ForcedFlushEmpties(q, b, now, batch);
    } else {
      FlushShrinks(q, b, now, false, batch);
    }
  }

  lemma DurableIsWritten<V>(cfg: Cfg, maxPending: nat, a: Snap<V>, b: Snap<V>, c: ClassPolicy, key: Key,
                            entry: HotEntry<V>, now: int, vs: Victims<V>)
    requires IsDurable(c)
    requires b == Visible(cfg, a, key, entry, now, vs).(log := a.log + [RecordOf(key, entry.value, c)])
    ensures Written(cfg, maxPending, a, b, c, key, entry, now, vs, false, [], 0)
  {
  }

  /** The archive copy comes last and touches neither queue nor sink. */
  lemma ArchiveIsWritten<V>(cfg: Cfg, maxPending: nat, a: Snap<V>, b: Snap<V>, c: ClassPolicy, key: Key,
                            entry: HotEntry<V>, now: int, vs: Victims<V>, batch: seq<PersistRecord<V>>, n: nat)
    requires TierOf(cfg, c.name) == Some(ToFrozen)
    requires Written(cfg, maxPending, a, b, c, key, entry, now, vs, false, batch, n)
    ensures Written(cfg, maxPending, a, b.(low := PutIn(cfg, b.low, ToFrozen, key, LowEntry(c.name, entry.value))), c,
                    key, entry, now, vs, true, batch, n)
  {
    hide Visible, PutIn, TierOf, Lists, ReadyKeys;
  }

  /** What an upsert promises about the agreement of the tiers and of the sink. */
  ghost predicate KeepsAgreement<V>(cfg: Cfg, owner: Key -> ClassName, a: Snap<V>, b: Snap<V>, calm: bool)
  {
    && (TiersAgree(cfg, owner, a) && calm ==> TiersAgree(cfg, owner, b))
    && (SinkAgrees(cfg, owner, a) ==> SinkAgrees(cfg, owner, b))
  }

  // ------------------------------------------------------------------ reads

  /** Hot after a read: what expired is gone, the entry read is marked. */
  function Touched<V>(hot: Entries<V>, key: Key, now: int): Entries<V>
  {
    var live := LivePart(hot, now);
    if key in live
    then live[key := live[key].(lastAccess := now, accessCount := SatAdd(live[key].accessCount, 1))]
    else live
  }

  lemma TouchKeepsAgreement<V>(cfg: Cfg, owner: Key -> ClassName, a: Snap<V>, key: Key, now: int)
    ensures KeepsAgreement(cfg, owner, a, a.(hot := Touched(a.hot, key, now)), NoneExpired(a.hot, now))
  {
    hide Placed, NothingLost, KeyAgrees, NoneExpired;
    if TiersAgree(cfg, owner, a) && NoneExpired(a.hot, now) {
      NothingExpires(a.hot, now);
      if key in a.hot {
        TouchInHot(cfg, owner, a.hot, a.low, a.last, key,
          a.hot[key].(lastAccess := now, accessCount := SatAdd(a.hot[key].accessCount, 1)));
      }
    }
  }

  lemma FlushKeepsAgreement<V>(cfg: Cfg, owner: Key -> ClassName, a: Snap<V>, b: Snap<V>, now: int, force: bool,
                               batch: seq<PersistRecord<V>>, n: nat)
    requires Flushed(a, b, now, force, batch, n)
    ensures KeepsAgreement(cfg, owner, a, b, true)
  {
    hide Requeued, ReadyKeys, Lists;
    if SinkAgrees(cfg, owner, a) {
      FlushKeepsSink(cfg, owner, a, b, now, force, batch, n);
    }
  }

  /** A promotion: the value found below is written to Hot, or Hot refuses it. */
  ghost predicate Promoted<V>(cfg: Cfg, maxEntries: nat, maxBytes: nat, a: Snap<V>, b: Snap<V>, t: Tier, key: Key,
                              entry: HotEntry<V>, now: int, ok: bool, vs: Victims<V>, done: nat)
  {
    && key in StoreOf(a.low, t)
    && entry.value == StoreOf(a.low, t)[key].value && entry.class_ == StoreOf(a.low, t)[key].class_
    && b == a.(hot := b.hot, low := b.low)
    && HotWrite(cfg, maxEntries, maxBytes, a.hot, a.low, b.hot, b.low, key, entry, now, ok, vs, done)
  }

  /** Promotion brings up the last value and keeps everything in agreement. */
  lemma PromotionKeepsAgreement<V>(cfg: Cfg, owner: Key -> ClassName, maxEntries: nat, maxBytes: nat, a: Snap<V>,
                                   b: Snap<V>, t: Tier, key: Key, entry: HotEntry<V>, now: int, ok: bool,
                                   vs: Victims<V>, done: nat)
    requires Promoted(cfg, maxEntries, maxBytes, a, b, t, key, entry, now, ok, vs, done)
    requires key !in a.hot
    ensures KeepsAgreement(cfg, owner, a, b, NoneExpired(a.hot, now))
  {
    hide NothingLost, RightVictims, KeyAgrees, AllDemoted, NoneExpired, Keys;
    if !ok {
      RefusalKeepsAgreement(cfg, owner, a, b, vs, done);
    } else {
      AllVictims(cfg, a.low, vs);
      var s := Visible(cfg, a, key, entry, now, vs);
      if TiersAgree(cfg, owner, a) && NoneExpired(a.hot, now) {
        LowerCopyIsLast(cfg, owner, a, t, key);
        VisibleKeepsTiers(cfg, owner, a, key, entry, now, vs);
        assert a.last[key := entry.value] == a.last;
        assert b == s;
      }
      if SinkAgrees(cfg, owner, a) {
        assert Backing(cfg, owner, key) == Some(t);
        VisibleKeepsSink(cfg, owner, a, key, entry, now, vs);
      }
    }
  }

  lemma AllVictims<V>(cfg: Cfg, low: TierState<V>, vs: Victims<V>)
    ensures AllDemoted(cfg, low, vs[..|vs|]) == AllDemoted(cfg, low, vs)
  {
    assert vs[..|vs|] == vs;
  }

  /** A copy found below, when Hot has none, is the last value of its key. */
  lemma LowerCopyIsLast<V>(cfg: Cfg, owner: Key -> ClassName, a: Snap<V>, t: Tier, key: Key)
    requires TiersAgree(cfg, owner, a) && key in StoreOf(a.low, t) && key !in a.hot
    ensures Backing(cfg, owner, key) == Some(t) && StoreOf(a.low, t)[key].class_ == owner(key)
    ensures key in a.last && a.last[key] == StoreOf(a.low, t)[key].value
  {
    assert KeyAgrees(cfg, owner, a.hot, a.low, a.last, key);
  }

  function ReadOrder(t: Tier): nat
  {
    match t
    case ToWarm => 0
    case ToCold => 1
    case ToFrozen => 2
  }

  /** `t` is the first tier, in read order, that has the key and is not down. */
  ghost predicate FoundIn<V>(low: TierState<V>, key: Key, down: set<Tier>, t: Tier)
  {
    && key in StoreOf(low, t) && t !in down
    && forall u :: ReadOrder(u) < ReadOrder(t) && key in StoreOf(low, u) ==> u in down
  }

  /** What a read below Hot does while the reads of the tiers `down` fail: the first
      other tier that has the key answers, and its value goes to Hot if its class is
      known and Hot admits it; if no other tier has it, nothing changes. */
  ghost predicate ReadBelow<V>(cfg: Cfg, maxEntries: nat, maxBytes: nat, a: Snap<V>, b: Snap<V>, key: Key, now: int,
                               v: Option<V>, down: set<Tier>, p: Promotion<V>)
  {
    match v
    case None => b == a && forall t :: key in StoreOf(a.low, t) ==> t in down
    case Some(x) =>
      && FoundIn(a.low, key, down, p.tier) && StoreOf(a.low, p.tier)[key].value == x
      && if StoreOf(a.low, p.tier)[key].class_ !in cfg.classes then b == a
         else p.Promotion? && Promoted(cfg, maxEntries, maxBytes, a, b, p.tier, key, p.entry, now, p.ok, p.victims,
                                       p.done)
  }

  datatype Promotion<V> =
    | NoPromotion(tier: Tier)
    | Promotion(tier: Tier, entry: HotEntry<V>, ok: bool, victims: Victims<V>, done: nat)

  lemma ReadBelowKeepsAgreement<V>(cfg: Cfg, owner: Key -> ClassName, maxEntries: nat, maxBytes: nat, a: Snap<V>,
                                   b: Snap<V>, key: Key, now: int, v: Option<V>, down: set<Tier>, p: Promotion<V>)
    requires ReadBelow(cfg, maxEntries, maxBytes, a, b, key, now, v, down, p) && key !in a.hot
    ensures KeepsAgreement(cfg, owner, a, b, NoneExpired(a.hot, now))
  {
    hide Promoted, TiersAgree, SinkAgrees, NoneExpired;
    if v.Some? && StoreOf(a.low, p.tier)[key].class_ in cfg.classes {
      PromotionKeepsAgreement(cfg, owner, maxEntries, maxBytes, a, b, p.tier, key, p.entry, now, p.ok, p.victims,
                              p.done);
    }
  }

  /** Read coherence: while the tiers agree and nothing expired, a read answers
      with the last value committed to Hot for its key, or with nothing; and with
      nothing exactly if there is none, or Hot has no copy and the read of the key's
      own tier fails. */
  lemma ReadIsLast<V>(cfg: Cfg, owner: Key -> ClassName, maxEntries: nat, maxBytes: nat, a: Snap<V>, m: Snap<V>,
                      b: Snap<V>, t: Tier, key: Key, now: int, v: Option<V>, down: set<Tier>, p: Promotion<V>)
    requires TiersAgree(cfg, owner, a) && NoneExpired(a.hot, now)
    requires key in LivePart(a.hot, now) ==> v == Some(LivePart(a.hot, now)[key].value)
    requires m.low == a.low
    requires key !in LivePart(a.hot, now) ==> ReadBelow(cfg, maxEntries, maxBytes, m, b, key, now, v, down, p)
    requires KeptIn(cfg, owner(key), t)
    ensures v.Some? ==> key in a.last && v.value == a.last[key]
    ensures v.None? <==> key !in a.last || (key !in a.hot && t in down)
  {
    BackingIff(cfg, owner, key, t);
    hide Promoted;
    NothingExpires(a.hot, now);
    assert KeyAgrees(cfg, owner, a.hot, a.low, a.last, key);
    if key !in a.hot && v.Some? {
      LowerCopyIsLast(cfg, owner, a, p.tier, key);
    }
  }

  // -------------------------------------------------------------- evictions

  /** Entries chosen greedily leave Hot once they are saved below; those whose
      demotion failed, and those after them, stay. */
  ghost predicate Evicted<V>(cfg: Cfg, a: Snap<V>, b: Snap<V>, now: int, pool: set<Key>, vs: Victims<V>, done: nat)
  {
    var live := LivePart(a.hot, now);
    && pool <= live.Keys && Greedy(live, pool, vs) && done <= |vs|
    && b == a.(hot := live - Keys(vs[..done]), low := AllDemoted(cfg, a.low, vs[..done]))
  }

  lemma EvictionKeepsAgreement<V>(cfg: Cfg, owner: Key -> ClassName, a: Snap<V>, b: Snap<V>, now: int, pool: set<Key>,
                                  vs: Victims<V>, done: nat)
    requires Evicted(cfg, a, b, now, pool, vs, done)
    ensures KeepsAgreement(cfg, owner, a, b, NoneExpired(a.hot, now))
  {
    hide NothingLost, KeyAgrees, AllDemoted, NoneExpired, Placed, Keys, Saved;
    var live := LivePart(a.hot, now);
    GreedyFromHot(a.hot, live, pool, vs);
    hide Greedy;
    if SinkAgrees(cfg, owner, a) {
      DemotionsKeepPlaced(cfg, owner, a.hot, a.low, vs[..done]);
    }
    if TiersAgree(cfg, owner, a) && NoneExpired(a.hot, now) {
      NothingExpires(a.hot, now);
      DemoteAll(cfg, owner, a.hot, a.low, a.last, vs[..done]);
      EvictSaved(cfg, owner, a.hot, AllDemoted(cfg, a.low, vs[..done]), a.last, vs[..done]);
    }
  }

  /** A removal: gone from Hot, and from every tier whose removal succeeded. */
  ghost predicate Removed<V>(a: Snap<V>, b: Snap<V>, key: Key, down: set<Tier>)
  {
    && b.hot == a.hot - {key}
    && b == a.(hot := b.hot, low := b.low, last := a.last - {key})
    && forall t :: StoreOf(b.low, t) == if t in down then StoreOf(a.low, t) else StoreOf(a.low, t) - {key}
  }

  /** A removal keeps the sink side; it keeps the tiers in agreement if every tier
      carried it out. */
  lemma RemovalKeepsAgreement<V>(cfg: Cfg, owner: Key -> ClassName, a: Snap<V>, b: Snap<V>, key: Key, down: set<Tier>)
    requires Removed(a, b, key, down)
    ensures KeepsAgreement(cfg, owner, a, b, down == {})
  {
    hide NothingLost, KeyAgrees, TierOf;
    if SinkAgrees(cfg, owner, a) {
      assert forall t, k :: k in StoreOf(b.low, t) ==>
        k in StoreOf(a.low, t) && StoreOf(b.low, t)[k] == StoreOf(a.low, t)[k];
    }
    if TiersAgree(cfg, owner, a) && down == {} {
      RemoveEverywhere(cfg, owner, a.hot, a.low, a.last, key);
      assert StoreOf(b.low, ToWarm) == a.low.warm - {key};
      assert StoreOf(b.low, ToCold) == a.low.cold - {key};
      assert StoreOf(b.low, ToFrozen) == a.low.frozen - {key};
      assert b.low == TierState(a.low.warm - {key}, a.low.cold - {key}, a.low.frozen - {key});
    }
  }

  /** When a removal fails in the tier of the key, an old value can come back: the
      tiers agree afterwards only if that tier holds no copy, and any later read that
      reaches the tier answers exactly the copy it still holds. */
  lemma FailedRemovalAgreesIff<V>(cfg: Cfg, owner: Key -> ClassName, maxEntries: nat, maxBytes: nat,
                                  a: Snap<V>, m: Snap<V>, b: Snap<V>, t: Tier, key: Key, down: set<Tier>,
                                  now: int, v: Option<V>, downLater: set<Tier>, p: Promotion<V>)
    requires Removed(a, m, key, down) && TiersAgree(cfg, owner, a)
    requires KeptIn(cfg, owner(key), t) && t in down
    requires ReadBelow(cfg, maxEntries, maxBytes, m.(hot := Touched(m.hot, key, now)), b, key, now, v, downLater, p)
    ensures var low := StoreOf(a.low, t);
      && (KeyAgrees(cfg, owner, m.hot, m.low, m.last, key) <==> key !in low)
      && v == (if key in low && t !in downLater then Some(low[key].value) else None)
  {
    BackingIff(cfg, owner, key, t);
    hide Promoted, Touched;
    OnlyInItsTier(cfg, owner, a, key);
  }

  /** Why deadlines matter: an entry that expires leaves Hot without a demotion. The
      tiers still agree on its key exactly if its tier already holds the last value,
      and the next read answers whatever that tier holds: the last value if and only
      if the tier can be read and has it. */
  lemma ExpiryAgreesIff<V>(cfg: Cfg, owner: Key -> ClassName, maxEntries: nat, maxBytes: nat, a: Snap<V>, b: Snap<V>,
                           t: Tier, key: Key, now: int, v: Option<V>, down: set<Tier>, p: Promotion<V>)
    requires TiersAgree(cfg, owner, a) && KeptIn(cfg, owner(key), t)
    requires key in a.hot && !Live(a.hot[key], now)
    requires ReadBelow(cfg, maxEntries, maxBytes, a.(hot := Touched(a.hot, key, now)), b, key, now, v, down, p)
    ensures key in a.last && key !in Touched(a.hot, key, now)
    ensures var low := StoreOf(a.low, t);
      && (key in low && low[key].value == a.last[key] <==>
            KeyAgrees(cfg, owner, LivePart(a.hot, now), a.low, a.last, key))
      && v == (if key in low && t !in down then Some(low[key].value) else None)
      && (v == Some(a.last[key]) <==> t !in down && key in low && low[key].value == a.last[key])
  {
    BackingIff(cfg, owner, key, t);
    assert KeyAgrees(cfg, owner, a.hot, a.low, a.last, key);
    OnlyInItsTier(cfg, owner, a, key);
    hide Promoted;
  }

  /** A key has copies in the tier of its class alone. */
  lemma OnlyInItsTier<V>(cfg: Cfg, owner: Key -> ClassName, a: Snap<V>, key: Key)
    requires TiersAgree(cfg, owner, a)
    ensures forall t :: key in StoreOf(a.low, t) ==> Backing(cfg, owner, key) == Some(t)
  {
  }
}
