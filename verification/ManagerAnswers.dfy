/** What a caller of the manager sees of single calls, by the policy and the temperature of
    a class and by instants alone: what a flush sends, which tier answers a read, what an
    upsert that answers Ok leaves in every tier, in the queue and in the sink. */
module ManagerAnswers {
  import opened Prelude
  import opened Policy
  import opened HotSpec
  import opened HotTier
  import opened Tiers
  import opened Deferred
  import opened Coherence
  import opened ManagerSteps

  // ---------------------------------------------------------------- flushes

  /** The queue after a flush that was not stopped: of the records that were pending, those
      whose interval is not over yet, and after a forced flush none. */
  ghost predicate OnlyUndue<V>(before: Items<V>, after: Items<V>, now: int, force: bool)
  {
    forall k ::
      && (k in after <==>
           && k in before && !force && 0 < before[k].flushAfter && now < before[k].enqueuedAt + before[k].flushAfter)
      && (k in after ==> after[k] == before[k])
  }

  lemma FlushLeavesUndue<V>(a: Snap<V>, b: Snap<V>, now: int, force: bool, batch: seq<PersistRecord<V>>)
    requires Flushed(a, b, now, force, batch, |batch|)
    ensures OnlyUndue(a.items, b.items, now, force)
  {
    assert batch[|batch|..] == [];
    DueIff(a.items, now, force);
    hide ReadyKeys, Lists;
  }

  /** What is sent is what is due: each record once, as it was pending. */
  lemma FlushSendsDue<V>(a: Snap<V>, b: Snap<V>, now: int, force: bool, batch: seq<PersistRecord<V>>, n: nat, k: Key)
    requires Flushed(a, b, now, force, batch, n)
    ensures
      && k in a.items
      && (force || a.items[k].flushAfter == 0 || now >= a.items[k].enqueuedAt + a.items[k].flushAfter)
      <==> exists i :: 0 <= i < |batch| && batch[i].key == k
    ensures forall i :: 0 <= i < |batch| ==> batch[i].key in a.items && batch[i] == a.items[batch[i].key].record
    ensures forall i, j :: 0 <= i < j < |batch| ==> batch[i].key != batch[j].key
    ensures b.log == a.log + batch[..n]
  {
    DueIff(a.items, now, force);
    hide ReadyKeys, Requeued;
  }

  /** What the sink did not take is pending again, and due at every later instant; what was
      not due is pending as before. */
  lemma FailedFlushLeaves<V>(a: Snap<V>, b: Snap<V>, now: int, force: bool, batch: seq<PersistRecord<V>>, n: nat,
                             k: Key)
    requires Flushed(a, b, now, force, batch, n)
    ensures (exists i :: n <= i < |batch| && batch[i].key == k) ==>
      k in a.items && k in b.items && b.items[k].record == a.items[k].record && b.items[k].flushAfter == 0
    ensures (forall i :: 0 <= i < |batch| ==> batch[i].key != k) ==>
      (k in b.items <==> k in a.items) && (k in a.items ==> b.items[k] == a.items[k])
    ensures (exists i :: 0 <= i < n && batch[i].key == k) ==> k !in b.items
  {
    var ready := ReadyKeys(a.items, now, force);
    var rest := batch[n..];
    RequeuedAt(a.items - ready, rest, now, k);
    hide ReadyKeys, Requeued;
    if i :| n <= i < |batch| && batch[i].key == k {
      assert rest[i - n] == batch[i];
    }
    if forall i :: 0 <= i < |batch| ==> batch[i].key != k {
      assert k !in ready;
    }
  }

  lemma {:induction false} RequeuedAt<V>(items: Items<V>, records: seq<PersistRecord<V>>, now: int, k: Key)
    requires forall i, j :: 0 <= i < j < |records| ==> records[i].key != records[j].key
    ensures var after := Requeued(items, records, now);
      && (forall i :: 0 <= i < |records| && records[i].key == k ==> k in after && after[k] == Item(records[i], now, 0))
      && ((forall i :: 0 <= i < |records| ==> records[i].key != k) ==>
           (k in after <==> k in items) && (k in items ==> after[k] == items[k]))
    decreases |records|
  {
    if records != [] {
      RequeuedAt(items[records[0].key := Item(records[0], now, 0)], records[1..], now, k);
      assert forall i :: 1 <= i < |records| ==> records[i] == records[1..][i - 1];
    }
  }

  // ------------------------------------------------------------------ reads

  /** Which copy a read below Hot finds: Warm's, or else Cold's, or else Frozen's, skipping
      the tiers whose next call fails. */
  lemma ReadFinds<V>(cfg: Cfg, maxEntries: nat, maxBytes: nat, a: Snap<V>, b: Snap<V>, key: Key, now: int,
                     v: Option<V>, calls: Plan, p: Promotion<V>)
    requires ReadBelow(cfg, maxEntries, maxBytes, a, b, key, now, v, Down(calls), p)
    ensures v ==
      if key in a.low.warm && (calls.warm == [] || !calls.warm[0]) then Some(a.low.warm[key].value)
      else if key in a.low.cold && (calls.cold == [] || !calls.cold[0]) then Some(a.low.cold[key].value)
      else if key in a.low.frozen && (calls.frozen == [] || !calls.frozen[0]) then Some(a.low.frozen[key].value)
      else None
  {
    hide Promoted;
    assert ToWarm in Down(calls) <==> calls.warm != [] && calls.warm[0];
    assert ToCold in Down(calls) <==> calls.cold != [] && calls.cold[0];
    assert ToFrozen in Down(calls) <==> calls.frozen != [] && calls.frozen[0];
    hide Down, Fails;
    assert key in a.low.warm <==> key in StoreOf(a.low, ToWarm);
    assert key in a.low.cold <==> key in StoreOf(a.low, ToCold);
    assert key in a.low.frozen <==> key in StoreOf(a.low, ToFrozen);
    assert ReadOrder(ToWarm) < ReadOrder(ToCold) < ReadOrder(ToFrozen);
  }

  /** What a removal leaves in each tier. */
  lemma RemovalLeaves<V>(a: Snap<V>, b: Snap<V>, key: Key, calls: Plan)
    requires Removed(a, b, key, Down(calls))
    ensures b.hot == a.hot - {key}
    ensures b.low.warm == if calls.warm != [] && calls.warm[0] then a.low.warm else a.low.warm - {key}
    ensures b.low.cold == if calls.cold != [] && calls.cold[0] then a.low.cold else a.low.cold - {key}
    ensures b.low.frozen == if calls.frozen != [] && calls.frozen[0] then a.low.frozen else a.low.frozen - {key}
  {
    assert b.low.warm == StoreOf(b.low, ToWarm);
    assert b.low.cold == StoreOf(b.low, ToCold);
    assert b.low.frozen == StoreOf(b.low, ToFrozen);
  }

  // ---------------------------------------------------------------- upserts

  lemma OkUpsertShows<V>(cfg: Cfg, maxEntries: nat, maxBytes: nat, maxPending: nat, a: Snap<V>, b: Snap<V>,
                         c: ClassPolicy, key: Key, entry: HotEntry<V>, now: int, vs: Victims<V>, done: nat,
                         mirrored: bool, batch: seq<PersistRecord<V>>, n: nat)
    requires Upserted(cfg, maxEntries, maxBytes, maxPending, a, b, c, key, entry, now, true, true, vs, done, mirrored,
               batch, n)
    ensures n == |batch|
    ensures Written(cfg, maxPending, a, b, c, key, entry, now, vs, mirrored, batch, |batch|)
    ensures key in b.hot && b.hot[key] == entry && key in b.last && b.last[key] == entry.value
  {
    WrittenShows(cfg, maxPending, a, b, c, key, entry, now, vs, mirrored, batch, n);
    VisibleHolds(cfg, a, key, entry, now, vs);
    hide Written, RightVictims;
  }

  /** An upsert that answers Ok is in Hot; and a class cached in Warm or archived to Frozen
      has its copy there too. */
  lemma OkUpsertCopies<V>(cfg: Cfg, maxEntries: nat, maxBytes: nat, maxPending: nat, a: Snap<V>, b: Snap<V>,
                          c: ClassPolicy, key: Key, entry: HotEntry<V>, now: int, committed: bool, vs: Victims<V>,
                          done: nat, mirrored: bool, batch: seq<PersistRecord<V>>, n: nat, fits: bool, plan: Plan,
                          hasSink: bool, sink: seq<bool>)
    requires ClassIs(cfg, c)
    requires Upserted(cfg, maxEntries, maxBytes, maxPending, a, b, c, key, entry, now, true, committed, vs, done,
               mirrored, batch, n)
    requires Decided(cfg, c, fits, plan, hasSink, sink, CopyTier(cfg, c), true, committed, vs, done, mirrored,
               |batch|, n)
    ensures key in b.hot && b.hot[key] == entry
    ensures c.policy == Cache && c.temperature == Warm && !cfg.warmNoop ==>
      key in b.low.warm && b.low.warm[key] == LowEntry(c.name, entry.value)
    ensures c.temperature == Frozen && !cfg.frozenNoop ==>
      key in b.low.frozen && b.low.frozen[key] == LowEntry(c.name, entry.value)
  {
    OkUpsertShows(cfg, maxEntries, maxBytes, maxPending, a, b, c, key, entry, now, vs, done, mirrored, batch, n);
    WrittenShows(cfg, maxPending, a, b, c, key, entry, now, vs, mirrored, batch, n);
    hide Upserted, Written, Visible, Savable, PlanAfter, Accepts;
  }

  /** An immediate or persistent upsert that answers Ok adds its record to the sink, and
      leaves the queue alone. */
  lemma OkUpsertPersists<V>(cfg: Cfg, maxEntries: nat, maxBytes: nat, maxPending: nat, a: Snap<V>, b: Snap<V>,
                            c: ClassPolicy, key: Key, entry: HotEntry<V>, now: int, vs: Victims<V>, done: nat,
                            mirrored: bool, batch: seq<PersistRecord<V>>, n: nat)
    requires Upserted(cfg, maxEntries, maxBytes, maxPending, a, b, c, key, entry, now, true, true, vs, done, mirrored,
               batch, n)
    requires c.policy == Immediate || c.policy == Persistent
    ensures b.log == a.log + [PersistRecord(key, c.name, entry.value, c.policy, c.priority)]
    ensures b.items == a.items && b.enqueued == a.enqueued
  {
    hide RightVictims, FromHot, TierOf;
  }

  /** A deferred upsert that answers Ok enqueues its record in place of what is pending
      under its key, and then sends everything if the queue is full, and otherwise what is
      due; the sink holds all that was sent. */
  lemma OkUpsertEnqueues<V>(cfg: Cfg, maxEntries: nat, maxBytes: nat, maxPending: nat, a: Snap<V>, b: Snap<V>,
                            c: ClassPolicy, key: Key, entry: HotEntry<V>, now: int, vs: Victims<V>, done: nat,
                            mirrored: bool, batch: seq<PersistRecord<V>>, n: nat)
    requires Upserted(cfg, maxEntries, maxBytes, maxPending, a, b, c, key, entry, now, true, true, vs, done, mirrored,
               batch, n)
    requires c.policy == Durability.Deferred
    ensures var r := PersistRecord(key, c.name, entry.value, c.policy, c.priority);
      var all := a.items[key := Item(r, now, c.flush)];
      && OnlyUndue(all, b.items, now, |all| >= maxPending)
      && b.enqueued == a.enqueued[key := r]
      && b.log == a.log + batch
      && forall k :: k in all && k !in b.items ==> all[k].record in batch
  {
    var r := PersistRecord(key, c.name, entry.value, c.policy, c.priority);
    var s := Mirrored(cfg, Visible(cfg, a, key, entry, now, vs), c, key, entry.value, mirrored);
    var q := Enqueued(s, Item(r, now, c.flush));
    assert q.items == a.items[key := Item(r, now, c.flush)] && q.enqueued == a.enqueued[key := r] && q.log == a.log;
    assert Flushed(q, b, now, |q.items| >= maxPending, batch, |batch|);
    hide Upserted, Mirrored, Enqueued, Visible;
    SentAreInBatch(q, b, now, |q.items| >= maxPending, batch);
  }

  lemma SentAreInBatch<V>(a: Snap<V>, b: Snap<V>, now: int, force: bool, batch: seq<PersistRecord<V>>)
    requires Flushed(a, b, now, force, batch, |batch|)
    ensures OnlyUndue(a.items, b.items, now, force)
    ensures b.log == a.log + batch && b.enqueued == a.enqueued
    ensures forall k :: k in a.items && k !in b.items ==> a.items[k].record in batch
  {
    FlushLeavesUndue(a, b, now, force, batch);
    assert batch[..|batch|] == batch;
    forall k | k in a.items && k !in b.items
      ensures a.items[k].record in batch
    {
      FlushSendsDue(a, b, now, force, batch, |batch|, k);
      var i :| 0 <= i < |batch| && batch[i].key == k;
      assert batch[i] == a.items[k].record;
    }
  }

  /** A volatile or cached upsert that answers Ok sends what is due, and enqueues nothing. */
  lemma OkUpsertFlushes<V>(cfg: Cfg, maxEntries: nat, maxBytes: nat, maxPending: nat, a: Snap<V>, b: Snap<V>,
                           c: ClassPolicy, key: Key, entry: HotEntry<V>, now: int, committed: bool, vs: Victims<V>,
                           done: nat, mirrored: bool, batch: seq<PersistRecord<V>>, n: nat, fits: bool, plan: Plan,
                           hasSink: bool, sink: seq<bool>)
    requires ClassIs(cfg, c) && (c.policy == Volatile || c.policy == Cache)
    requires Upserted(cfg, maxEntries, maxBytes, maxPending, a, b, c, key, entry, now, true, committed, vs, done,
               mirrored, batch, n)
    requires Decided(cfg, c, fits, plan, hasSink, sink, CopyTier(cfg, c), true, committed, vs, done, mirrored,
               |batch|, n)
    ensures OnlyUndue(a.items, b.items, now, false)
    ensures b.enqueued == a.enqueued && b.log == a.log + batch
    ensures forall k :: k in a.items && k !in b.items ==> a.items[k].record in batch
  {
    var s := Mirrored(cfg, Visible(cfg, a, key, entry, now, vs), c, key, entry.value, mirrored);
    assert Flushed(s, b, now, false, batch, |batch|) by { hide Visible, Savable, PlanAfter, Accepts, Flushed; }
    assert s.items == a.items && s.enqueued == a.enqueued && s.log == a.log;
    hide Upserted, Decided, Mirrored, Visible;
    SentAreInBatch(s, b, now, false, batch);
  }

  /** A write is visible exactly if Hot can take it, every victim is saved, and, for an
      immediate or persistent class, there is a sink and its next call works. */
  lemma VisibleIff<V>(cfg: Cfg, c: ClassPolicy, fits: bool, plan: Plan, hasSink: bool, sink: seq<bool>,
                      target: Option<Tier>, ok: bool, committed: bool, vs: Victims<V>, done: nat, mirrored: bool,
                      pending: nat, n: nat)
    requires Decided(cfg, c, fits, plan, hasSink, sink, target, ok, committed, vs, done, mirrored, pending, n)
    ensures committed <==>
      && fits && done == |vs|
      && (c.policy == Immediate || c.policy == Persistent ==> hasSink && (sink == [] || !sink[0]))
  {
    hide Savable, PlanAfter, Accepts;
  }

  /** When nothing outside fails, an upsert answers Ok exactly if Hot can take the value and
      a durable class has a sink. */
  lemma CalmUpsertSucceedsIff<V>(cfg: Cfg, c: ClassPolicy, fits: bool, plan: Plan, hasSink: bool, sink: seq<bool>,
                                 target: Option<Tier>, ok: bool, committed: bool, vs: Victims<V>, done: nat,
                                 mirrored: bool, pending: nat, n: nat)
    requires Decided(cfg, c, fits, plan, hasSink, sink, target, ok, committed, vs, done, mirrored, pending, n)
    requires NoFaults(plan.warm) && NoFaults(plan.cold) && NoFaults(plan.frozen) && NoFaults(sink)
    ensures ok <==> fits && (c.policy == Immediate || c.policy == Persistent ==> hasSink)
  {
    NoFaultsSaveAll(cfg, plan, vs);
    NoFaultsAcceptAll(sink, pending);
    NoFaultsLater(cfg, plan, vs);
    hide Savable, PlanAfter, Accepts;
  }

  lemma {:induction false} NoFaultsLater<V>(cfg: Cfg, p: Plan, vs: Victims<V>)
    requires NoFaults(p.warm) && NoFaults(p.cold) && NoFaults(p.frozen)
    ensures var q := PlanAfter(cfg, p, vs); NoFaults(q.warm) && NoFaults(q.cold) && NoFaults(q.frozen)
    decreases |vs|
  {
    if vs != [] {
      NoFaultsLater(cfg, AfterSave(cfg, p, vs[0].1.class_), vs[1..]);
    }
  }
}
