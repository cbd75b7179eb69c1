/** The memory manager: promotion and demotion between the tiers, persistence
    before or after visibility, and compensation when a backend fails. */
module Manager {
  import opened Prelude
  import opened Policy
  import opened HotSpec
  import opened HotTier
  import opened Tiers
  import opened Deferred
  import opened Coherence
  import opened ManagerSteps
  import opened ManagerAnswers

  datatype MemError =
    | UnknownClass
    | HotRefused(error: HotError)
    | BackendFailed
    | PersistenceFailed
    | MissingSink

  /** The tier that a visible write is mirrored to before the flush. */
  function MirrorTier(cfg: Cfg, c: ClassPolicy): Option<Tier>
  {
    if TierOf(cfg, c.name) == Some(ToWarm) then Some(ToWarm) else None
  }

  /** No class needs a sink: the only policies a manager without one accepts. */
  ghost predicate NoSinkClass(cfg: Cfg)
  {
    forall c :: c in cfg.classes ==> !IsDurable(cfg.classes[c]) && !IsDeferred(cfg.classes[c])
  }

  /** Pressure: the first evictable live entry, if any, is saved below and gone, or
      its backend failed and it is still there. */
  ghost predicate Pressed<V>(cfg: Cfg, a: Snap<V>, b: Snap<V>, now: int, r: Result<bool, MemError>, vs: Victims<V>,
                             done: nat)
  {
    var pool := Evictable(LivePart(a.hot, now));
    && Evicted(cfg, a, b, now, pool, vs, done)
    && |vs| == (if pool == {} then 0 else 1)
    && r == (if done < |vs| then Err(BackendFailed) else Ok(vs != []))
  }

  class MemoryManager<V> {
    const cfg: Cfg
    const hot: HotStore<V>
    const warm: Backend<V>
    const cold: Backend<V>
    const frozen: Backend<V>
    const persist: Sink?<V>
    const deferred: DeferredQueue<V>

    /** The class every key is meant to have, the last value committed to Hot for
        each key, and the last record enqueued for each key. */
    ghost const owner: Key -> ClassName
    ghost var last: map<Key, V>
    ghost var lastEnqueued: map<Key, PersistRecord<V>>

    ghost function Parts(): set<object>
    {
      {this, hot, warm, cold, frozen, deferred} + if persist == null then {} else {persist as object}
    }

    ghost predicate Valid()
      reads Parts()
    {
      && hot.Valid() && warm.Valid() && cold.Valid() && frozen.Valid()
      && warm != cold && warm != frozen && cold != frozen
      && cfg.warmNoop == warm.noop && cfg.coldNoop == cold.noop && cfg.frozenNoop == frozen.noop
      && (forall c :: c in cfg.classes ==> cfg.classes[c].name == c)
      && deferred.maxPending >= 1 && Keyed(deferred.items)
      && (persist == null ==> deferred.items == map[] && NoSinkClass(cfg))
    }

    ghost function Lower(): TierState<V>
      reads warm, cold, frozen
    {
      TierState(warm.store, cold.store, frozen.store)
    }

    ghost function Log(): seq<PersistRecord<V>>
      reads if persist == null then {} else {persist}
    {
      if persist == null then [] else persist.log
    }

    ghost function Now(): Snap<V>
      reads Parts()
    {
      Snap(hot.entries, Lower(), deferred.items, Log(), last, lastEnqueued)
    }

    constructor (cfg: Cfg, hot: HotStore<V>, warm: Backend<V>, cold: Backend<V>, frozen: Backend<V>, persist: Sink?<V>,
                 deferred: DeferredQueue<V>, ghost owner: Key -> ClassName)
      requires hot.Valid() && warm.Valid() && cold.Valid() && frozen.Valid()
      requires warm != cold && warm != frozen && cold != frozen
      requires cfg.warmNoop == warm.noop && cfg.coldNoop == cold.noop && cfg.frozenNoop == frozen.noop
      requires forall c :: c in cfg.classes ==> cfg.classes[c].name == c
      requires deferred.maxPending >= 1 && deferred.items == map[] && hot.entries == map[]
      requires persist == null ==> NoSinkClass(cfg)
      ensures Valid()
      ensures this.cfg == cfg && this.hot == hot && this.warm == warm && this.cold == cold && this.frozen == frozen
      ensures this.persist == persist && this.deferred == deferred && this.owner == owner
      ensures Placed(cfg, owner, Lower()) ==> TiersAgree(cfg, owner, Now()) && SinkAgrees(cfg, owner, Now())
    {
      this.cfg, this.hot, this.warm, this.cold, this.frozen := cfg, hot, warm, cold, frozen;
      this.persist, this.deferred, this.owner := persist, deferred, owner;
      lastEnqueued := map[];
      ghost var low := TierState(warm.store, cold.store, frozen.store);
      last := FoundAtStart(cfg, owner, low);
      new;
      hide Placed, KeyAgrees, FoundAtStart, TotalBytes;
      if Placed(cfg, owner, low) {
        StartIsCoherent(cfg, owner, low);
      }
    }

    /** Which of the coming calls to the lower tiers fail. */
    ghost function Calls(): Plan
      reads warm, cold, frozen
    {
      Plan(warm.faults, cold.faults, frozen.faults)
    }

    /** Which of the coming calls to the sink fail. */
    ghost function SinkCalls(): seq<bool>
      reads if persist == null then {} else {persist}
    {
      if persist == null then [] else persist.faults
    }

    /** Hot can take the value. */
    ghost predicate Fits(key: Key, value: V, now: int)
      reads hot
    {
      FitsIn(hot.entries, key, value, now)
    }

    /** Hot can take the value when it holds `entries`. */
    ghost predicate FitsIn(entries: Entries<V>, key: Key, value: V, now: int)
    {
      && hot.jsonLen(value).Some?
      && Admissible(entries, hot.maxEntries, hot.maxBytes, key, |key.text| + hot.jsonLen(value).value, now)
    }

    /** How a promotion ends: the value found is taken exactly if it fits and every victim
        can be saved by the calls that follow the reads. */
    ghost predicate PromotionDecided(entries: Entries<V>, calls: Plan, key: Key, now: int, p: Promotion<V>)
    {
      p.Promotion? ==>
        && p.entry.class_ in cfg.classes
        && p.entry == EntryFor(p.entry.value, cfg.classes[p.entry.class_], now)
        && p.done == Savable(cfg, AfterReads(calls, p.tier), p.victims)
        && (p.ok <==> FitsIn(entries, key, p.entry.value, now) && p.done == |p.victims|)
    }

    // ------------------------------------------------------------ demotion

    /** One demotion: it takes effect in the tier of the class, or fails without any. It
        fails exactly when the one call it makes fails. */
    method DemoteOrDrop(key: Key, entry: HotEntry<V>) returns (ok: bool)
      requires Valid()
      modifies warm, cold, frozen
      ensures Valid()
      ensures Lower() == if ok then Demoted(cfg, old(Lower()), key, entry) else old(Lower())
      ensures ok == CanSave(cfg, old(Calls()), entry.class_)
      ensures Calls() == AfterSave(cfg, old(Calls()), entry.class_)
    {
      hide TotalBytes, Keyed, NoSinkClass;
      if entry.class_ !in cfg.classes {
        return true;
      }
      var c := cfg.classes[entry.class_];
      if c.temperature == Frozen {
        ok := frozen.Put(key, LowEntry(entry.class_, entry.value));
      } else if c.policy == Cache && c.temperature == Cold {
        ok := cold.Put(key, LowEntry(entry.class_, entry.value));
      } else if c.policy == Cache && c.temperature == Warm {
        ok := warm.Put(key, LowEntry(entry.class_, entry.value));
      } else {
        ok := true;
      }
    }

    /** Demotes victims in turn, stopping at the first failure. */
    method DemoteVictims(vs: Victims<V>) returns (done: nat)
      requires Valid()
      modifies warm, cold, frozen
      ensures Valid()
      ensures done <= |vs| && Lower() == AllDemoted(cfg, old(Lower()), vs[..done])
      ensures done == Savable(cfg, old(Calls()), vs) && Calls() == PlanAfter(cfg, old(Calls()), vs)
    {
      hide TotalBytes, Keyed, NoSinkClass, Demoted, CanSave, AfterSave;
      done := 0;
      assert vs[..0] == [] && vs[0..] == vs;
      while done < |vs|
        invariant done <= |vs| && Valid()
        invariant Lower() == AllDemoted(cfg, old(Lower()), vs[..done])
        invariant Savable(cfg, old(Calls()), vs) == done + Savable(cfg, Calls(), vs[done..])
        invariant PlanAfter(cfg, old(Calls()), vs) == PlanAfter(cfg, Calls(), vs[done..])
      {
        assert vs[..done + 1][..done] == vs[..done];
        assert vs[done..][1..] == vs[done + 1..];
        var ok := DemoteOrDrop(vs[done].0, vs[done].1);
        if !ok {
          return;
        }
        done := done + 1;
      }
    }

    /** Admission, then the demotion of the victims; Hot is not touched. */
    method MakeRoom(key: Key, value: V, c: ClassPolicy, now: int)
      returns (r: Result<Prepared<V>, MemError>, ghost vs: Victims<V>, ghost done: nat)
      requires Valid()
      modifies warm, cold, frozen
      ensures Valid()
      ensures done <= |vs| && FromHot(hot.entries, vs) && Lower() == AllDemoted(cfg, old(Lower()), vs[..done])
      ensures done == Savable(cfg, old(Calls()), vs) && Calls() == PlanAfter(cfg, old(Calls()), vs)
      ensures r.Ok? <==> Fits(key, value, now) && done == |vs|
      ensures r.Ok? ==> hot.jsonLen(value).Some? && r.value == Prepared(key, EntryFor(value, c, now), now, vs)
      ensures if Fits(key, value, now)
        then RightVictims(hot.entries, hot.maxEntries, hot.maxBytes, key, Weight(key, EntryFor(value, c, now)), now, vs)
        else vs == []
      ensures r.Err? ==> if Fits(key, value, now) then r.error == BackendFailed else r.error.HotRefused?
    {
      hide Greedy, TotalBytes, LiveOthers, AllDemoted, Admissible, Keyed, NoSinkClass, Bounded, Enough, RightVictims;
      hide FromHot, Savable, PlanAfter, Accepts;
      NoVictimsYet(cfg, hot.entries, Lower(), Calls());
      var prepared := hot.PrepareUpsert(key, value, c, now);
      if prepared.Err? {
        return Err(HotRefused(prepared.error)), [], 0;
      }
      var p := prepared.value;
      PreparedFromHot(hot.entries, hot.maxEntries, hot.maxBytes, key, Weight(key, EntryFor(value, c, now)), now,
                      p.victims);
      var n := DemoteVictims(p.victims);
      return if n < |p.victims| then Err(BackendFailed) else Ok(p), p.victims, n;
    }

    /** Room first, then the commit. Refused before it, a write leaves Hot as it was. */
    method HotUpsert(key: Key, value: V, c: ClassPolicy, now: int)
      returns (r: Result<(), MemError>, ghost vs: Victims<V>, ghost done: nat)
      requires Valid()
      modifies hot, warm, cold, frozen
      ensures Valid()
      ensures r.Ok? ==> hot.jsonLen(value).Some?
      ensures HotWrite(cfg, hot.maxEntries, hot.maxBytes, old(hot.entries), old(Lower()), hot.entries, Lower(),
                key, EntryFor(value, c, now), now, r.Ok?, vs, done)
      ensures done == Savable(cfg, old(Calls()), vs) && Calls() == PlanAfter(cfg, old(Calls()), vs)
      ensures r.Ok? <==> old(Fits(key, value, now)) && done == |vs|
      ensures r.Err? ==> if old(Fits(key, value, now)) then r.error == BackendFailed else r.error.HotRefused?
    {
      hide Greedy, TotalBytes, LiveOthers, AllDemoted, Admissible, Keyed, NoSinkClass, Bounded, Enough, RightVictims;
      hide Committed, FromHot, Savable, PlanAfter, Accepts;
      var p;
      p, vs, done := MakeRoom(key, value, c, now);
      if p.Err? {
        return Err(p.error), vs, done;
      }
      RightIsGreedy(hot.entries, hot.maxEntries, hot.maxBytes, key, Weight(key, p.value.entry), now, vs);
      hot.CommitUpsert(p.value);
      r := Ok(());
    }

    // ------------------------------------------------------------ persistence

    ghost function SinkParts(): set<object>
    {
      if persist == null then {} else {persist as object}
    }

    method PersistNow(record: PersistRecord<V>) returns (r: Result<(), MemError>)
      requires Valid()
      modifies SinkParts()
      ensures Valid()
      ensures Log() == if r.Ok? then old(Log()) + [record] else old(Log())
      ensures r == if persist == null then Err(MissingSink)
        else if FailsNext(old(SinkCalls())) then Err(PersistenceFailed) else Ok(())
      ensures persist != null ==> SinkCalls() == Later(old(SinkCalls()))
    {
      if persist == null {
        return Err(MissingSink);
      }
      var ok := persist.Persist(record);
      return if ok then Ok(()) else Err(PersistenceFailed);
    }

    /** Sends records in turn, stopping at the first call that fails. */
    method SendBatch(records: seq<PersistRecord<V>>) returns (written: nat)
      requires Valid() && persist != null
      modifies SinkParts()
      ensures Valid()
      ensures written <= |records| && Log() == old(Log()) + records[..written]
      ensures written == Accepts(old(SinkCalls()), |records|) && SinkCalls() == AfterCalls(old(SinkCalls()), |records|)
    {
      hide Keyed, NoSinkClass, TotalBytes, Bounded, Accepts, AfterCalls, FailsNext;
      written := 0;
      assert Log() + records[..0] == Log();
      while written < |records|
        invariant written <= |records| && Valid()
        invariant Log() == old(Log()) + records[..written]
        invariant Accepts(old(SinkCalls()), |records|) == written + Accepts(SinkCalls(), |records| - written)
        invariant AfterCalls(old(SinkCalls()), |records|) == AfterCalls(SinkCalls(), |records| - written)
      {
        AcceptsStep(SinkCalls(), |records| - written);
        var ok := persist.Persist(records[written]);
        if !ok {
          return;
        }
        assert old(Log()) + records[..written + 1] == (old(Log()) + records[..written]) + [records[written]];
        written := written + 1;
      }
      AcceptsStep(SinkCalls(), 0);
    }

    /** Sends what is due to the sink; at the first failure the rest of the batch
        goes back to the queue. */
    method FlushDeferredAt(now: int, force: bool)
      returns (r: Result<nat, MemError>, ghost batch: seq<PersistRecord<V>>, ghost n: nat)
      requires Valid()
      modifies deferred, SinkParts()
      ensures Valid()
      ensures Flushed(old(Now()), Now(), now, force, batch, n)
      ensures r == if n == |batch| then Ok(n) else Err(PersistenceFailed)
      ensures n == Accepts(old(SinkCalls()), |batch|) && SinkCalls() == AfterCalls(old(SinkCalls()), |batch|)
      ensures InKeyOrder(batch)
      ensures n == |batch| ==> OnlyUndue(old(deferred.items), deferred.items, now, force)
    {
      hide InKeyOrder, OnlyUndue;
      hide Lists, ReadyKeys, Requeued, NoSinkClass, TotalBytes, Bounded, Accepts, AfterCalls;
      ghost var before := Now();
      var records := deferred.TakeReady(now, force);
      batch, n := records, 0;
      QueueWithout(before.items, now, force, records);
      if records == [] {
        NothingToFlush(before, now, force);
        FlushLeavesUndue(before, Now(), now, force, []);
        AcceptsStep(SinkCalls(), 0);
        return Ok(0), [], 0;
      }
      var written := SendBatch(records);
      if written < |records| {
        deferred.RequeueFailed(records[written..], now);
        KeyedRequeue(before.items - ReadyKeys(before.items, now, force), records[written..], now);
        return Err(PersistenceFailed), records, written;
      }
      AllFlushed(before.items - ReadyKeys(before.items, now, force), records, now);
      FlushLeavesUndue(before, Now(), now, force, records);
      return Ok(written), records, written;
    }

    // ----------------------------------------------------------------- upsert

    /** Room first, then the sink; Hot is still untouched. */
    method PersistFirst(key: Key, value: V, c: ClassPolicy, now: int)
      returns (r: Result<Prepared<V>, MemError>, ghost vs: Victims<V>, ghost done: nat)
      requires Valid()
      modifies warm, cold, frozen, SinkParts()
      ensures Valid()
      ensures r.Err? ==> Refused(cfg, old(Now()), Now(), vs, done)
      ensures r.Ok? ==>
        && r.value == Prepared(key, EntryFor(value, c, now), now, vs) && FromHot(hot.entries, vs)
        && RightVictims(hot.entries, hot.maxEntries, hot.maxBytes, key, Weight(key, EntryFor(value, c, now)), now, vs)
        && Now() == old(Now()).(low := AllDemoted(cfg, old(Lower()), vs[..|vs|]),
                                log := old(Log()) + [RecordOf(key, value, c)])
      ensures done == Savable(cfg, old(Calls()), vs) && Calls() == PlanAfter(cfg, old(Calls()), vs)
      ensures r.Ok? <==> Fits(key, value, now) && done == |vs| && persist != null && !FailsNext(old(SinkCalls()))
      ensures r.Err? ==>
        if !Fits(key, value, now) then r.error.HotRefused?
        else if done < |vs| then r.error == BackendFailed
        else r.error == if persist == null then MissingSink else PersistenceFailed
    {
      hide TotalBytes, AllDemoted, Admissible, Keyed, NoSinkClass, Bounded, RightVictims, FromHot, Refused, Savable,
           PlanAfter, Accepts;
      ghost var before := Now();
      r, vs, done := MakeRoom(key, value, c, now);
      RefusedAfter(cfg, before, Now(), vs, done);
      if r.Err? {
        return;
      }
      var persisted := PersistNow(RecordOf(key, value, c));
      if persisted.Err? {
        return Err(persisted.error), vs, done;
      }
    }

    /** `immediate` and `persistent`: admission, demotions, sink, and only then Hot. */
    method WriteDurable(key: Key, value: V, c: ClassPolicy, now: int)
      returns (r: Result<(), MemError>, ghost vs: Victims<V>, ghost done: nat)
      requires Valid() && ClassIs(cfg, c) && IsDurable(c)
      modifies this`last, hot, warm, cold, frozen, SinkParts()
      ensures Valid()
      ensures r.Err? ==> Refused(cfg, old(Now()), Now(), vs, done)
      ensures r.Ok? ==>
        && FromHot(old(hot.entries), vs)
        && RightVictims(old(hot.entries), hot.maxEntries, hot.maxBytes, key, Weight(key, EntryFor(value, c, now)), now,
                        vs)
        && Now() ==
             Visible(cfg, old(Now()), key, EntryFor(value, c, now), now,
                     vs).(log := old(Log()) + [RecordOf(key, value, c)])
      ensures done == Savable(cfg, old(Calls()), vs) && Calls() == PlanAfter(cfg, old(Calls()), vs)
      ensures r.Ok? <==> old(Fits(key, value, now)) && done == |vs| && persist != null && !FailsNext(old(SinkCalls()))
      ensures r.Err? ==> (r.error.HotRefused? <==> !old(Fits(key, value, now)))
    {
      hide Greedy, TotalBytes, LiveOthers, AllDemoted, Admissible, Keyed, NoSinkClass, Bounded, Enough, RightVictims;
      hide Committed, FromHot, Refused, Visible, Savable, PlanAfter, Accepts;
      ghost var before := Now();
      var p;
      p, vs, done := PersistFirst(key, value, c, now);
      if p.Err? {
        return Err(p.error), vs, done;
      }
      RightIsGreedy(hot.entries, hot.maxEntries, hot.maxBytes, key, Weight(key, p.value.entry), now, vs);
      hot.CommitUpsert(p.value);
      last := last[key := value];
      DurableVisible(cfg, before, Now(), key, p.value.entry, now, vs, RecordOf(key, value, c));
      r := Ok(());
    }

    /** The other policies, once the value is in Hot: the queue or the mirror, then the flush. */
    method FollowUp(key: Key, value: V, c: ClassPolicy, now: int)
      returns (r: Result<(), MemError>, ghost mirrored: bool, ghost batch: seq<PersistRecord<V>>, ghost n: nat)
      requires Valid() && ClassIs(cfg, c) && !IsDurable(c)
      modifies this`lastEnqueued, warm, deferred, SinkParts()
      ensures Valid()
      ensures Followed(cfg, deferred.maxPending, old(Now()), Now(), c, key, value, now, mirrored, batch, n)
      ensures mirrored <==> TierOf(cfg, c.name) == Some(ToWarm) && !Fails(old(Calls()), ToWarm)
      ensures n == Accepts(old(SinkCalls()), |batch|)
      ensures r.Ok? <==> n == |batch| && (TierOf(cfg, c.name) == Some(ToWarm) ==> mirrored)
      ensures r.Err? ==> !r.error.HotRefused?
      ensures TierOf(cfg, c.name) == Some(ToFrozen) ==> Calls() == old(Calls())
    {
      hide TotalBytes, Keyed, NoSinkClass, Bounded, Flushed, Followed, Savable, PlanAfter, Accepts, Staged;
      batch, n := [], 0;
      ghost var s := Now();
      var ok, force;
      ok, force, mirrored := QueueOrMirror(key, value, c, now);
      ghost var m := Now();
      if !ok {
        StagedThenStopped(cfg, deferred.maxPending, s, m, c, key, value, now, force, mirrored);
        return Err(BackendFailed), mirrored, [], 0;
      }
      var f;
      f, batch, n := FlushDeferredAt(now, force);
      StagedThenFlushed(cfg, deferred.maxPending, s, m, Now(), c, key, value, now, force, mirrored, batch, n);
      r := if f.Ok? then Ok(()) else Err(f.error);
    }

    /** The first half of it: the record is queued, or the value mirrored. */
    method QueueOrMirror(key: Key, value: V, c: ClassPolicy, now: int)
      returns (ok: bool, force: bool, ghost mirrored: bool)
      requires Valid() && ClassIs(cfg, c) && !IsDurable(c)
      modifies this`lastEnqueued, warm, deferred
      ensures Valid()
      ensures Staged(cfg, deferred.maxPending, old(Now()), Now(), c, key, value, now, ok, force, mirrored)
      ensures mirrored <==> TierOf(cfg, c.name) == Some(ToWarm) && !Fails(old(Calls()), ToWarm)
      ensures ok <==> (TierOf(cfg, c.name) == Some(ToWarm) ==> mirrored)
      ensures TierOf(cfg, c.name) == Some(ToFrozen) ==> Calls() == old(Calls())
    {
      hide TotalBytes, Keyed, NoSinkClass, Bounded;
      ok, force, mirrored := true, false, false;
      ghost var s := Now();
      if c.policy == Durability.Deferred {
        force := deferred.Enqueue(RecordOf(key, value, c), c.flush, now);
        lastEnqueued := lastEnqueued[key := RecordOf(key, value, c)];
        KeyedEnqueue(s.items, Item(RecordOf(key, value, c), now, c.flush));
        SinkExists(cfg, c, persist != null);
      } else if c.policy == Cache && c.temperature == Warm {
        ok := warm.Put(key, LowEntry(c.name, value));
        mirrored := ok;
      }
    }

    /** The other policies: Hot first, then the rest. */
    method WriteVisible(key: Key, value: V, c: ClassPolicy, now: int)
      returns (r: Result<(), MemError>, ghost committed: bool, ghost vs: Victims<V>, ghost done: nat,
               ghost mirrored: bool, ghost batch: seq<PersistRecord<V>>, ghost n: nat)
      requires Valid() && ClassIs(cfg, c) && !IsDurable(c)
      modifies this`last, this`lastEnqueued, hot, warm, cold, frozen, deferred, SinkParts()
      ensures Valid()
      ensures !committed ==> r.Err? && Refused(cfg, old(Now()), Now(), vs, done)
      ensures committed ==>
        && FromHot(old(hot.entries), vs)
        && RightVictims(old(hot.entries), hot.maxEntries, hot.maxBytes, key, Weight(key, EntryFor(value, c, now)), now,
                        vs)
        && Written(cfg, deferred.maxPending, old(Now()), Now(), c, key, EntryFor(value, c, now), now, vs, mirrored,
                   batch, n)
      ensures Decided(cfg, c, old(Fits(key, value, now)), old(Calls()), persist != null, old(SinkCalls()),
                MirrorTier(cfg, c), r.Ok?, committed, vs, done, mirrored, |batch|, n)
      ensures r.Err? ==> (r.error.HotRefused? <==> !old(Fits(key, value, now)))
      ensures TierOf(cfg, c.name) == Some(ToFrozen) ==> Calls() == PlanAfter(cfg, old(Calls()), vs)
    {
      hide Greedy, TotalBytes, LiveOthers, AllDemoted, Keyed, NoSinkClass, Bounded, Enough, RightVictims;
      hide Committed, FromHot, Flushed, Savable, PlanAfter, Accepts, Followed, HotWrite, Visible, Refused;
      committed, mirrored, batch, n := false, false, [], 0;
      ghost var before := Now();
      ghost var entry := EntryFor(value, c, now);
      r, vs, done := HotUpsert(key, value, c, now);
      OpenHotWrite(cfg, before, Now(), hot.maxEntries, hot.maxBytes, key, entry, now, r.Ok?, vs, done);
      if r.Err? {
        return;
      }
      committed := true;
      last := last[key := value];
      r, mirrored, batch, n := FollowUp(key, value, c, now);
    }

    /** The copy a class archived to Frozen writes on every upsert. */
    method ArchiveCopy(key: Key, value: V, c: ClassPolicy) returns (ok: bool)
      requires Valid()
      modifies frozen
      ensures Valid()
      ensures Now() ==
        if ok then old(Now()).(low := PutIn(cfg, old(Lower()), ToFrozen, key, LowEntry(c.name, value))) else old(Now())
      ensures ok == !Fails(old(Calls()), ToFrozen)
    {
      hide TotalBytes, Keyed, NoSinkClass, Bounded, Savable, PlanAfter, Accepts;
      ok := frozen.Put(key, LowEntry(c.name, value));
    }

    /** `upsert_at`. Either the write is refused, and nothing changed but copies of
        values still in Hot; or it is visible, and every effect is as its policy
        says. Both keep the tiers and the sink in agreement. Which of the two happens,
        and how far the effects get, is decided by Hot and by the calls that fail. */
    method UpsertAt(key: Key, value: V, class_: ClassName, now: int)
      returns (r: Result<(), MemError>, ghost committed: bool, ghost vs: Victims<V>, ghost done: nat,
               ghost mirrored: bool, ghost batch: seq<PersistRecord<V>>, ghost n: nat)
      requires Valid()
      modifies this`last, this`lastEnqueued, hot, warm, cold, frozen, deferred, SinkParts()
      ensures Valid()
      ensures class_ !in cfg.classes ==> r == Err(UnknownClass) && Now() == old(Now())
      ensures class_ in cfg.classes ==>
        var c := cfg.classes[class_];
        && Upserted(cfg, hot.maxEntries, hot.maxBytes, deferred.maxPending, old(Now()), Now(), c, key,
             EntryFor(value, c, now), now, r.Ok?, committed, vs, done, mirrored, batch, n)
        && Decided(cfg, c, old(Fits(key, value, now)), old(Calls()), persist != null, old(SinkCalls()),
             CopyTier(cfg, c), r.Ok?, committed, vs, done, mirrored, |batch|, n)
        && (r.Ok? && IsDeferred(c) ==> |deferred.items| < deferred.maxPending)
        && (r.Err? && r.error.HotRefused? <==> !old(Fits(key, value, now)))
      ensures owner(key) == class_ ==>
        KeepsAgreement(cfg, owner, old(Now()), Now(), NoneExpired(old(hot.entries), now))
    {
      hide TotalBytes, LiveOthers, Keyed, NoSinkClass, Bounded, Upserted, Savable, PlanAfter, Accepts, PutIn,
           Admissible, KeepsAgreement, NoneExpired;
      committed, vs, done, mirrored, batch, n := false, [], 0, false, [], 0;
      ghost var before := Now();
      if class_ !in cfg.classes {
        NothingChanges(cfg, owner, before, NoneExpired(before.hot, now));
        return Err(UnknownClass), false, [], 0, false, [], 0;
      }
      var c := cfg.classes[class_];
      ghost var entry := EntryFor(value, c, now);
      r, committed, vs, done, mirrored, batch, n := WriteByPolicy(key, value, c, now);
      if r.Ok? && c.temperature == Frozen {
        ghost var written := Now();
        var ok := ArchiveCopy(key, value, c);
        ArchiveIsUpserted(cfg, hot.maxEntries, hot.maxBytes, deferred.maxPending, before, written, Now(), c, key,
                          entry, now, vs, done, batch, n, ok);
        mirrored := ok;
        r := if ok then r else Err(BackendFailed);
      }
      UpsertKeepsAgreement(cfg, owner, hot.maxEntries, hot.maxBytes, deferred.maxPending, before, Now(), c, key, entry,
                           now, r.Ok?, committed, vs, done, mirrored, batch, n);
    }

    /** The write as the durability of the class wants it, without the archive copy. */
    method WriteByPolicy(key: Key, value: V, c: ClassPolicy, now: int)
      returns (r: Result<(), MemError>, ghost committed: bool, ghost vs: Victims<V>, ghost done: nat,
               ghost mirrored: bool, ghost batch: seq<PersistRecord<V>>, ghost n: nat)
      requires Valid() && ClassIs(cfg, c)
      modifies this`last, this`lastEnqueued, hot, warm, cold, frozen, deferred, SinkParts()
      ensures Valid()
      ensures Upserted(cfg, hot.maxEntries, hot.maxBytes, deferred.maxPending, old(Now()), Now(), c, key,
                EntryFor(value, c, now), now, r.Ok?, committed, vs, done, mirrored, batch, n)
      ensures Decided(cfg, c, old(Fits(key, value, now)), old(Calls()), persist != null, old(SinkCalls()),
                MirrorTier(cfg, c), r.Ok?, committed, vs, done, mirrored, |batch|, n)
      ensures r.Err? ==> (r.error.HotRefused? <==> !old(Fits(key, value, now)))
      ensures TierOf(cfg, c.name) == Some(ToFrozen) ==> Calls() == PlanAfter(cfg, old(Calls()), vs)
    {
      hide Greedy, TotalBytes, LiveOthers, AllDemoted, Keyed, NoSinkClass, Bounded, Enough, RightVictims;
      hide Committed, FromHot, Written, Refused, Visible, Savable, PlanAfter, Accepts;
      mirrored, batch, n := false, [], 0;
      ghost var before := Now();
      if IsDurable(c) {
        r, vs, done := WriteDurable(key, value, c, now);
        committed := r.Ok?;
        if committed {
          DurableIsWritten(cfg, deferred.maxPending, before, Now(), c, key, EntryFor(value, c, now), now, vs);
        }
      } else {
        r, committed, vs, done, mirrored, batch, n := WriteVisible(key, value, c, now);
      }
    }

    // ------------------------------------------------------------------- read

    function BackendOf(t: Tier): Backend<V>
    {
      match t
      case ToWarm => warm
      case ToCold => cold
      case ToFrozen => frozen
    }

    /** `promote_from_warm`, `_cold` and `_frozen`: a hit is written to Hot when its
        class is known; whether Hot takes it or not, the value is the answer. */
    method PromoteFrom(t: Tier, key: Key, now: int)
      returns (v: Option<V>, ghost ok: bool, ghost vs: Victims<V>, ghost done: nat)
      requires Valid()
      modifies hot, warm, cold, frozen
      ensures Valid()
      ensures v == if key in StoreOf(old(Lower()), t) && !Fails(old(Calls()), t)
        then Some(StoreOf(old(Lower()), t)[key].value) else None
      ensures v.None? ==> Now() == old(Now()) && Calls() == Spent(old(Calls()), t)
      ensures v.Some? ==>
        var low := StoreOf(old(Lower()), t)[key];
        if low.class_ !in cfg.classes then Now() == old(Now())
        else Promoted(cfg, hot.maxEntries, hot.maxBytes, old(Now()), Now(), t, key,
               EntryFor(low.value, cfg.classes[low.class_], now), now, ok, vs, done)
      ensures v.Some? && StoreOf(old(Lower()), t)[key].class_ in cfg.classes ==>
        && done == Savable(cfg, Spent(old(Calls()), t), vs)
        && (ok <==> old(Fits(key, StoreOf(Lower(), t)[key].value, now)) && done == |vs|)
    {
      hide HotWrite, TotalBytes, Keyed, NoSinkClass, Bounded, Savable, PlanAfter, Accepts;
      ok, vs, done := false, [], 0;
      var got := BackendOf(t).Get(key);
      if got.Err? {
        return None, false, [], 0;
      }
      if got.value.None? {
        return None, false, [], 0;
      }
      var low := got.value.value;
      v := Some(low.value);
      if low.class_ in cfg.classes {
        var r;
        r, vs, done := HotUpsert(key, low.value, cfg.classes[low.class_], now);
        ok := r.Ok?;
      }
    }

    /** `get_at`: flush what is due, then Hot, then Warm, Cold, Frozen. */
    method GetAt(key: Key, now: int)
      returns (v: Option<V>, ghost p: Promotion<V>, ghost mid: Snap<V>, ghost batch: seq<PersistRecord<V>>,
               ghost n: nat)
      requires Valid()
      modifies hot, warm, cold, frozen, deferred, SinkParts()
      ensures Valid()
      ensures Flushed(old(Now()), mid, now, false, batch, n)
      ensures var live := LivePart(old(hot.entries), now);
        var read := mid.(hot := Touched(old(hot.entries), key, now));
        && (key in live ==> v == Some(live[key].value) && Now() == read)
        && (key !in live ==>
              ReadBelow(cfg, hot.maxEntries, hot.maxBytes, read, Now(), key, now, v, Down(old(Calls())), p))
      ensures KeepsAgreement(cfg, owner, old(Now()), Now(), NoneExpired(old(hot.entries), now))
      ensures forall t ::
        TiersAgree(cfg, owner, old(Now())) && NoneExpired(old(hot.entries), now) && KeptIn(cfg, owner(key), t) ==>
        && (v.Some? ==> key in old(last) && v.value == old(last)[key])
        && (v.None? <==> key !in old(last) || (key !in old(hot.entries) && Fails(old(Calls()), t)))
      ensures n == |batch| ==> OnlyUndue(old(deferred.items), deferred.items, now, false)
      ensures PromotionDecided(Touched(old(hot.entries), key, now), old(Calls()), key, now, p)
    {
      hide HotWrite, TotalBytes, Keyed, NoSinkClass, Bounded, Flushed, TiersAgree, SinkAgrees, NoneExpired;
      hide ReadBelow, LivePart, Savable, PlanAfter, Accepts, OnlyUndue, KeptIn;
      p := NoPromotion(ToWarm);
      ghost var a := Now();
      var ignored;
      ignored, batch, n := FlushDeferredAt(now, false);
      mid := Now();
      FlushKeepsAgreement(cfg, owner, a, mid, now, false, batch, n);
      v := hot.Get(key, now);
      ghost var s := Now();
      TouchKeepsAgreement(cfg, owner, mid, key, now);
      if v.None? {
        TouchedIsCalm(mid.hot, key, now);
        v, p := FindBelow(key, now);
        ReadBelowKeepsAgreement(cfg, owner, hot.maxEntries, hot.maxBytes, s, Now(), key, now, v, Down(old(Calls())), p);
      }
      forall t | TiersAgree(cfg, owner, a) && NoneExpired(a.hot, now) && KeptIn(cfg, owner(key), t)
        ensures v.Some? ==> key in a.last && v.value == a.last[key]
        ensures v.None? <==> key !in a.last || (key !in a.hot && Fails(old(Calls()), t))
      {
        ReadIsLast(cfg, owner, hot.maxEntries, hot.maxBytes, a, s, Now(), t, key, now, v, Down(old(Calls())), p);
      }
    }

    /** The read path below Hot. */
    method FindBelow(key: Key, now: int) returns (v: Option<V>, ghost p: Promotion<V>)
      requires Valid()
      modifies hot, warm, cold, frozen
      ensures Valid()
      ensures ReadBelow(cfg, hot.maxEntries, hot.maxBytes, old(Now()), Now(), key, now, v, Down(old(Calls())), p)
      ensures PromotionDecided(old(hot.entries), old(Calls()), key, now, p)
    {
      hide HotWrite, TotalBytes, Keyed, NoSinkClass, Bounded, Promoted, StoreOf;
      p := NoPromotion(ToWarm);
      ghost var a := Now();
      ghost var calls := Calls();
      var tiers := [ToWarm, ToCold, ToFrozen];
      var i := 0;
      while i < 3
        invariant i <= 3 && Valid() && Now() == a
        invariant forall u: Tier :: ReadOrder(u) < i && key in StoreOf(a.low, u) ==> u in Down(calls)
        invariant forall u: Tier :: ReadOrder(u) >= i ==> (Fails(Calls(), u) <==> u in Down(calls))
        invariant forall u: Tier :: ReadOrder(u) == i ==> Spent(Calls(), u) == AfterReads(calls, u)
      {
        var t := tiers[i];
        assert ReadOrder(t) == i;
        ghost var before := Calls();
        ghost var ok, vs, done;
        v, ok, vs, done := PromoteFrom(t, key, now);
        if v.Some? {
          ghost var low := StoreOf(a.low, t)[key];
          p := if low.class_ in cfg.classes
            then Promotion(t, EntryFor(low.value, cfg.classes[low.class_], now), ok, vs, done) else NoPromotion(t);
          return;
        }
        OtherTiersStay(before, t);
        i := i + 1;
      }
      v := None;
      assert forall u: Tier :: ReadOrder(u) < 3;
    }

    // ------------------------------------------------------ removal, eviction

    /** The removals below Hot; a tier whose call fails keeps its copy. */
    method RemoveBelow(key: Key) returns (w: Result<bool, ()>, c: Result<bool, ()>, f: Result<bool, ()>)
      requires Valid()
      modifies warm, cold, frozen
      ensures Valid()
      ensures w.Err? == Fails(old(Calls()), ToWarm) && (w.Ok? ==> w.value == (key in old(warm.store)))
      ensures c.Err? == Fails(old(Calls()), ToCold) && (c.Ok? ==> c.value == (key in old(cold.store)))
      ensures f.Err? == Fails(old(Calls()), ToFrozen) && (f.Ok? ==> f.value == (key in old(frozen.store)))
      ensures warm.store == if w.Err? then old(warm.store) else old(warm.store) - {key}
      ensures cold.store == if c.Err? then old(cold.store) else old(cold.store) - {key}
      ensures frozen.store == if f.Err? then old(frozen.store) else old(frozen.store) - {key}
    {
      hide TotalBytes, Keyed, NoSinkClass, Bounded, FailsNext, Later;
      w := warm.Remove(key);
      c := cold.Remove(key);
      f := frozen.Remove(key);
    }

    /** `remove`, from every tier; a tier whose call fails keeps its copy. */
    method Remove(key: Key) returns (removed: bool)
      requires Valid()
      modifies this`last, hot, warm, cold, frozen
      ensures Valid()
      ensures Removed(old(Now()), Now(), key, Down(old(Calls())))
      ensures removed <==>
        key in old(hot.entries) || exists t :: t !in Down(old(Calls())) && key in StoreOf(old(Lower()), t)
      ensures KeepsAgreement(cfg, owner, old(Now()), Now(), Down(old(Calls())) == {})
    {
      hide TotalBytes, Keyed, NoSinkClass, Bounded, KeepsAgreement, Removed, StoreOf, Fails, Down;
      ghost var a, calls := Now(), Calls();
      var h := hot.Remove(key);
      var w, c, f := RemoveBelow(key);
      last := last - {key};
      RemovalOutcome(cfg, owner, a, Now(), key, calls, w, c, f);
      return h || Hit(w) || Hit(c) || Hit(f);
    }

    /** Puts back the entries from position `n` on. */
    method RestoreFrom(vs: Victims<V>, n: nat, ghost live: Entries<V>)
      requires Valid() && hot.entries == live - Keys(vs) && Bounded(live, hot.maxEntries, hot.maxBytes)
      requires n <= |vs| && FromHot(live, vs) && forall i, j :: 0 <= i < j < |vs| ==> vs[i].0 != vs[j].0
      modifies hot
      ensures Valid() && hot.entries == live - Keys(vs[..n])
    {
      hide TotalBytes, Keyed, NoSinkClass, Bounded, Keys;
      var i := n;
      BackNone(live, vs, n);
      while i < |vs|
        invariant n <= i <= |vs| && Valid()
        invariant hot.entries == PutBack(live, vs, n, i)
      {
        BackOne(live, vs, n, i);
        BackIsPart(live, vs, n, i + 1, hot.maxEntries, hot.maxBytes);
        hot.Restore(vs[i].0, vs[i].1);
        i := i + 1;
      }
      BackAll(live, vs, n);
    }

    /** `apply_demotions`: demotes in turn; at the first failure that entry and those
        after it go back to Hot. */
    method ApplyDemotions(vs: Victims<V>, ghost live: Entries<V>) returns (ok: bool, ghost done: nat)
      requires Valid() && hot.entries == live - Keys(vs) && Bounded(live, hot.maxEntries, hot.maxBytes)
      requires FromHot(live, vs) && forall i, j :: 0 <= i < j < |vs| ==> vs[i].0 != vs[j].0
      modifies hot, warm, cold, frozen
      ensures Valid()
      ensures done <= |vs| && (ok <==> done == |vs|)
      ensures hot.entries == live - Keys(vs[..done]) && Lower() == AllDemoted(cfg, old(Lower()), vs[..done])
      ensures done == Savable(cfg, old(Calls()), vs)
    {
      hide TotalBytes, Keyed, NoSinkClass, Bounded, Keys, AllDemoted, Savable, PlanAfter, FromHot;
      var n := DemoteVictims(vs);
      RestoreFrom(vs, n, live);
      return n == |vs|, n;
    }

    /** Demotes up to `limit` idle entries. */
    method DemoteIdleAt(now: int, limit: nat) returns (r: Result<nat, MemError>, ghost vs: Victims<V>, ghost done: nat)
      requires Valid()
      modifies hot, warm, cold, frozen
      ensures Valid()
      ensures |vs| <= limit && (|vs| == limit || Keys(vs) == IdlePool(old(hot.entries), now))
      ensures Evicted(cfg, old(Now()), Now(), now, IdlePool(old(hot.entries), now), vs, done)
      ensures r == if done == |vs| then Ok(done) else Err(BackendFailed)
      ensures done == Savable(cfg, old(Calls()), vs)
    {
      hide TotalBytes, Keyed, NoSinkClass, AllDemoted, Greedy, Keys, Savable;
      ghost var live := LivePart(hot.entries, now);
      ghost var pool := IdlePool(hot.entries, now);
      PartIsSmaller(live, hot.entries);
      var victims := hot.ReclaimIdle(now, limit);
      GreedyIsOrdered(live, pool, victims);
      GreedyFromHot(live, live, pool, victims);
      var ok, n := ApplyDemotions(victims, live);
      return if ok then Ok(|victims|) else Err(BackendFailed), victims, n;
    }

    /** `notify_pressure`: flush everything, then demote the first evictable entry;
        if its demotion fails it goes back. */
    method NotifyPressure(now: int)
      returns (r: Result<bool, MemError>, ghost mid: Snap<V>, ghost batch: seq<PersistRecord<V>>, ghost n: nat,
               ghost vs: Victims<V>, ghost done: nat)
      requires Valid()
      modifies hot, warm, cold, frozen, deferred, SinkParts()
      ensures Valid()
      ensures Flushed(old(Now()), mid, now, true, batch, n)
      ensures n < |batch| ==> r == Err(PersistenceFailed) && Now() == mid
      ensures n == |batch| ==> Pressed(cfg, mid, Now(), now, r, vs, done)
      ensures n == |batch| ==> GivesUpOne(old(hot.entries), hot.entries, now, r)
      ensures n == |batch| ==> OnlyUndue(old(deferred.items), deferred.items, now, true)
      ensures KeepsAgreement(cfg, owner, old(Now()), Now(), NoneExpired(old(hot.entries), now))
      ensures n == Accepts(old(SinkCalls()), |batch|) && done == Savable(cfg, old(Calls()), vs)
    {
      hide TotalBytes, Keyed, NoSinkClass, Bounded, Flushed, Pressed, Savable, PlanAfter, Accepts, TiersAgree,
           SinkAgrees, NoneExpired, OnlyUndue, GivesUpOne;
      ghost var a := Now();
      vs, done := [], 0;
      var f;
      f, batch, n := FlushDeferredAt(now, true);
      mid := Now();
      FlushKeepsAgreement(cfg, owner, a, mid, now, true, batch, n);
      if f.Err? {
        return Err(f.error), mid, batch, n, [], 0;
      }
      r, vs, done := ReclaimUnderPressure(now);
      PressKeepsAgreement(cfg, owner, mid, Now(), now, r, vs, done);
      PressureGivesUpOne(cfg, mid, Now(), now, r, vs, done);
    }

    /** The eviction half of `notify_pressure`. */
    method ReclaimUnderPressure(now: int) returns (r: Result<bool, MemError>, ghost vs: Victims<V>, ghost done: nat)
      requires Valid()
      modifies hot, warm, cold, frozen
      ensures Valid()
      ensures Pressed(cfg, old(Now()), Now(), now, r, vs, done)
      ensures done == Savable(cfg, old(Calls()), vs)
    {
      hide TotalBytes, Keyed, NoSinkClass, Greedy, Pressed, LivePart, Bounded, Evictable, Demoted, Savable, PlanAfter,
           Accepts;
      ghost var a := Now();
      ghost var live := LivePart(hot.entries, now);
      LiveIsBounded(hot.entries, now, hot.maxEntries, hot.maxBytes);
      var victim := hot.ReclaimOne(now);
      if victim.None? {
        NothingEvicted(cfg, a, now);
        NoVictimsYet(cfg, live, Lower(), Calls());
        return Ok(false), [], 0;
      }
      var (k, e) := victim.value;
      OneEvicted(cfg, a, now, k, e);
      SavableOne(cfg, Calls(), k, e);
      var ok := DemoteOrRestore(k, e, live);
      return if ok then Ok(true) else Err(BackendFailed), [(k, e)], if ok then 1 else 0;
    }

    method DemoteOrRestore(k: Key, e: HotEntry<V>, ghost live: Entries<V>) returns (ok: bool)
      requires Valid() && hot.entries == live - {k} && hot.entries[k := e] == live
      requires Bounded(live, hot.maxEntries, hot.maxBytes)
      modifies hot, warm, cold, frozen
      ensures Valid()
      ensures hot.entries == if ok then live - {k} else live
      ensures Lower() == if ok then Demoted(cfg, old(Lower()), k, e) else old(Lower())
      ensures ok == CanSave(cfg, old(Calls()), e.class_)
    {
      hide TotalBytes, Keyed, NoSinkClass, Bounded, Demoted, CanSave, AfterSave;
      ok := DemoteOrDrop(k, e);
      if !ok {
        hot.Restore(k, e);
      }
    }

    /** `poll`: flush what is due, and only then demote idle entries, as far as the
        backends allow. */
    method Poll(now: int)
      returns (r: Result<nat, MemError>, ghost mid: Snap<V>, ghost batch: seq<PersistRecord<V>>, ghost n: nat,
               ghost vs: Victims<V>, ghost done: nat)
      requires Valid()
      modifies hot, warm, cold, frozen, deferred, SinkParts()
      ensures Valid()
      ensures Flushed(old(Now()), mid, now, false, batch, n)
      ensures n < |batch| ==> r.Err? && Now() == mid
      ensures n == |batch| ==>
        && r == Ok(n) && |vs| <= 64 && Evicted(cfg, mid, Now(), now, IdlePool(old(hot.entries), now), vs, done)
        && (|vs| == 64 || Keys(vs) == IdlePool(old(hot.entries), now))
        && OnlyUndue(old(deferred.items), deferred.items, now, false)
      ensures KeepsAgreement(cfg, owner, old(Now()), Now(), NoneExpired(old(hot.entries), now))
      ensures n == Accepts(old(SinkCalls()), |batch|) && done == Savable(cfg, old(Calls()), vs)
    {
      hide TotalBytes, Keyed, NoSinkClass, AllDemoted, Greedy, Savable, PlanAfter, Accepts, Flushed, TiersAgree,
           SinkAgrees, NoneExpired, Evicted, OnlyUndue, Keys, IdlePool;
      ghost var a := Now();
      vs, done := [], 0;
      r, batch, n := FlushDeferredAt(now, false);
      mid := Now();
      FlushKeepsAgreement(cfg, owner, a, mid, now, false, batch, n);
      if r.Err? {
        return;
      }
      var ignored;
      ignored, vs, done := DemoteIdleAt(now, 64);
      EvictionKeepsAgreement(cfg, owner, mid, Now(), now, IdlePool(mid.hot, now), vs, done);
    }

    /** `flush`: everything pending, now. */
    method Flush(now: int) returns (r: Result<nat, MemError>, ghost batch: seq<PersistRecord<V>>, ghost n: nat)
      requires Valid()
      modifies deferred, SinkParts()
      ensures Valid()
      ensures Flushed(old(Now()), Now(), now, true, batch, n)
      ensures r.Ok? ==> deferred.items == map[]
      ensures KeepsAgreement(cfg, owner, old(Now()), Now(), true)
      ensures n == Accepts(old(SinkCalls()), |batch|) && (r.Ok? <==> n == |batch|)
    {
      hide Flushed, TiersAgree, SinkAgrees;
      ghost var a := Now();
      r, batch, n := FlushDeferredAt(now, true);
      FlushKeepsAgreement(cfg, owner, a, Now(), now, true, batch, n);
      if r.Ok? {
        ForcedFlushEmpties(a, Now(), now, batch);
      }
    }

    /** The entry a write of `value` makes; its size is that of its JSON text. */
    function EntryFor(value: V, c: ClassPolicy, now: int): HotEntry<V>
    {
      NewEntry(value, c, now, if hot.jsonLen(value).Some? then hot.jsonLen(value).value else 0)
    }
  }

  /** What a visible write leaves for its flush to do. */
  ghost predicate Staged<V>(cfg: Cfg, maxPending: nat, a: Snap<V>, b: Snap<V>, c: ClassPolicy, key: Key, value: V,
                            now: int, ok: bool, force: bool, mirrored: bool)
  {
    if !ok then b == a && !mirrored && c.policy == Cache && TierOf(cfg, c.name) == Some(ToWarm)
    else
      var s := Mirrored(cfg, a, c, key, value, mirrored);
      if c.policy == Durability.Deferred then
        b == Enqueued(s, Item(RecordOf(key, value, c), now, c.flush)) && force == (|b.items| >= maxPending)
      else b == s && !force
  }

  lemma StagedThenStopped<V>(cfg: Cfg, maxPending: nat, a: Snap<V>, b: Snap<V>, c: ClassPolicy, key: Key, value: V,
                             now: int, force: bool, mirrored: bool)
    requires Staged(cfg, maxPending, a, b, c, key, value, now, false, force, mirrored)
    ensures Followed(cfg, maxPending, a, b, c, key, value, now, mirrored, [], 0)
  {
    hide Flushed, TierOf;
  }

  lemma StagedThenFlushed<V>(cfg: Cfg, maxPending: nat, a: Snap<V>, m: Snap<V>, b: Snap<V>, c: ClassPolicy, key: Key,
                             value: V, now: int, force: bool, mirrored: bool, batch: seq<PersistRecord<V>>, n: nat)
    requires Staged(cfg, maxPending, a, m, c, key, value, now, true, force, mirrored) && !IsDurable(c)
    requires Flushed(m, b, now, force, batch, n)
    ensures Followed(cfg, maxPending, a, b, c, key, value, now, mirrored, batch, n)
  {
    hide Flushed, Mirrored, TierOf;
  }

  lemma QueueWithout<V>(items: Items<V>, now: int, force: bool, batch: seq<PersistRecord<V>>)
    requires Keyed(items) && Lists(items, ReadyKeys(items, now, force), batch)
    ensures Keyed(items - ReadyKeys(items, now, force))
    ensures items == map[] ==> batch == []
    ensures batch == [] ==> ReadyKeys(items, now, force) == {}
  {
    ListedIffAny(items, ReadyKeys(items, now, force), batch);
  }

  lemma NothingToFlush<V>(a: Snap<V>, now: int, force: bool)
    requires ReadyKeys(a.items, now, force) == {}
    ensures Flushed(a, a, now, force, [], 0)
  {
    assert a.items - {} == a.items;
    assert a.log + [] == a.log;
  }

  lemma {:induction false} KeyedRequeue<V>(items: Items<V>, records: seq<PersistRecord<V>>, now: int)
    requires Keyed(items)
    ensures Keyed(Requeued(items, records, now))
    decreases |records|
  {
    if records != [] {
      KeyedRequeue(items[records[0].key := Item(records[0], now, 0)], records[1..], now);
    }
  }

  lemma AllFlushed<V>(items: Items<V>, batch: seq<PersistRecord<V>>, now: int)
    ensures Requeued(items, batch[|batch|..], now) == items
  {
    assert batch[|batch|..] == [];
  }

  lemma UpsertKeepsAgreement<V>(cfg: Cfg, owner: Key -> ClassName, maxEntries: nat, maxBytes: nat, maxPending: nat,
                                a: Snap<V>, b: Snap<V>, c: ClassPolicy, key: Key, entry: HotEntry<V>, now: int,
                                ok: bool, committed: bool, vs: Victims<V>, done: nat, mirrored: bool,
                                batch: seq<PersistRecord<V>>, n: nat)
    requires ClassIs(cfg, c) && entry.class_ == c.name && maxPending >= 1
    requires Upserted(cfg, maxEntries, maxBytes, maxPending, a, b, c, key, entry, now, ok, committed, vs, done,
                      mirrored, batch, n)
    ensures owner(key) == c.name ==> KeepsAgreement(cfg, owner, a, b, NoneExpired(a.hot, now))
    ensures ok && IsDeferred(c) ==> |b.items| < maxPending
  {
    hide FromHot, Written, Refused, TiersAgree, SinkAgrees, NoneExpired, RightVictims;
    if owner(key) == c.name {
      if committed {
        WriteKeepsTiers(cfg, owner, maxPending, a, b, c, key, entry, now, vs, mirrored, batch, n);
        if SinkAgrees(cfg, owner, a) {
          WriteKeepsSink(cfg, owner, maxPending, a, b, c, key, entry, now, vs, mirrored, batch, n);
        }
      } else {
        RefusalKeepsAgreement(cfg, owner, a, b, vs, done);
      }
    }
    if ok && IsDeferred(c) {
      DeferredWriteLeavesRoom(cfg, maxPending, a, b, c, key, entry, now, vs, mirrored, batch);
    }
  }

  lemma NothingChanges<V>(cfg: Cfg, owner: Key -> ClassName, a: Snap<V>, calm: bool)
    ensures KeepsAgreement(cfg, owner, a, a, calm)
  {
  }

  /** The archive copy after a write that was not mirrored: done, or failed without effect. */
  lemma ArchiveIsUpserted<V>(cfg: Cfg, maxEntries: nat, maxBytes: nat, maxPending: nat, a: Snap<V>, m: Snap<V>,
                             b: Snap<V>, c: ClassPolicy, key: Key, entry: HotEntry<V>, now: int, vs: Victims<V>,
                             done: nat, batch: seq<PersistRecord<V>>, n: nat, ok: bool)
    requires TierOf(cfg, c.name) == Some(ToFrozen)
    requires Upserted(cfg, maxEntries, maxBytes, maxPending, a, m, c, key, entry, now, true, true, vs, done, false,
                      batch, n)
    requires b == if ok then m.(low := PutIn(cfg, m.low, ToFrozen, key, LowEntry(c.name, entry.value))) else m
    ensures Upserted(cfg, maxEntries, maxBytes, maxPending, a, b, c, key, entry, now, ok, true, vs, done, ok, batch, n)
  {
    hide Written, RightVictims, FromHot, PutIn;
    if ok {
      ArchiveIsWritten(cfg, maxPending, a, m, c, key, entry, now, vs, batch, n);
    }
  }

  lemma TouchedIsCalm<V>(hot: Entries<V>, key: Key, now: int)
    requires key !in LivePart(hot, now)
    ensures key !in Touched(hot, key, now)
    ensures NoneExpired(Touched(hot, key, now), now)
  {
  }

  predicate Hit(r: Result<bool, ()>)
  {
    r.Ok? && r.value
  }

  ghost function FailedIn(w: Result<bool, ()>, c: Result<bool, ()>, f: Result<bool, ()>): set<Tier>
  {
    (if w.Err? then {ToWarm} else {}) + (if c.Err? then {ToCold} else {}) + (if f.Err? then {ToFrozen} else {})
  }

  lemma FailedAreDown(p: Plan, w: Result<bool, ()>, c: Result<bool, ()>, f: Result<bool, ()>)
    requires w.Err? == Fails(p, ToWarm) && c.Err? == Fails(p, ToCold) && f.Err? == Fails(p, ToFrozen)
    ensures FailedIn(w, c, f) == Down(p)
  {
  }

  lemma RemovalOutcome<V>(cfg: Cfg, owner: Key -> ClassName, a: Snap<V>, b: Snap<V>, key: Key, p: Plan,
                          w: Result<bool, ()>, c: Result<bool, ()>, f: Result<bool, ()>)
    requires b == a.(hot := a.hot - {key}, low := b.low, last := a.last - {key})
    requires w.Err? == Fails(p, ToWarm) && (w.Ok? ==> w.value == (key in a.low.warm))
    requires c.Err? == Fails(p, ToCold) && (c.Ok? ==> c.value == (key in a.low.cold))
    requires f.Err? == Fails(p, ToFrozen) && (f.Ok? ==> f.value == (key in a.low.frozen))
    requires b.low.warm == if w.Err? then a.low.warm else a.low.warm - {key}
    requires b.low.cold == if c.Err? then a.low.cold else a.low.cold - {key}
    requires b.low.frozen == if f.Err? then a.low.frozen else a.low.frozen - {key}
    ensures Removed(a, b, key, Down(p))
    ensures KeepsAgreement(cfg, owner, a, b, Down(p) == {})
    ensures Hit(w) || Hit(c) || Hit(f) <==> exists t :: t !in Down(p) && key in StoreOf(a.low, t)
  {
    FailedAreDown(p, w, c, f);
    hide Down, Fails;
    var failed := FailedIn(w, c, f);
    assert Removed(a, b, key, failed);
    RemovalKeepsAgreement(cfg, owner, a, b, key, failed);
    hide KeepsAgreement, Removed;
    HitIffThere(a.low, key, failed, w, c, f);
  }

  lemma HitIffThere<V>(low: TierState<V>, key: Key, failed: set<Tier>,
                       w: Result<bool, ()>, c: Result<bool, ()>, f: Result<bool, ()>)
    requires failed == FailedIn(w, c, f)
    requires w.Ok? ==> w.value == (key in low.warm)
    requires c.Ok? ==> c.value == (key in low.cold)
    requires f.Ok? ==> f.value == (key in low.frozen)
    ensures Hit(w) || Hit(c) || Hit(f) <==> exists t :: t !in failed && key in StoreOf(low, t)
  {
    if Hit(w) { assert ToWarm !in failed && key in StoreOf(low, ToWarm); }
    if Hit(c) { assert ToCold !in failed && key in StoreOf(low, ToCold); }
    if Hit(f) { assert ToFrozen !in failed && key in StoreOf(low, ToFrozen); }
  }

  /** Hot while `vs[n..i]` have been put back and `vs[..n]` are gone for good. */
  ghost function PutBack<V>(live: Entries<V>, vs: Victims<V>, n: nat, i: nat): Entries<V>
    requires n <= i <= |vs|
  {
    live - (Keys(vs[..n]) + Keys(vs[i..]))
  }

  lemma BackNone<V>(live: Entries<V>, vs: Victims<V>, n: nat)
    requires n <= |vs|
    ensures PutBack(live, vs, n, n) == live - Keys(vs)
  {
    KeysOfConcat(vs[..n], vs[n..]);
    assert vs[..n] + vs[n..] == vs;
  }

  lemma BackAll<V>(live: Entries<V>, vs: Victims<V>, n: nat)
    requires n <= |vs|
    ensures PutBack(live, vs, n, |vs|) == live - Keys(vs[..n])
  {
    assert Keys(vs[|vs|..]) == {};
  }

  lemma KeysOfConcat<V>(a: Victims<V>, b: Victims<V>)
    ensures Keys(a + b) == Keys(a) + Keys(b)
  {
    forall k | k in Keys(b)
      ensures k in Keys(a + b)
    {
      var i :| 0 <= i < |b| && b[i].0 == k;
      assert (a + b)[|a| + i].0 == k;
    }
    forall k | k in Keys(a)
      ensures k in Keys(a + b)
    {
      var i :| 0 <= i < |a| && a[i].0 == k;
      assert (a + b)[i].0 == k;
    }
  }

  lemma BackOne<V>(live: Entries<V>, vs: Victims<V>, n: nat, i: nat)
    requires n <= i < |vs| && FromHot(live, vs)
    requires forall x, y :: 0 <= x < y < |vs| ==> vs[x].0 != vs[y].0
    ensures PutBack(live, vs, n, i + 1) == PutBack(live, vs, n, i)[vs[i].0 := vs[i].1]
  {
    assert vs[i..] == [vs[i]] + vs[i + 1..];
    KeysOfConcat([vs[i]], vs[i + 1..]);
    assert Keys([vs[i]]) == {vs[i].0} by { KeysSnoc([], vs[i]); assert [] + [vs[i]] == [vs[i]]; }
    assert vs[i].0 !in Keys(vs[..n]);
    assert vs[i].0 !in Keys(vs[i + 1..]);
  }

  lemma BackIsPart<V>(live: Entries<V>, vs: Victims<V>, n: nat, i: nat, maxEntries: nat, maxBytes: nat)
    requires n <= i <= |vs| && Bounded(live, maxEntries, maxBytes)
    ensures Bounded(PutBack(live, vs, n, i), maxEntries, maxBytes)
  {
    hide Keys;
    PartIsSmaller(PutBack(live, vs, n, i), live);
  }

  lemma NothingEvicted<V>(cfg: Cfg, a: Snap<V>, now: int)
    requires Evictable(LivePart(a.hot, now)) == {}
    ensures Pressed(cfg, a, a.(hot := LivePart(a.hot, now)), now, Ok(false), [], 0)
  {
    assert LivePart(a.hot, now) - {} == LivePart(a.hot, now);
    assert Keys<V>([]) == {};
  }

  lemma PressKeepsAgreement<V>(cfg: Cfg, owner: Key -> ClassName, a: Snap<V>, b: Snap<V>, now: int,
                               r: Result<bool, MemError>, vs: Victims<V>, done: nat)
    requires Pressed(cfg, a, b, now, r, vs, done)
    ensures KeepsAgreement(cfg, owner, a, b, NoneExpired(a.hot, now))
  {
    hide Evicted, KeepsAgreement;
    EvictionKeepsAgreement(cfg, owner, a, b, now, Evictable(LivePart(a.hot, now)), vs, done);
  }

  /** Under pressure Hot gives up one live entry that is not critical, if there is one, and
      says so; an entry that could not be saved stays. */
  ghost predicate GivesUpOne<V>(before: Entries<V>, after: Entries<V>, now: int, r: Result<bool, MemError>)
  {
    && (r == Ok(false) <==>
         forall k :: k in before && before[k].priority != Critical ==>
           before[k].expiresAt.Some? && before[k].expiresAt.value <= now)
    && (r == Ok(true) ==>
         exists k ::
           && k in before && before[k].priority != Critical
           && (before[k].expiresAt.Some? ==> now < before[k].expiresAt.value)
           && after == LivePart(before, now) - {k})
    && (r != Ok(true) ==> after == LivePart(before, now))
  }

  lemma PressureGivesUpOne<V>(cfg: Cfg, a: Snap<V>, b: Snap<V>, now: int, r: Result<bool, MemError>, vs: Victims<V>,
                              done: nat)
    requires Pressed(cfg, a, b, now, r, vs, done)
    ensures GivesUpOne(a.hot, b.hot, now, r)
  {
    var live := LivePart(a.hot, now);
    hide AllDemoted, Precedes;
    if vs == [] {
      assert Keys(vs[..done]) == {} && live - {} == live;
      forall k | k in a.hot && a.hot[k].priority != Critical
        ensures a.hot[k].expiresAt.Some? && a.hot[k].expiresAt.value <= now
      {
        assert k !in Evictable(live);
      }
    } else {
      assert vs[0].0 in Evictable(live);
      if done == 1 {
        assert Keys(vs[..1]) == {vs[0].0} by {
          assert vs[..1] == [] + [vs[0]];
          KeysSnoc([], vs[0]);
        }
      } else {
        assert Keys(vs[..done]) == {} && live - {} == live;
      }
    }
  }

  lemma LiveIsBounded<V>(hot: Entries<V>, now: int, maxEntries: nat, maxBytes: nat)
    requires Bounded(hot, maxEntries, maxBytes)
    ensures Bounded(LivePart(hot, now), maxEntries, maxBytes)
  {
    PartIsSmaller(LivePart(hot, now), hot);
  }

  lemma OneEvicted<V>(cfg: Cfg, a: Snap<V>, now: int, k: Key, e: HotEntry<V>)
    requires Greedy(LivePart(a.hot, now), Evictable(LivePart(a.hot, now)), [(k, e)])
    ensures var live := LivePart(a.hot, now);
      && k in live && live[k] == e && Evictable(live) != {}
      && (live - {k})[k := e] == live
      && Pressed(cfg, a, a.(hot := live), now, Err(BackendFailed), [(k, e)], 0)
      && Pressed(cfg, a, a.(hot := live - {k}, low := Demoted(cfg, a.low, k, e)), now, Ok(true), [(k, e)], 1)
  {
    var live := LivePart(a.hot, now);
    var vs := [(k, e)];
    assert vs[0].0 in Evictable(live);
    OneVictim(cfg, live, a.low, k, e);
    hide Greedy, LivePart, Evictable, Keys, AllDemoted, Demoted;
  }

  lemma OneVictim<V>(cfg: Cfg, live: Entries<V>, low: TierState<V>, k: Key, e: HotEntry<V>)
    requires k in live && live[k] == e
    ensures var vs := [(k, e)];
      && (live - {k})[k := e] == live
      && live - Keys(vs[..0]) == live && live - Keys(vs[..1]) == live - {k}
      && AllDemoted(cfg, low, vs[..0]) == low && AllDemoted(cfg, low, vs[..1]) == Demoted(cfg, low, k, e)
  {
    var vs := [(k, e)];
    assert vs[..1] == vs && vs[..0] == [];
    assert Keys(vs) == {k} by { KeysSnoc([], (k, e)); assert [] + vs == vs; }
    hide Demoted;
  }

  /** An attempt to write to Hot, on snapshots. */
  lemma OpenHotWrite<V>(cfg: Cfg, a: Snap<V>, b: Snap<V>, maxEntries: nat, maxBytes: nat, key: Key, entry: HotEntry<V>,
                        now: int, ok: bool, vs: Victims<V>, done: nat)
    requires HotWrite(cfg, maxEntries, maxBytes, a.hot, a.low, b.hot, b.low, key, entry, now, ok, vs, done)
    requires b == a.(hot := b.hot, low := b.low)
    ensures FromHot(a.hot, vs)
    ensures !ok ==> Refused(cfg, a, b, vs, done)
    ensures ok ==>
      && RightVictims(a.hot, maxEntries, maxBytes, key, Weight(key, entry), now, vs)
      && b.(last := b.last[key := entry.value]) == Visible(cfg, a, key, entry, now, vs)
  {
    if ok {
      AllVictims(cfg, a.low, vs);
    }
    hide AllDemoted, Committed, RightVictims;
  }

  lemma RefusedAfter<V>(cfg: Cfg, a: Snap<V>, b: Snap<V>, vs: Victims<V>, n: nat)
    requires FromHot(a.hot, vs) && n <= |vs| && b == a.(low := AllDemoted(cfg, a.low, vs[..n]))
    ensures Refused(cfg, a, b, vs, n)
  {
  }

  lemma DurableVisible<V>(cfg: Cfg, a: Snap<V>, b: Snap<V>, key: Key, entry: HotEntry<V>, now: int, vs: Victims<V>,
                          r: PersistRecord<V>)
    requires b == Snap(Committed(a.hot, key, entry, now, vs), AllDemoted(cfg, a.low, vs[..|vs|]), a.items, a.log + [r],
                       a.last[key := entry.value], a.enqueued)
    ensures b == Visible(cfg, a, key, entry, now, vs).(log := a.log + [r])
  {
    AllVictims(cfg, a.low, vs);
    hide AllDemoted, Committed;
  }

  lemma KeyedEnqueue<V>(items: Items<V>, item: Item<V>)
    requires Keyed(items)
    ensures Keyed(items[item.record.key := item])
  {
  }

  lemma SinkExists(cfg: Cfg, c: ClassPolicy, present: bool)
    requires ClassIs(cfg, c) && IsDeferred(c) && (!present ==> NoSinkClass(cfg))
    ensures present
  {
  }

  lemma AcceptsStep(faults: seq<bool>, n: nat)
    ensures n > 0 && FailsNext(faults) ==> Accepts(faults, n) == 0 && AfterCalls(faults, n) == Later(faults)
    ensures n > 0 && !FailsNext(faults) ==>
      && Accepts(faults, n) == 1 + Accepts(Later(faults), n - 1)
      && AfterCalls(faults, n) == AfterCalls(Later(faults), n - 1)
    ensures Accepts(faults, 0) == 0 && AfterCalls(faults, 0) == faults
  {
  }

  lemma SavableOne<V>(cfg: Cfg, p: Plan, k: Key, e: HotEntry<V>)
    ensures Savable(cfg, p, [(k, e)]) == if CanSave(cfg, p, e.class_) then 1 else 0
    ensures Savable<V>(cfg, p, []) == 0
  {
  }

  lemma OtherTiersStay(p: Plan, t: Tier)
    ensures forall u: Tier :: u != t ==> (Fails(Spent(p, t), u) <==> Fails(p, u))
  {
  }

  lemma NoVictimsYet<V>(cfg: Cfg, hot: Entries<V>, low: TierState<V>, p: Plan)
    ensures FromHot<V>(hot, []) && AllDemoted(cfg, low, [][..0]) == low
    ensures Savable<V>(cfg, p, []) == 0 && PlanAfter<V>(cfg, p, []) == p
  {
  }

  lemma RightIsGreedy<V>(m: Entries<V>, maxEntries: nat, maxBytes: nat, key: Key, incoming: nat, now: int,
                         vs: Victims<V>)
    requires RightVictims(m, maxEntries, maxBytes, key, incoming, now, vs)
    ensures Greedy(LiveOthers(m, key, now), Evictable(LiveOthers(m, key, now)), vs)
    ensures Enough(m, maxEntries, maxBytes, key, incoming, now, vs)
  {
  }

  lemma PreparedFromHot<V>(m: Entries<V>, maxEntries: nat, maxBytes: nat, key: Key, incoming: nat, now: int,
                           vs: Victims<V>)
    requires RightVictims(m, maxEntries, maxBytes, key, incoming, now, vs)
    ensures FromHot(m, vs)
    ensures Greedy(LiveOthers(m, key, now), Evictable(LiveOthers(m, key, now)), vs)
    ensures Enough(m, maxEntries, maxBytes, key, incoming, now, vs)
  {
  }
}
