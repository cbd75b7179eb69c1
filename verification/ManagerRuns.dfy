/** The memory manager as a state machine: what holds after every run of writes,
    reads, flushes, evictions and removals, with failures at any point. ManagerTrace
    shows that every method of the manager performs a run of these steps. */
module ManagerRuns {
  import opened Prelude
  import opened Policy
  import opened HotSpec
  import opened HotTier
  import opened Tiers
  import opened Deferred
  import opened Coherence
  import opened ManagerSteps

  datatype Env = Env(cfg: Cfg, owner: Key -> ClassName, maxEntries: nat, maxBytes: nat, maxPending: nat)

  datatype Event<V> =
    | RefusedWrite(victims: Victims<V>, done: nat)
    | Write(c: ClassPolicy, key: Key, entry: HotEntry<V>, victims: Victims<V>, mirrored: bool,
            batch: seq<PersistRecord<V>>, n: nat)
    | Flush(force: bool, batch: seq<PersistRecord<V>>, n: nat)
    | Touch(key: Key)
    | Below(key: Key, v: Option<V>, calls: Plan, p: Promotion<V>)
    | Evict(pool: set<Key>, victims: Victims<V>, done: nat)
    | Remove(key: Key, calls: Plan)

  ghost predicate Step<V>(env: Env, a: Snap<V>, e: Event<V>, now: int, b: Snap<V>)
  {
    match e
    case RefusedWrite(vs, done) => Refused(env.cfg, a, b, vs, done)
    case Write(c, key, entry, vs, mirrored, batch, n) =>
      && ClassIs(env.cfg, c) && env.owner(key) == c.name == entry.class_
      && FromHot(a.hot, vs)
      && RightVictims(a.hot, env.maxEntries, env.maxBytes, key, Weight(key, entry), now, vs)
      && Written(env.cfg, env.maxPending, a, b, c, key, entry, now, vs, mirrored, batch, n)
    case Flush(force, batch, n) => Flushed(a, b, now, force, batch, n)
    case Touch(key) => b == a.(hot := Touched(a.hot, key, now))
    case Below(key, v, calls, p) =>
      key !in a.hot && ReadBelow(env.cfg, env.maxEntries, env.maxBytes, a, b, key, now, v, Down(calls), p)
    case Evict(pool, vs, done) => Evicted(env.cfg, a, b, now, pool, vs, done)
    case Remove(key, calls) => Removed(a, b, key, Down(calls))
  }

  datatype Timed<V> = Timed(event: Event<V>, now: int)

  /** `states` is a run of `events`. */
  ghost predicate Run<V>(env: Env, states: seq<Snap<V>>, events: seq<Timed<V>>)
  {
    && |states| == |events| + 1
    && forall i :: 0 <= i < |events| ==> Step(env, states[i], events[i].event, events[i].now, states[i + 1])
  }

  /** No deadline passes during the run, and removals reach every tier. */
  ghost predicate Calm<V>(states: seq<Snap<V>>, events: seq<Timed<V>>)
    requires |states| == |events| + 1
  {
    forall i :: 0 <= i < |events| ==>
      && NoneExpired(states[i].hot, events[i].now)
      && (events[i].event.Remove? ==> Down(events[i].event.calls) == {})
  }

  /** The value of the last visible write of `key` that no removal followed. */
  ghost function LastWrite<V>(start: map<Key, V>, events: seq<Timed<V>>): map<Key, V>
  {
    if events == [] then start else
    var before := LastWrite(start, events[..|events| - 1]);
    match events[|events| - 1].event
    case Write(_, key, entry, _, _, _, _) => before[key := entry.value]
    case Remove(key, _) => before - {key}
    case _ => before
  }

  lemma StepKeepsAgreement<V>(env: Env, a: Snap<V>, e: Event<V>, now: int, b: Snap<V>)
    requires Step(env, a, e, now, b)
    ensures KeepsAgreement(env.cfg, env.owner, a, b, NoneExpired(a.hot, now) && (e.Remove? ==> Down(e.calls) == {}))
    ensures b.last == match e
      case Write(_, key, entry, _, _, _, _) => a.last[key := entry.value]
      case Remove(key, _) => a.last - {key}
      case _ => a.last
  {
    var cfg, owner := env.cfg, env.owner;
    hide TiersAgree, SinkAgrees, NoneExpired, RightVictims, Touched;
    match e {
      case RefusedWrite(vs, done) => RefusalKeepsAgreement(cfg, owner, a, b, vs, done);
      case Write(c, key, entry, vs, mirrored, batch, n) =>
        hide Written;
        WriteKeepsTiers(cfg, owner, env.maxPending, a, b, c, key, entry, now, vs, mirrored, batch, n);
        if SinkAgrees(cfg, owner, a) {
          WriteKeepsSink(cfg, owner, env.maxPending, a, b, c, key, entry, now, vs, mirrored, batch, n);
        }
      case Flush(force, batch, n) => FlushKeepsAgreement(cfg, owner, a, b, now, force, batch, n);
      case Touch(key) => TouchKeepsAgreement(cfg, owner, a, key, now);
      case Below(key, v, calls, p) =>
        ReadBelowKeepsAgreement(cfg, owner, env.maxEntries, env.maxBytes, a, b, key, now, v, Down(calls), p);
      case Evict(pool, vs, done) => EvictionKeepsAgreement(cfg, owner, a, b, now, pool, vs, done);
      case Remove(key, calls) => RemovalKeepsAgreement(cfg, owner, a, b, key, Down(calls));
    }
  }

  /** Over every run: no deferred write is lost or overtaken, and what Hot shows of
      a persisted class is what the sink accepted last. This needs no calm. */
  lemma {:induction false} RunKeepsSink<V>(env: Env, states: seq<Snap<V>>, events: seq<Timed<V>>)
    requires Run(env, states, events) && SinkAgrees(env.cfg, env.owner, states[0])
    ensures SinkAgrees(env.cfg, env.owner, states[|events|])
    ensures forall k :: SinkShows(env.cfg, env.owner(k), states[|events|], k)
    decreases |events|
  {
    hide SinkAgrees, SinkShows, Step, TiersAgree, NoneExpired;
    if events != [] {
      var n := |events| - 1;
      RunKeepsSink(env, states[..n + 1], events[..n]);
      StepKeepsAgreement(env, states[n], events[n].event, events[n].now, states[n + 1]);
    }
    forall k
      ensures SinkShows(env.cfg, env.owner(k), states[|events|], k)
    {
      SinkAgreementShows(env.cfg, env.owner, states[|events|], k);
    }
  }

  /** Over every calm run: the tiers agree, and the last value of each key is that
      of its last visible write. */
  lemma {:induction false} RunKeepsTiers<V>(env: Env, states: seq<Snap<V>>, events: seq<Timed<V>>)
    requires Run(env, states, events) && Calm(states, events) && TiersAgree(env.cfg, env.owner, states[0])
    ensures TiersAgree(env.cfg, env.owner, states[|events|])
    ensures forall k :: KeyShows(env.cfg, env.owner(k), states[|events|], k)
    ensures states[|events|].last == LastWrite(states[0].last, events)
    decreases |events|
  {
    hide SinkAgrees, KeyShows, Step, TiersAgree, NoneExpired;
    if events != [] {
      var n := |events| - 1;
      RunKeepsTiers(env, states[..n + 1], events[..n]);
      StepKeepsAgreement(env, states[n], events[n].event, events[n].now, states[n + 1]);
    }
    forall k
      ensures KeyShows(env.cfg, env.owner(k), states[|events|], k)
    {
      AgreementShows(env.cfg, env.owner, states[|events|], k);
    }
  }

  /** Multi-tier read coherence: after any calm run, a read of a key whose class has
      a tier to go to answers with the last visible write of the key, or with
      nothing; and with nothing exactly if there is none, or Hot has no copy and the
      next call to the tier of the key fails. */
  lemma ReadAfterRun<V>(env: Env, states: seq<Snap<V>>, events: seq<Timed<V>>, t: Tier, key: Key, now: int,
                        b: Snap<V>, v: Option<V>, calls: Plan, p: Promotion<V>)
    requires Run(env, states, events) && Calm(states, events) && TiersAgree(env.cfg, env.owner, states[0])
    requires KeptIn(env.cfg, env.owner(key), t)
    requires var a := states[|events|];
      && NoneExpired(a.hot, now)
      && (key in a.hot ==> v == Some(a.hot[key].value))
      && (key !in a.hot ==> ReadBelow(env.cfg, env.maxEntries, env.maxBytes, a, b, key, now, v, Down(calls), p))
    ensures var last := LastWrite(states[0].last, events);
      && (v.Some? ==> key in last && v.value == last[key])
      && (v.None? <==>
           || key !in last
           || (key !in states[|events|].hot && Fails(calls, t)))
  {
    hide KeptIn, Step, TiersAgree, ReadBelow, Calm;
    RunKeepsTiers(env, states, events);
    hide Run;
    var a := states[|events|];
    NothingExpires(a.hot, now);
    ReadIsLast(env.cfg, env.owner, env.maxEntries, env.maxBytes, a, a, b, t, key, now, v, Down(calls), p);
  }

  lemma HotWriteKeepsBounds<V>(cfg: Cfg, maxEntries: nat, maxBytes: nat, hot: Entries<V>, low: TierState<V>,
                               hot': Entries<V>, low': TierState<V>, key: Key, entry: HotEntry<V>, now: int, ok: bool,
                               vs: Victims<V>, done: nat)
    requires maxEntries >= 1 && Bounded(hot, maxEntries, maxBytes)
    requires HotWrite(cfg, maxEntries, maxBytes, hot, low, hot', low', key, entry, now, ok, vs, done)
    ensures Bounded(hot', maxEntries, maxBytes)
  {
    hide Greedy, Enough, Minimal, LiveOthers, Committed, AllDemoted, TotalBytes;
    if ok {
      CommitKeepsBounds(hot, maxEntries, maxBytes, key, entry, now, vs);
    }
  }

  lemma PartKeepsBounds<V>(part: Entries<V>, whole: Entries<V>, maxEntries: nat, maxBytes: nat)
    requires Bounded(whole, maxEntries, maxBytes)
    requires forall k :: k in part ==> k in whole && part[k] == whole[k]
    ensures Bounded(part, maxEntries, maxBytes)
  {
    PartIsSmaller(part, whole);
  }

  lemma TouchKeepsBounds<V>(hot: Entries<V>, key: Key, now: int, maxEntries: nat, maxBytes: nat)
    requires Bounded(hot, maxEntries, maxBytes)
    ensures Bounded(Touched(hot, key, now), maxEntries, maxBytes)
  {
    hide TotalBytes;
    var live := LivePart(hot, now);
    PartIsSmaller(live, hot);
    if key in live {
      TouchKeepsBytes(live, key, Touched(hot, key, now)[key]);
    }
  }

  lemma WriteKeepsBounds<V>(env: Env, a: Snap<V>, b: Snap<V>, c: ClassPolicy, key: Key, entry: HotEntry<V>, now: int,
                            vs: Victims<V>, mirrored: bool, batch: seq<PersistRecord<V>>, n: nat)
    requires env.maxEntries >= 1 && Bounded(a.hot, env.maxEntries, env.maxBytes)
    requires RightVictims(a.hot, env.maxEntries, env.maxBytes, key, Weight(key, entry), now, vs)
    requires Written(env.cfg, env.maxPending, a, b, c, key, entry, now, vs, mirrored, batch, n)
    ensures Bounded(b.hot, env.maxEntries, env.maxBytes)
  {
    WrittenShows(env.cfg, env.maxPending, a, b, c, key, entry, now, vs, mirrored, batch, n);
    hide TotalBytes, Greedy, Enough, Minimal, LiveOthers, AllDemoted, FromHot, Keys, Committed, Followed, Bounded,
         Written;
    CommitKeepsBounds(a.hot, env.maxEntries, env.maxBytes, key, entry, now, vs);
  }

  lemma StepKeepsBounds<V>(env: Env, a: Snap<V>, e: Event<V>, now: int, b: Snap<V>)
    requires env.maxEntries >= 1
    requires Step(env, a, e, now, b) && Bounded(a.hot, env.maxEntries, env.maxBytes)
    ensures Bounded(b.hot, env.maxEntries, env.maxBytes)
  {
    hide TotalBytes, Greedy, RightVictims, LiveOthers, AllDemoted, FromHot, Keys, Committed, Written, Bounded, Touched,
         HotWrite;
    match e {
      case RefusedWrite(vs, done) =>
      case Write(c, key, entry, vs, mirrored, batch, n) =>
        WriteKeepsBounds(env, a, b, c, key, entry, now, vs, mirrored, batch, n);
      case Flush(force, batch, n) =>
      case Touch(key) => TouchKeepsBounds(a.hot, key, now, env.maxEntries, env.maxBytes);
      case Below(key, v, calls, p) =>
        if v.Some? && p.Promotion? && StoreOf(a.low, p.tier)[key].class_ in env.cfg.classes {
          HotWriteKeepsBounds(env.cfg, env.maxEntries, env.maxBytes, a.hot, a.low, b.hot, b.low, key, p.entry, now,
                              p.ok, p.victims, p.done);
        }
      case Evict(pool, vs, done) => PartKeepsBounds(b.hot, a.hot, env.maxEntries, env.maxBytes);
      case Remove(key, calls) => PartKeepsBounds(b.hot, a.hot, env.maxEntries, env.maxBytes);
    }
  }

  /** Hot keeps both its bounds over every run, with timestamps in any order. */
  lemma {:induction false} RunKeepsBounds<V>(env: Env, states: seq<Snap<V>>, events: seq<Timed<V>>)
    requires env.maxEntries >= 1 && Run(env, states, events) && Bounded(states[0].hot, env.maxEntries, env.maxBytes)
    ensures Bounded(states[|events|].hot, env.maxEntries, env.maxBytes)
    decreases |events|
  {
    hide Step, Bounded;
    if events != [] {
      var n := |events| - 1;
      RunKeepsBounds(env, states[..n + 1], events[..n]);
      StepKeepsBounds(env, states[n], events[n].event, events[n].now, states[n + 1]);
    }
  }
}
