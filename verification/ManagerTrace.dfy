/** Every call of the memory manager is a run of ManagerRuns: what its contract
    says of the states before and after it is a sequence of steps, and runs join. So
    what holds over every run holds over every sequence of calls. */
module ManagerTrace {
  import opened Prelude
  import opened Policy
  import opened HotSpec
  import opened HotTier
  import opened Tiers
  import opened Deferred
  import opened Coherence
  import opened ManagerSteps
  import opened ManagerRuns
  import opened Manager

  ghost function EnvOf<V>(m: MemoryManager<V>): Env
  {
    Env(m.cfg, m.owner, m.hot.maxEntries, m.hot.maxBytes, m.deferred.maxPending)
  }

  lemma OneStep<V>(env: Env, a: Snap<V>, e: Event<V>, now: int, b: Snap<V>)
    requires Step(env, a, e, now, b)
    ensures Run(env, [a, b], [Timed(e, now)])
  {
    hide Step;
  }

  lemma TwoSteps<V>(env: Env, a: Snap<V>, e: Event<V>, b: Snap<V>, f: Event<V>, now: int, c: Snap<V>)
    requires Step(env, a, e, now, b) && Step(env, b, f, now, c)
    ensures Run(env, [a, b, c], [Timed(e, now), Timed(f, now)])
  {
    hide Step;
  }

  /** Two runs that meet are one run; it is calm if both are, and the last writes of
      the second are counted from those of the first. */
  lemma {:induction false} RunsJoin<V>(env: Env, xs: seq<Snap<V>>, es: seq<Timed<V>>, ys: seq<Snap<V>>,
                                       fs: seq<Timed<V>>)
    requires Run(env, xs, es) && Run(env, ys, fs) && xs[|es|] == ys[0]
    ensures Run(env, xs + ys[1..], es + fs) && (xs + ys[1..])[|es + fs|] == ys[|fs|]
    ensures Calm(xs + ys[1..], es + fs) <==> Calm(xs, es) && Calm(ys, fs)
    ensures forall start :: LastWrite(start, es + fs) == LastWrite(LastWrite(start, es), fs)
  {
    hide Step, NoneExpired, Down;
    var zs, gs := xs + ys[1..], es + fs;
    assert forall i :: 0 <= i <= |es| ==> zs[i] == xs[i];
    assert forall j :: 0 <= j <= |fs| ==> zs[|es| + j] == ys[j];
    assert forall i :: 0 <= i < |es| ==> gs[i] == es[i];
    assert forall j :: 0 <= j < |fs| ==> gs[|es| + j] == fs[j];
    forall i | 0 <= i < |gs|
      ensures Step(env, zs[i], gs[i].event, gs[i].now, zs[i + 1])
    {
      if i >= |es| {
        var j := i - |es|;
        assert zs[|es| + j] == ys[j] && gs[|es| + j] == fs[j] && zs[|es| + (j + 1)] == ys[j + 1];
      }
    }
    forall start
      ensures LastWrite(start, es + fs) == LastWrite(LastWrite(start, es), fs)
    {
      LastWritesJoin(start, es, fs);
    }
  }

  lemma {:induction false} LastWritesJoin<V>(start: map<Key, V>, es: seq<Timed<V>>, fs: seq<Timed<V>>)
    ensures LastWrite(start, es + fs) == LastWrite(LastWrite(start, es), fs)
    decreases |fs|
  {
    if fs == [] {
      assert es + fs == es;
    } else {
      var n := |fs| - 1;
      LastWritesJoin(start, es, fs[..n]);
      assert (es + fs)[..|es + fs| - 1] == es + fs[..n];
    }
  }

  /** `upsert_at` of a known class is one step: a refusal, or a write with what follows it. */
  lemma UpsertIsRun<V>(env: Env, a: Snap<V>, b: Snap<V>, c: ClassPolicy, key: Key, entry: HotEntry<V>, now: int,
                       ok: bool,
                       committed: bool, vs: Victims<V>, done: nat, mirrored: bool, batch: seq<PersistRecord<V>>, n: nat)
    requires ClassIs(env.cfg, c) && env.owner(key) == c.name == entry.class_
    requires Upserted(env.cfg, env.maxEntries, env.maxBytes, env.maxPending, a, b, c, key, entry, now, ok, committed,
               vs, done, mirrored, batch, n)
    ensures Run(env, [a, b],
              [Timed(if committed then Write(c, key, entry, vs, mirrored, batch, n) else RefusedWrite(vs, done), now)])
  {
    hide Written, RightVictims, FromHot, Refused;
    OneStep(env, a, if committed then Write(c, key, entry, vs, mirrored, batch, n) else RefusedWrite(vs, done), now, b);
  }

  /** `get_at` is a flush and a look at Hot, followed, if Hot has no live entry, by a
      read below it that meets the failures scheduled when the call began. */
  lemma GetIsRun<V>(env: Env, a: Snap<V>, mid: Snap<V>, b: Snap<V>, key: Key, now: int, v: Option<V>, calls: Plan,
                    p: Promotion<V>, batch: seq<PersistRecord<V>>, n: nat)
    requires Flushed(a, mid, now, false, batch, n)
    requires var live := LivePart(a.hot, now);
      var read := mid.(hot := Touched(a.hot, key, now));
      && (key in live ==> v == Some(live[key].value) && b == read)
      && (key !in live ==> ReadBelow(env.cfg, env.maxEntries, env.maxBytes, read, b, key, now, v, Down(calls), p))
    ensures var read := mid.(hot := Touched(a.hot, key, now));
      var begun := [Timed(Event.Flush(false, batch, n), now), Timed(Touch(key), now)];
      if key in LivePart(a.hot, now) then Run(env, [a, mid, b], begun)
      else Run(env, [a, mid, read, b], begun + [Timed(Below(key, v, calls, p), now)])
  {
    hide ReadBelow, Down, Lists, ReadyKeys, Requeued;
    var read := mid.(hot := Touched(a.hot, key, now));
    TwoSteps(env, a, Event.Flush(false, batch, n), mid, Touch(key), now, read);
    if key !in LivePart(a.hot, now) {
      TouchedIsCalm(a.hot, key, now);
      OneStep(env, read, Below(key, v, calls, p), now, b);
      hide Step, Touched;
      RunsJoin(env, [a, mid, read], [Timed(Event.Flush(false, batch, n), now), Timed(Touch(key), now)],
        [read, b], [Timed(Below(key, v, calls, p), now)]);
      assert [a, mid, read] + [read, b][1..] == [a, mid, read, b];
    }
  }

  /** `remove` is one step. */
  lemma RemoveIsRun<V>(env: Env, a: Snap<V>, b: Snap<V>, key: Key, calls: Plan, now: int)
    requires Removed(a, b, key, Down(calls))
    ensures Run(env, [a, b], [Timed(Event.Remove(key, calls), now)])
  {
    OneStep(env, a, Event.Remove(key, calls), now, b);
  }

  /** `flush` is one step. */
  lemma FlushIsRun<V>(env: Env, a: Snap<V>, b: Snap<V>, now: int, batch: seq<PersistRecord<V>>, n: nat)
    requires Flushed(a, b, now, true, batch, n)
    ensures Run(env, [a, b], [Timed(Event.Flush(true, batch, n), now)])
  {
    OneStep(env, a, Event.Flush(true, batch, n), now, b);
  }

  /** `notify_pressure` is a forced flush, followed, if it succeeds, by an eviction. */
  lemma PressureIsRun<V>(env: Env, a: Snap<V>, mid: Snap<V>, b: Snap<V>, now: int, r: Result<bool, MemError>,
                         batch: seq<PersistRecord<V>>, n: nat, vs: Victims<V>, done: nat)
    requires Flushed(a, mid, now, true, batch, n)
    requires n < |batch| ==> b == mid
    requires n == |batch| ==> Pressed(env.cfg, mid, b, now, r, vs, done)
    ensures var begun := Event.Flush(true, batch, n);
      if n < |batch| then Run(env, [a, b], [Timed(begun, now)])
      else Run(env, [a, mid, b], [Timed(begun, now), Timed(Evict(Evictable(LivePart(mid.hot, now)), vs, done), now)])
  {
    hide Evicted, Evictable, LivePart, Lists, ReadyKeys, Requeued;
    OneStep(env, a, Event.Flush(true, batch, n), now, mid);
    if n == |batch| {
      TwoSteps(env, a, Event.Flush(true, batch, n), mid, Evict(Evictable(LivePart(mid.hot, now)), vs, done), now, b);
    }
  }

  /** `poll` is a flush of what is due, followed, if it succeeds, by the eviction of idle entries. */
  lemma PollIsRun<V>(env: Env, a: Snap<V>, mid: Snap<V>, b: Snap<V>, now: int,
                     batch: seq<PersistRecord<V>>, n: nat, vs: Victims<V>, done: nat)
    requires Flushed(a, mid, now, false, batch, n)
    requires n < |batch| ==> b == mid
    requires n == |batch| ==> Evicted(env.cfg, mid, b, now, IdlePool(a.hot, now), vs, done)
    ensures var begun := Event.Flush(false, batch, n);
      if n < |batch| then Run(env, [a, b], [Timed(begun, now)])
      else Run(env, [a, mid, b], [Timed(begun, now), Timed(Evict(IdlePool(a.hot, now), vs, done), now)])
  {
    hide Evicted, IdlePool, Lists, ReadyKeys, Requeued;
    OneStep(env, a, Event.Flush(false, batch, n), now, mid);
    if n == |batch| {
      TwoSteps(env, a, Event.Flush(false, batch, n), mid, Evict(IdlePool(a.hot, now), vs, done), now, b);
    }
  }

  /** The calls a program makes on a manager. */
  datatype Call<V> =
    | Upsert(key: Key, value: V, class_: ClassName)
    | Get(key: Key)
    | Remove(key: Key)
    | Flush
    | Poll
    | NotifyPressure
    | DemoteIdle(limit: nat)

  /** The program writes a key under its own class, or under one that does not exist. */
  predicate OwnClass<V>(cfg: Cfg, owner: Key -> ClassName, call: Call<V>)
  {
    call.Upsert? && call.class_ in cfg.classes ==> owner(call.key) == call.class_
  }

  /** Whatever call a program makes, the manager goes through a run of steps from the
      state it was in to the state it is in. */
  method Perform<V>(m: MemoryManager<V>, call: Call<V>, now: int)
    returns (ghost states: seq<Snap<V>>, ghost events: seq<Timed<V>>)
    requires m.Valid() && OwnClass(m.cfg, m.owner, call)
    modifies m`last, m`lastEnqueued, m.hot, m.warm, m.cold, m.frozen, m.deferred, m.SinkParts()
    ensures m.Valid()
    ensures Run(EnvOf(m), states, events) && states[0] == old(m.Now()) && states[|events|] == m.Now()
  {
    hide Run, Upserted, Flushed, ReadBelow, Removed, Pressed, Evicted, Touched, LivePart, Down, KeepsAgreement, Decided;
    hide Savable, Accepts, TotalBytes, Keyed, NoSinkClass, Bounded, TiersAgree, NoneExpired;
    ghost var a := m.Now();
    if call.Upsert? {
      states, events := PerformUpsert(m, call.key, call.value, call.class_, now);
    } else if call.Get? {
      states, events := PerformGet(m, call.key, now);
    } else if call.Remove? {
      ghost var calls := m.Calls();
      var removed := m.Remove(call.key);
      RemoveIsRun(EnvOf(m), a, m.Now(), call.key, calls, now);
      states, events := [a, m.Now()], [Timed(Event.Remove(call.key, calls), now)];
    } else if call.Flush? {
      var r;
      ghost var batch, n;
      r, batch, n := m.Flush(now);
      FlushIsRun(EnvOf(m), a, m.Now(), now, batch, n);
      states, events := [a, m.Now()], [Timed(Event.Flush(true, batch, n), now)];
    } else if call.Poll? {
      states, events := PerformPoll(m, now);
    } else if call.NotifyPressure? {
      states, events := PerformPressure(m, now);
    } else {
      var r;
      ghost var vs, done;
      r, vs, done := m.DemoteIdleAt(now, call.limit);
      ghost var pool := IdlePool(a.hot, now);
      OneStep(EnvOf(m), a, Evict(pool, vs, done), now, m.Now());
      states, events := [a, m.Now()], [Timed(Evict(pool, vs, done), now)];
    }
  }

  method PerformUpsert<V>(m: MemoryManager<V>, key: Key, value: V, class_: ClassName, now: int)
    returns (ghost states: seq<Snap<V>>, ghost events: seq<Timed<V>>)
    requires m.Valid() && OwnClass(m.cfg, m.owner, Upsert(key, value, class_))
    modifies m`last, m`lastEnqueued, m.hot, m.warm, m.cold, m.frozen, m.deferred, m.SinkParts()
    ensures m.Valid()
    ensures Run(EnvOf(m), states, events) && states[0] == old(m.Now()) && states[|events|] == m.Now()
  {
    hide Upserted, KeepsAgreement, Decided, Savable, Accepts, TotalBytes, Keyed, NoneExpired;
    ghost var a := m.Now();
    var r;
    ghost var committed, vs, done, mirrored, batch, n;
    r, committed, vs, done, mirrored, batch, n := m.UpsertAt(key, value, class_, now);
    if class_ in m.cfg.classes {
      ghost var c := m.cfg.classes[class_];
      ghost var entry := m.EntryFor(value, c, now);
      UpsertIsRun(EnvOf(m), a, m.Now(), c, key, entry, now, r.Ok?, committed, vs, done, mirrored, batch, n);
      states := [a, m.Now()];
      events := [Timed(if committed then Write(c, key, entry, vs, mirrored, batch, n) else RefusedWrite(vs, done),
                       now)];
    } else {
      states, events := [a], [];
    }
  }

  method PerformGet<V>(m: MemoryManager<V>, key: Key, now: int)
    returns (ghost states: seq<Snap<V>>, ghost events: seq<Timed<V>>)
    requires m.Valid()
    modifies m.hot, m.warm, m.cold, m.frozen, m.deferred, m.SinkParts()
    ensures m.Valid()
    ensures Run(EnvOf(m), states, events) && states[0] == old(m.Now()) && states[|events|] == m.Now()
  {
    hide Flushed, ReadBelow, KeepsAgreement, TotalBytes, Keyed, TiersAgree, NoneExpired, Run;
    ghost var a, calls := m.Now(), m.Calls();
    var v;
    ghost var p, mid, batch, n;
    v, p, mid, batch, n := m.GetAt(key, now);
    GetIsRun(EnvOf(m), a, mid, m.Now(), key, now, v, calls, p, batch, n);
    events := [Timed(Event.Flush(false, batch, n), now), Timed(Touch(key), now)];
    if key in LivePart(a.hot, now) {
      states := [a, mid, m.Now()];
    } else {
      states := [a, mid, mid.(hot := Touched(a.hot, key, now)), m.Now()];
      events := events + [Timed(Below(key, v, calls, p), now)];
    }
  }

  method PerformPoll<V>(m: MemoryManager<V>, now: int) returns (ghost states: seq<Snap<V>>, ghost events: seq<Timed<V>>)
    requires m.Valid()
    modifies m.hot, m.warm, m.cold, m.frozen, m.deferred, m.SinkParts()
    ensures m.Valid()
    ensures Run(EnvOf(m), states, events) && states[0] == old(m.Now()) && states[|events|] == m.Now()
  {
    hide Flushed, Evicted, KeepsAgreement, TotalBytes, Keyed, NoneExpired, Run;
    ghost var a := m.Now();
    var r;
    ghost var mid, batch, n, vs, done;
    r, mid, batch, n, vs, done := m.Poll(now);
    PollIsRun(EnvOf(m), a, mid, m.Now(), now, batch, n, vs, done);
    if n < |batch| {
      states, events := [a, m.Now()], [Timed(Event.Flush(false, batch, n), now)];
    } else {
      states := [a, mid, m.Now()];
      events := [Timed(Event.Flush(false, batch, n), now), Timed(Evict(IdlePool(a.hot, now), vs, done), now)];
    }
  }

  method PerformPressure<V>(m: MemoryManager<V>, now: int) returns (ghost states: seq<Snap<V>>,
        ghost events: seq<Timed<V>>)
    requires m.Valid()
    modifies m.hot, m.warm, m.cold, m.frozen, m.deferred, m.SinkParts()
    ensures m.Valid()
    ensures Run(EnvOf(m), states, events) && states[0] == old(m.Now()) && states[|events|] == m.Now()
  {
    hide Flushed, Pressed, KeepsAgreement, TotalBytes, Keyed, NoneExpired, Run;
    ghost var a := m.Now();
    var r;
    ghost var mid, batch, n, vs, done;
    r, mid, batch, n, vs, done := m.NotifyPressure(now);
    PressureIsRun(EnvOf(m), a, mid, m.Now(), now, r, batch, n, vs, done);
    if n < |batch| {
      states, events := [a, m.Now()], [Timed(Event.Flush(true, batch, n), now)];
    } else {
      states := [a, mid, m.Now()];
      events := [Timed(Event.Flush(true, batch, n), now),
                 Timed(Evict(Evictable(LivePart(mid.hot, now)), vs, done), now)];
    }
  }
}
