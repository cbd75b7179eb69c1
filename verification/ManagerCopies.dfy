/** Keys whose writes are all copied to their own tier: for them deadlines do not
    matter. What expires in Hot is still below, over every run, calm or not. */
module ManagerCopies {
  import opened Prelude
  import opened Policy
  import opened HotSpec
  import opened HotTier
  import opened Tiers
  import opened Deferred
  import opened Coherence
  import opened ManagerSteps
  import opened ManagerRuns

  /** The tier `t` holds the last value of `k`, and Hot no other one. */
  ghost predicate CopyHeld<V>(hot: Entries<V>, s: TierState<V>, last: map<Key, V>, t: Tier, k: Key)
  {
    var low := StoreOf(s, t);
    && (k in hot ==> k in last && hot[k].value == last[k])
    && (k in low <==> k in last)
    && (k in low ==> low[k].value == last[k])
  }

  ghost predicate Holds<V>(a: Snap<V>, t: Tier, k: Key)
  {
    CopyHeld(a.hot, a.low, a.last, t, k)
  }

  /** Every write of `k` was copied to its tier, and every removal of `k` reached it. */
  ghost predicate Copies<V>(e: Event<V>, t: Tier, k: Key)
  {
    && (e.Write? && e.key == k ==> e.mirrored)
    && (e.Remove? && e.key == k ==> !Fails(e.calls, t))
  }

  lemma FewerInHot<V>(hot: Entries<V>, hot': Entries<V>, s: TierState<V>, last: map<Key, V>, t: Tier, k: Key)
    requires CopyHeld(hot, s, last, t, k)
    requires k in hot' ==> k in hot && hot'[k].value == hot[k].value
    ensures CopyHeld(hot', s, last, t, k)
  {
  }

  lemma PutKeepsCopy<V>(cfg: Cfg, owner: Key -> ClassName, hot: Entries<V>, s: TierState<V>, last: map<Key, V>,
                        t: Tier, k: Key, u: Tier, j: Key, low: LowEntry<V>)
    requires CopyHeld(hot, s, last, t, k) && Backing(cfg, owner, k) == Some(t)
    requires j == k ==> k in last && low.value == last[k]
    ensures CopyHeld(hot, PutIn(cfg, s, u, j, low), last, t, k)
  {
    hide TierOf, Noop, StoreOf, PutIn;
    StoreAfterPut(cfg, s, u, j, low, t);
  }

  /** Demotions copy down what Hot holds, which is the last value. */
  lemma {:induction false} DemotionsKeepCopy<V>(cfg: Cfg, owner: Key -> ClassName, hot: Entries<V>, s: TierState<V>,
                                                last: map<Key, V>, vs: Victims<V>, t: Tier, k: Key)
    requires CopyHeld(hot, s, last, t, k) && Backing(cfg, owner, k) == Some(t)
    requires FromHot(hot, vs)
    ensures CopyHeld(hot, AllDemoted(cfg, s, vs), last, t, k)
  {
    if vs != [] {
      var n := |vs| - 1;
      DemotionsKeepCopy(cfg, owner, hot, s, last, vs[..n], t, k);
      var j, e := vs[n].0, vs[n].1;
      hide PutIn, TierOf, StoreOf, Backing;
      if TierOf(cfg, e.class_).Some? {
        PutKeepsCopy(cfg, owner, hot, AllDemoted(cfg, s, vs[..n]), last, t, k, TierOf(cfg, e.class_).value, j,
                     LowEntry(e.class_, e.value));
      }
    }
  }

  lemma WriteKeepsCopy<V>(env: Env, a: Snap<V>, b: Snap<V>, c: ClassPolicy, key: Key, entry: HotEntry<V>, now: int,
                          vs: Victims<V>, mirrored: bool, batch: seq<PersistRecord<V>>, n: nat, t: Tier, k: Key)
    requires Holds(a, t, k) && Backing(env.cfg, env.owner, k) == Some(t)
    requires FromHot(a.hot, vs) && env.owner(key) == c.name == entry.class_
    requires Written(env.cfg, env.maxPending, a, b, c, key, entry, now, vs, mirrored, batch, n)
    requires key == k ==> mirrored
    ensures Holds(b, t, k)
  {
    var cfg := env.cfg;
    WrittenShows(cfg, env.maxPending, a, b, c, key, entry, now, vs, mirrored, batch, n);
    DemotionsKeepCopy(cfg, env.owner, a.hot, a.low, a.last, vs, t, k);
    var low := AllDemoted(cfg, a.low, vs);
    hide Written, AllDemoted, Keys, TierOf, PutIn, StoreOf, FromHot;
    var v := Visible(cfg, a, key, entry, now, vs);
    if key != k {
      FewerInHot(a.hot, v.hot, low, a.last, t, k);
      assert CopyHeld(v.hot, v.low, v.last, t, k);
      if mirrored && TierOf(cfg, c.name).Some? {
        PutKeepsCopy(cfg, env.owner, v.hot, v.low, v.last, t, k, TierOf(cfg, c.name).value, key,
                     LowEntry(c.name, entry.value));
      }
    } else {
      assert TierOf(cfg, c.name) == Some(t) && !Noop(cfg, t);
      StoreAfterPut(cfg, v.low, t, key, LowEntry(c.name, entry.value), t);
    }
  }

  lemma BelowKeepsCopy<V>(env: Env, a: Snap<V>, b: Snap<V>, key: Key, now: int, v: Option<V>, down: set<Tier>,
                          p: Promotion<V>, t: Tier, k: Key)
    requires Holds(a, t, k) && Placed(env.cfg, env.owner, a.low) && Backing(env.cfg, env.owner, k) == Some(t)
    requires ReadBelow(env.cfg, env.maxEntries, env.maxBytes, a, b, key, now, v, down, p)
    ensures Holds(b, t, k)
  {
    hide RightVictims, AllDemoted, Backing, Keys;
    if v.Some? && StoreOf(a.low, p.tier)[key].class_ in env.cfg.classes {
      DemotionsKeepCopy(env.cfg, env.owner, a.hot, a.low, a.last, p.victims[..p.done], t, k);
      assert Backing(env.cfg, env.owner, key) == Some(p.tier);
      hide StoreOf;
      if p.ok && key != k {
        FewerInHot(a.hot, b.hot, b.low, a.last, t, k);
      }
    }
  }

  lemma EvictionKeepsCopy<V>(env: Env, a: Snap<V>, b: Snap<V>, now: int, pool: set<Key>, vs: Victims<V>, done: nat,
                             t: Tier, k: Key)
    requires Holds(a, t, k) && Backing(env.cfg, env.owner, k) == Some(t)
    requires Evicted(env.cfg, a, b, now, pool, vs, done)
    ensures Holds(b, t, k)
  {
    hide AllDemoted, Keys, Backing, StoreOf;
    var live := LivePart(a.hot, now);
    GreedyFromHot(a.hot, live, pool, vs);
    hide Greedy;
    DemotionsKeepCopy(env.cfg, env.owner, a.hot, a.low, a.last, vs[..done], t, k);
    FewerInHot(a.hot, b.hot, b.low, a.last, t, k);
  }

  lemma StepKeepsCopy<V>(env: Env, a: Snap<V>, e: Event<V>, now: int, b: Snap<V>, t: Tier, k: Key)
    requires Step(env, a, e, now, b) && Copies(e, t, k)
    requires Holds(a, t, k) && Placed(env.cfg, env.owner, a.low) && KeptIn(env.cfg, env.owner(k), t)
    ensures Holds(b, t, k)
  {
    BackingIff(env.cfg, env.owner, k, t);
    hide KeptIn, RightVictims, Written, ReadBelow, Evicted, Placed, Backing, AllDemoted, Requeued, Lists;
    match e {
      case RefusedWrite(vs, done) =>
        DemotionsKeepCopy(env.cfg, env.owner, a.hot, a.low, a.last, vs[..done], t, k);
      case Write(c, key, entry, vs, mirrored, batch, n) =>
        WriteKeepsCopy(env, a, b, c, key, entry, now, vs, mirrored, batch, n, t, k);
      case Flush(force, batch, n) =>
      case Touch(key) => FewerInHot(a.hot, b.hot, a.low, a.last, t, k);
      case Below(key, v, calls, p) => BelowKeepsCopy(env, a, b, key, now, v, Down(calls), p, t, k);
      case Evict(pool, vs, done) => EvictionKeepsCopy(env, a, b, now, pool, vs, done, t, k);
      case Remove(key, calls) =>
        assert key == k ==> t !in Down(calls);
    }
  }

  /** Over every run, with deadlines passing at any point: the tier of a key whose
      writes are all copied holds the last visible write. */
  lemma {:induction false} RunKeepsCopy<V>(env: Env, states: seq<Snap<V>>, events: seq<Timed<V>>, t: Tier, k: Key)
    requires Run(env, states, events) && SinkAgrees(env.cfg, env.owner, states[0])
    requires KeptIn(env.cfg, env.owner(k), t) && Holds(states[0], t, k)
    requires forall i :: 0 <= i < |events| ==> Copies(events[i].event, t, k)
    ensures Holds(states[|events|], t, k) && Placed(env.cfg, env.owner, states[|events|].low)
    ensures states[|events|].last == LastWrite(states[0].last, events)
    decreases |events|
  {
    hide Step, Holds, Copies, KeptIn, TiersAgree, NoneExpired, NothingLost;
    RunKeepsSink(env, states, events);
    if events != [] {
      var n := |events| - 1;
      RunKeepsCopy(env, states[..n + 1], events[..n], t, k);
      hide SinkAgrees, Placed;
      StepKeepsCopy(env, states[n], events[n].event, events[n].now, states[n + 1], t, k);
      StepKeepsAgreement(env, states[n], events[n].event, events[n].now, states[n + 1]);
    }
  }

  /** A manager that starts with an empty Hot holds every key so. */
  lemma StartHolds<V>(cfg: Cfg, owner: Key -> ClassName, s: TierState<V>, t: Tier, k: Key)
    requires Placed(cfg, owner, s) && KeptIn(cfg, owner(k), t)
    ensures CopyHeld(map[], s, FoundAtStart(cfg, owner, s), t, k)
  {
    BackingIff(cfg, owner, k, t);
    StartIsCoherent(cfg, owner, s);
    assert KeyAgrees(cfg, owner, map[], s, FoundAtStart(cfg, owner, s), k);
  }

  lemma HeldReadIsLast<V>(env: Env, a: Snap<V>, t: Tier, key: Key, now: int, b: Snap<V>, v: Option<V>, down: set<Tier>,
                          p: Promotion<V>)
    requires Holds(a, t, key) && Placed(env.cfg, env.owner, a.low) && Backing(env.cfg, env.owner, key) == Some(t)
    requires key in LivePart(a.hot, now) ==> v == Some(a.hot[key].value)
    requires key !in LivePart(a.hot, now) ==>
      ReadBelow(env.cfg, env.maxEntries, env.maxBytes, a.(hot := Touched(a.hot, key, now)), b, key, now, v, down, p)
    ensures v.Some? ==> key in a.last && v.value == a.last[key]
    ensures v.None? <==> key !in a.last || (key !in LivePart(a.hot, now) && t in down)
  {
    hide Promoted, Backing, Touched;
  }

  /** So expiry loses none of them: whatever is past its deadline by then, a read
      answers the last visible write of the key, or nothing; and nothing exactly if
      there is none, or Hot has no live copy and the next call to the tier fails. */
  lemma CopiedReadIsLast<V>(env: Env, states: seq<Snap<V>>, events: seq<Timed<V>>, t: Tier, key: Key, now: int,
                            b: Snap<V>, v: Option<V>, calls: Plan, p: Promotion<V>)
    requires Run(env, states, events) && SinkAgrees(env.cfg, env.owner, states[0])
    requires KeptIn(env.cfg, env.owner(key), t) && Holds(states[0], t, key)
    requires forall i :: 0 <= i < |events| ==> Copies(events[i].event, t, key)
    requires var a := states[|events|];
      var live := LivePart(a.hot, now);
      && (key in live ==> v == Some(live[key].value))
      && (key !in live ==>
           ReadBelow(env.cfg, env.maxEntries, env.maxBytes, a.(hot := Touched(a.hot, key, now)), b, key, now, v,
                     Down(calls), p))
    ensures var last := LastWrite(states[0].last, events);
      && (v.Some? ==> key in last && v.value == last[key])
      && (v.None? <==> key !in last || (key !in LivePart(states[|events|].hot, now) && Fails(calls, t)))
  {
    RunKeepsCopy(env, states, events, t, key);
    BackingIff(env.cfg, env.owner, key, t);
    hide KeptIn, Run, Copies, ReadBelow, Touched, SinkAgrees, Backing, Fails, LastWrite, Holds, Placed;
    HeldReadIsLast(env, states[|events|], t, key, now, b, v, Down(calls), p);
  }
}
