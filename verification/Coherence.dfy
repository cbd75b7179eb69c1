/** What a key means across the tiers, on values: where victims go, when the tiers
    agree, and why each change the manager makes keeps them in agreement. */
module Coherence {
  import opened Prelude
  import opened Policy
  import opened HotSpec
  import opened Tiers

  datatype Cfg = Cfg(classes: map<ClassName, ClassPolicy>, warmNoop: bool, coldNoop: bool, frozenNoop: bool)

  datatype TierState<V> = TierState(warm: Store<V>, cold: Store<V>, frozen: Store<V>)

  datatype Tier = ToWarm | ToCold | ToFrozen

  /** Where an entry of the class goes when it leaves Hot; `None` means it is dropped. */
  function TierOf(cfg: Cfg, class_: ClassName): Option<Tier>
  {
    if class_ !in cfg.classes then None else
    var c := cfg.classes[class_];
    if c.temperature == Frozen then Some(ToFrozen)
    else if c.policy == Cache && c.temperature == Cold then Some(ToCold)
    else if c.policy == Cache && c.temperature == Warm then Some(ToWarm)
    else None
  }

  function Noop(cfg: Cfg, t: Tier): bool
  {
    match t
    case ToWarm => cfg.warmNoop
    case ToCold => cfg.coldNoop
    case ToFrozen => cfg.frozenNoop
  }

  function StoreOf<V>(s: TierState<V>, t: Tier): Store<V>
  {
    match t
    case ToWarm => s.warm
    case ToCold => s.cold
    case ToFrozen => s.frozen
  }

  function PutIn<V>(cfg: Cfg, s: TierState<V>, t: Tier, k: Key, low: LowEntry<V>): TierState<V>
  {
    if Noop(cfg, t) then s else
    match t
    case ToWarm => s.(warm := s.warm[k := low])
    case ToCold => s.(cold := s.cold[k := low])
    case ToFrozen => s.(frozen := s.frozen[k := low])
  }

  /** One successful demotion. */
  function Demoted<V>(cfg: Cfg, s: TierState<V>, k: Key, e: HotEntry<V>): TierState<V>
  {
    match TierOf(cfg, e.class_)
    case None => s
    case Some(t) => PutIn(cfg, s, t, k, LowEntry(e.class_, e.value))
  }

  /** The demotions of `vs`, in order. */
  function AllDemoted<V>(cfg: Cfg, s: TierState<V>, vs: Victims<V>): TierState<V>
  {
    if vs == [] then s else
    Demoted(cfg, AllDemoted(cfg, s, vs[..|vs| - 1]), vs[|vs| - 1].0, vs[|vs| - 1].1)
  }

  // ------------------------------------------------------------ fault schedules

  /** Which of the coming calls to each tier fail. */
  datatype Plan = Plan(warm: seq<bool>, cold: seq<bool>, frozen: seq<bool>)

  function CallsTo(p: Plan, t: Tier): seq<bool>
  {
    match t
    case ToWarm => p.warm
    case ToCold => p.cold
    case ToFrozen => p.frozen
  }

  predicate Fails(p: Plan, t: Tier)
  {
    FailsNext(CallsTo(p, t))
  }

  /** The schedule after one call to the tier. */
  function Spent(p: Plan, t: Tier): Plan
  {
    match t
    case ToWarm => p.(warm := Later(p.warm))
    case ToCold => p.(cold := Later(p.cold))
    case ToFrozen => p.(frozen := Later(p.frozen))
  }

  /** The tiers whose next call fails. */
  function Down(p: Plan): set<Tier>
  {
    set t: Tier | t in {ToWarm, ToCold, ToFrozen} && Fails(p, t)
  }

  /** The schedule after reading the tiers in order, Warm first, up to and including `t`. */
  function AfterReads(p: Plan, t: Tier): Plan
  {
    match t
    case ToWarm => Spent(p, ToWarm)
    case ToCold => Spent(Spent(p, ToWarm), ToCold)
    case ToFrozen => Spent(Spent(Spent(p, ToWarm), ToCold), ToFrozen)
  }

  /** A demotion of the class would work: there is nothing to call, or the call works. */
  predicate CanSave(cfg: Cfg, p: Plan, class_: ClassName)
  {
    match TierOf(cfg, class_)
    case None => true
    case Some(t) => !Fails(p, t)
  }

  function AfterSave(cfg: Cfg, p: Plan, class_: ClassName): Plan
  {
    match TierOf(cfg, class_)
    case None => p
    case Some(t) => Spent(p, t)
  }

  /** How many victims are saved before the first demotion that fails. */
  function Savable<V>(cfg: Cfg, p: Plan, vs: Victims<V>): (n: nat)
    ensures n <= |vs|
    decreases |vs|
  {
    if vs == [] || !CanSave(cfg, p, vs[0].1.class_) then 0
    else 1 + Savable(cfg, AfterSave(cfg, p, vs[0].1.class_), vs[1..])
  }

  /** The schedule after demoting the victims up to the first failure. */
  function PlanAfter<V>(cfg: Cfg, p: Plan, vs: Victims<V>): Plan
    decreases |vs|
  {
    if vs == [] then p
    else if !CanSave(cfg, p, vs[0].1.class_) then AfterSave(cfg, p, vs[0].1.class_)
    else PlanAfter(cfg, AfterSave(cfg, p, vs[0].1.class_), vs[1..])
  }

  /** How many of the next `n` calls work before the first that fails. */
  function Accepts(faults: seq<bool>, n: nat): (k: nat)
    ensures k <= n
  {
    if n == 0 || FailsNext(faults) then 0 else 1 + Accepts(Later(faults), n - 1)
  }

  /** The schedule after up to `n` calls that stop at the first failure. */
  function AfterCalls(faults: seq<bool>, n: nat): seq<bool>
  {
    if n == 0 then faults else if FailsNext(faults) then Later(faults) else AfterCalls(Later(faults), n - 1)
  }

  ghost predicate NoFaults(faults: seq<bool>)
  {
    forall i :: 0 <= i < |faults| ==> !faults[i]
  }

  /** With no failure scheduled, every victim is saved. */
  lemma {:induction false} NoFaultsSaveAll<V>(cfg: Cfg, p: Plan, vs: Victims<V>)
    requires NoFaults(p.warm) && NoFaults(p.cold) && NoFaults(p.frozen)
    ensures Savable(cfg, p, vs) == |vs|
    decreases |vs|
  {
    if vs != [] {
      NoFaultsSaveAll(cfg, AfterSave(cfg, p, vs[0].1.class_), vs[1..]);
    }
  }

  lemma {:induction false} NoFaultsAcceptAll(faults: seq<bool>, n: nat)
    requires NoFaults(faults)
    ensures Accepts(faults, n) == n
  {
    if n > 0 {
      NoFaultsAcceptAll(Later(faults), n - 1);
    }
  }

  /** The tier that is expected to hold `k` when Hot does not. */
  function Backing(cfg: Cfg, owner: Key -> ClassName, k: Key): Option<Tier>
  {
    match TierOf(cfg, owner(k))
    case None => None
    case Some(t) => if Noop(cfg, t) then None else Some(t)
  }

  /** The tier takes the entries of the class when they leave Hot: it stores something, it is
      the one of the class's temperature, and Warm and Cold take cached classes only. */
  predicate KeptIn(cfg: Cfg, class_: ClassName, t: Tier)
  {
    class_ in cfg.classes &&
    var c := cfg.classes[class_];
    match t
    case ToWarm => c.policy == Cache && c.temperature == Warm && !cfg.warmNoop
    case ToCold => c.policy == Cache && c.temperature == Cold && !cfg.coldNoop
    case ToFrozen => c.temperature == Frozen && !cfg.frozenNoop
  }

  lemma BackingIff(cfg: Cfg, owner: Key -> ClassName, k: Key, t: Tier)
    ensures Backing(cfg, owner, k) == Some(t) <==> KeptIn(cfg, owner(k), t)
  {
  }

  /** Where a successful demotion puts an entry, by the policy and the temperature of its
      class: each tier gains its copy exactly if it takes the class. */
  lemma DemotionGoes<V>(cfg: Cfg, s: TierState<V>, k: Key, e: HotEntry<V>)
    ensures var known := e.class_ in cfg.classes;
      var copy := LowEntry(e.class_, e.value);
      var after := Demoted(cfg, s, k, e);
      && after.warm ==
           (if known && cfg.classes[e.class_].policy == Cache && cfg.classes[e.class_].temperature == Warm
              && !cfg.warmNoop then s.warm[k := copy] else s.warm)
      && after.cold ==
           (if known && cfg.classes[e.class_].policy == Cache && cfg.classes[e.class_].temperature == Cold
              && !cfg.coldNoop then s.cold[k := copy] else s.cold)
      && after.frozen ==
           (if known && cfg.classes[e.class_].temperature == Frozen && !cfg.frozenNoop then s.frozen[k := copy]
            else s.frozen)
  {
  }

  /** When a demotion works: unless the one tier it calls fails in its next call. */
  lemma SavesIff(cfg: Cfg, p: Plan, class_: ClassName)
    ensures CanSave(cfg, p, class_) <==>
      class_ in cfg.classes ==>
        var c := cfg.classes[class_];
        && (c.temperature == Frozen && p.frozen != [] ==> !p.frozen[0])
        && (c.policy == Cache && c.temperature == Cold && p.cold != [] ==> !p.cold[0])
        && (c.policy == Cache && c.temperature == Warm && p.warm != [] ==> !p.warm[0])
  {
  }

  /** Lower copies of a key are in the tier of its class only, under its class. */
  ghost predicate Placed<V>(cfg: Cfg, owner: Key -> ClassName, s: TierState<V>)
  {
    forall t, k :: k in StoreOf(s, t) ==> Backing(cfg, owner, k) == Some(t) && StoreOf(s, t)[k].class_ == owner(k)
  }

  ghost predicate HotOwned<V>(owner: Key -> ClassName, hot: Entries<V>)
  {
    forall k :: k in hot ==> hot[k].class_ == owner(k)
  }

  /** For a key with a backing tier: Hot, or else the tier, holds the last value
      committed to Hot, and neither holds a key that has none. */
  ghost predicate KeyAgrees<V>(cfg: Cfg, owner: Key -> ClassName, hot: Entries<V>, s: TierState<V>, last: map<Key, V>,
                               k: Key)
  {
    match Backing(cfg, owner, k)
    case None => true
    case Some(t) =>
      var low := StoreOf(s, t);
      if k in hot then k in last && hot[k].value == last[k]
      else (k in last <==> k in low) && (k in last ==> low[k].value == last[k])
  }

  ghost predicate Coherent<V>(cfg: Cfg, owner: Key -> ClassName, hot: Entries<V>, s: TierState<V>, last: map<Key, V>)
  {
    && Placed(cfg, owner, s)
    && HotOwned(owner, hot)
    && forall k :: KeyAgrees(cfg, owner, hot, s, last, k)
  }

  /** `vs` are entries of Hot. */
  ghost predicate FromHot<V>(hot: Entries<V>, vs: Victims<V>)
  {
    forall i :: 0 <= i < |vs| ==> vs[i].0 in hot && vs[i].1 == hot[vs[i].0]
  }

  lemma GreedyFromHot<V>(hot: Entries<V>, m: Entries<V>, pool: set<Key>, vs: Victims<V>)
    requires forall k :: k in m ==> k in hot && hot[k] == m[k]
    requires pool <= m.Keys && Greedy(m, pool, vs)
    ensures FromHot(hot, vs)
  {
  }

  // ------------------------------------------------ what the changes preserve

  lemma StoreAfterPut<V>(cfg: Cfg, s: TierState<V>, t: Tier, k: Key, low: LowEntry<V>, u: Tier)
    ensures StoreOf(PutIn(cfg, s, t, k, low), u) ==
      if u == t && !Noop(cfg, t) then StoreOf(s, u)[k := low] else StoreOf(s, u)
  {
  }

  /** Writing the last value of a key to its own tier is harmless. */
  lemma MirrorLast<V>(cfg: Cfg, owner: Key -> ClassName, hot: Entries<V>, s: TierState<V>, last: map<Key, V>, k: Key,
                      t: Tier, v: V)
    requires Coherent(cfg, owner, hot, s, last) && TierOf(cfg, owner(k)) == Some(t)
    requires k in hot && hot[k].value == v
    ensures Coherent(cfg, owner, hot, PutIn(cfg, s, t, k, LowEntry(owner(k), v)), last)
  {
    hide StoreOf, PutIn, TierOf, Noop;
    var after := PutIn(cfg, s, t, k, LowEntry(owner(k), v));
    forall j
      ensures KeyAgrees(cfg, owner, hot, after, last, j)
    {
      assert KeyAgrees(cfg, owner, hot, s, last, j);
      if Backing(cfg, owner, j).Some? {
        StoreAfterPut(cfg, s, t, k, LowEntry(owner(k), v), Backing(cfg, owner, j).value);
      }
    }
    forall u, j | j in StoreOf(after, u)
      ensures Backing(cfg, owner, j) == Some(u) && StoreOf(after, u)[j].class_ == owner(j)
    {
      StoreAfterPut(cfg, s, t, k, LowEntry(owner(k), v), u);
      if j in StoreOf(s, u) {
        assert Backing(cfg, owner, j) == Some(u);
      }
    }
  }

  /** Demoting an entry still in Hot keeps the tiers in agreement. */
  lemma DemoteOne<V>(cfg: Cfg, owner: Key -> ClassName, hot: Entries<V>, s: TierState<V>, last: map<Key, V>, k: Key)
    requires Coherent(cfg, owner, hot, s, last) && k in hot
    ensures Coherent(cfg, owner, hot, Demoted(cfg, s, k, hot[k]), last)
    ensures Backing(cfg, owner, k).Some? ==>
      var low := StoreOf(Demoted(cfg, s, k, hot[k]), Backing(cfg, owner, k).value);
      k in low && low[k].value == hot[k].value
  {
    hide StoreOf, PutIn, TierOf, Noop, KeyAgrees, Placed;
    assert hot[k].class_ == owner(k);
    var t := TierOf(cfg, owner(k));
    if t.Some? {
      MirrorLast(cfg, owner, hot, s, last, k, t.value, hot[k].value);
      StoreAfterPut(cfg, s, t.value, k, LowEntry(owner(k), hot[k].value), t.value);
    }
  }

  /** After the demotions of `vs`, the backing tier of each of them holds its Hot value. */
  ghost predicate Saved<V>(cfg: Cfg, owner: Key -> ClassName, hot: Entries<V>, s: TierState<V>, vs: Victims<V>)
  {
    forall i :: 0 <= i < |vs| ==> SavedKey(cfg, owner, hot, s, vs[i].0)
  }

  ghost predicate SavedKey<V>(cfg: Cfg, owner: Key -> ClassName, hot: Entries<V>, s: TierState<V>, k: Key)
  {
    k in hot &&
    match Backing(cfg, owner, k)
    case None => true
    case Some(t) => k in StoreOf(s, t) && StoreOf(s, t)[k].value == hot[k].value
  }

  lemma DemotionKeepsSaved<V>(cfg: Cfg, owner: Key -> ClassName, hot: Entries<V>, s: TierState<V>, k: Key, j: Key)
    requires k in hot && hot[k].class_ == owner(k) && SavedKey(cfg, owner, hot, s, j)
    ensures SavedKey(cfg, owner, hot, Demoted(cfg, s, k, hot[k]), j)
  {
  }

  lemma {:induction false} DemoteAll<V>(cfg: Cfg, owner: Key -> ClassName, hot: Entries<V>, s: TierState<V>,
                                        last: map<Key, V>, vs: Victims<V>)
    requires Coherent(cfg, owner, hot, s, last) && FromHot(hot, vs)
    ensures Coherent(cfg, owner, hot, AllDemoted(cfg, s, vs), last)
    ensures Saved(cfg, owner, hot, AllDemoted(cfg, s, vs), vs)
  {
    if vs != [] {
      var n := |vs| - 1;
      var before := AllDemoted(cfg, s, vs[..n]);
      DemoteAll(cfg, owner, hot, s, last, vs[..n]);
      hide KeyAgrees, Placed, Demoted;
      DemoteOne(cfg, owner, hot, before, last, vs[n].0);
      forall i | 0 <= i < |vs|
        ensures SavedKey(cfg, owner, hot, AllDemoted(cfg, s, vs), vs[i].0)
      {
        if i < n {
          assert vs[..n][i] == vs[i];
          assert SavedKey(cfg, owner, hot, before, vs[i].0);
          DemotionKeepsSaved(cfg, owner, hot, before, vs[n].0, vs[i].0);
        }
      }
    }
  }

  /** Saved entries may leave Hot. */
  lemma EvictSaved<V>(cfg: Cfg, owner: Key -> ClassName, hot: Entries<V>, s: TierState<V>, last: map<Key, V>,
                      vs: Victims<V>)
    requires Coherent(cfg, owner, hot, s, last) && Saved(cfg, owner, hot, s, vs)
    ensures Coherent(cfg, owner, hot - Keys(vs), s, last)
  {
    hide Placed, TierOf;
    forall k
      ensures KeyAgrees(cfg, owner, hot - Keys(vs), s, last, k)
    {
      assert KeyAgrees(cfg, owner, hot, s, last, k);
      if k in Keys(vs) {
        var i :| 0 <= i < |vs| && vs[i].0 == k;
        assert SavedKey(cfg, owner, hot, s, vs[i].0);
      }
    }
  }

  /** An entry of its own class may enter Hot: its value becomes the last one. */
  lemma InsertInHot<V>(cfg: Cfg, owner: Key -> ClassName, hot: Entries<V>, s: TierState<V>, last: map<Key, V>, k: Key,
                       e: HotEntry<V>)
    requires Coherent(cfg, owner, hot, s, last) && e.class_ == owner(k)
    ensures Coherent(cfg, owner, hot[k := e], s, last[k := e.value])
  {
    hide Placed, TierOf;
    var hot', last' := hot[k := e], last[k := e.value];
    forall j: Key
      ensures KeyAgrees(cfg, owner, hot', s, last', j)
    {
      assert KeyAgrees(cfg, owner, hot, s, last, j);
    }
  }

  /** Reading touches no value. */
  lemma TouchInHot<V>(cfg: Cfg, owner: Key -> ClassName, hot: Entries<V>, s: TierState<V>, last: map<Key, V>, k: Key,
                      e: HotEntry<V>)
    requires Coherent(cfg, owner, hot, s, last) && k in hot && e.class_ == hot[k].class_ && e.value == hot[k].value
    ensures Coherent(cfg, owner, hot[k := e], s, last)
  {
    hide Placed, TierOf;
    var hot' := hot[k := e];
    forall j: Key
      ensures KeyAgrees(cfg, owner, hot', s, last, j)
    {
      assert KeyAgrees(cfg, owner, hot, s, last, j);
    }
  }

  /** A key removed from every tier has no last value. */
  lemma RemoveEverywhere<V>(cfg: Cfg, owner: Key -> ClassName, hot: Entries<V>, s: TierState<V>, last: map<Key, V>,
                            k: Key)
    requires Coherent(cfg, owner, hot, s, last)
    ensures Coherent(cfg, owner, hot - {k}, TierState(s.warm - {k}, s.cold - {k}, s.frozen - {k}), last - {k})
  {
    hide TierOf, Noop;
    var after := TierState(s.warm - {k}, s.cold - {k}, s.frozen - {k});
    var hot', last' := hot - {k}, last - {k};
    forall t: Tier, j: Key | j in StoreOf(after, t)
      ensures Backing(cfg, owner, j) == Some(t) && StoreOf(after, t)[j].class_ == owner(j)
    {
      assert j in StoreOf(s, t);
    }
    forall j: Key
      ensures KeyAgrees(cfg, owner, hot', after, last', j)
    {
      assert KeyAgrees(cfg, owner, hot, s, last, j);
    }
  }

  /** The values a manager finds in its tiers when it starts with an empty Hot. */
  ghost function FoundAtStart<V>(cfg: Cfg, owner: Key -> ClassName, s: TierState<V>): map<Key, V>
  {
    map k | k in s.warm.Keys + s.cold.Keys + s.frozen.Keys
            && Backing(cfg, owner, k).Some? && k in StoreOf(s, Backing(cfg, owner, k).value)
      :: StoreOf(s, Backing(cfg, owner, k).value)[k].value
  }

  lemma StartIsCoherent<V>(cfg: Cfg, owner: Key -> ClassName, s: TierState<V>)
    requires Placed(cfg, owner, s)
    ensures Coherent(cfg, owner, map[], s, FoundAtStart(cfg, owner, s))
  {
    hide TierOf, Noop;
    var last := FoundAtStart(cfg, owner, s);
    forall k: Key
      ensures KeyAgrees(cfg, owner, map[], s, last, k)
    {
      if Backing(cfg, owner, k).Some? {
        var t := Backing(cfg, owner, k).value;
        assert k in StoreOf(s, t) ==> k in s.warm.Keys + s.cold.Keys + s.frozen.Keys;
      }
    }
  }

  // ------------------------------------------- placement, whatever has expired

  lemma PutKeepsPlaced<V>(cfg: Cfg, owner: Key -> ClassName, s: TierState<V>, t: Tier, k: Key, v: V)
    requires Placed(cfg, owner, s) && TierOf(cfg, owner(k)) == Some(t)
    ensures Placed(cfg, owner, PutIn(cfg, s, t, k, LowEntry(owner(k), v)))
  {
    hide StoreOf, PutIn, TierOf, Noop;
    var after := PutIn(cfg, s, t, k, LowEntry(owner(k), v));
    forall u, j | j in StoreOf(after, u)
      ensures Backing(cfg, owner, j) == Some(u) && StoreOf(after, u)[j].class_ == owner(j)
    {
      StoreAfterPut(cfg, s, t, k, LowEntry(owner(k), v), u);
      if j in StoreOf(s, u) {
        assert Backing(cfg, owner, j) == Some(u);
      }
    }
  }

  lemma {:induction false} DemotionsKeepPlaced<V>(cfg: Cfg, owner: Key -> ClassName, hot: Entries<V>, s: TierState<V>,
                                                  vs: Victims<V>)
    requires Placed(cfg, owner, s) && HotOwned(owner, hot) && FromHot(hot, vs)
    ensures Placed(cfg, owner, AllDemoted(cfg, s, vs))
  {
    if vs != [] {
      var n := |vs| - 1;
      DemotionsKeepPlaced(cfg, owner, hot, s, vs[..n]);
      hide Placed, PutIn, TierOf;
      var e := vs[n].1;
      assert e.class_ == owner(vs[n].0);
      if TierOf(cfg, e.class_).Some? {
        PutKeepsPlaced(cfg, owner, AllDemoted(cfg, s, vs[..n]), TierOf(cfg, e.class_).value, vs[n].0, e.value);
      }
    }
  }
}
