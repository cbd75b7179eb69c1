/** Two runs in which a read answers an old value, to show that the conditions of
    RunKeepsTiers matter: no deadline passes, and removals reach every tier. */
module StaleReads {
  import opened Prelude
  import opened Policy
  import opened HotSpec
  import opened HotTier
  import opened Tiers
  import opened Deferred
  import opened Coherence
  import opened ManagerSteps
  import opened ManagerRuns

  const NAME := ClassName([])
  const KEY := Key([])

  /** A cached class that goes to Cold and lives for ten units of time. */
  const COLD_CACHE := ClassPolicy(NAME, Cache, Cold, Some(10), 0, Normal, None)

  const CFG := Cfg(map[NAME := COLD_CACHE], true, false, true)

  const ENV := Env(CFG, (k: Key) => NAME, 4, 4, 4)

  const CALM := Plan([], [], [])

  function Entry<V>(v: V, now: int): HotEntry<V>
  {
    NewEntry(v, COLD_CACHE, now, 1)
  }

  /** What Hot and Cold hold, and the last visible write. */
  ghost function State<V>(hot: Option<HotEntry<V>>, cold: Option<V>, last: Option<V>): Snap<V>
  {
    Snap(if hot.None? then map[] else map[KEY := hot.value],
         TierState(map[], if cold.None? then map[] else map[KEY := LowEntry(NAME, cold.value)], map[]),
         map[], [], if last.None? then map[] else map[KEY := last.value], map[])
  }

  lemma WriteStep<V>(cold: Option<V>, last: Option<V>, v: V, now: int)
    ensures Step(ENV, State(None, cold, last), Write(COLD_CACHE, KEY, Entry(v, now), [], false, [], 0), now,
              State(Some(Entry(v, now)), cold, Some(v)))
  {
    assert State(None, cold, last).hot == map[];
    EntryHolds(v, now);
    hide State, Entry, RightVictims, Written;
    FitsWithoutVictims(v, now);
    WriteIsWritten(cold, last, v, now);
  }

  lemma WriteIsWritten<V>(cold: Option<V>, last: Option<V>, v: V, now: int)
    ensures Written(CFG, 4, State(None, cold, last), State(Some(Entry(v, now)), cold, Some(v)), COLD_CACHE, KEY,
                    Entry(v, now), now, [], false, [], 0)
  {
    var a, b := State(None, cold, last), State(Some(Entry(v, now)), cold, Some(v));
    assert LivePart(a.hot, now) == map[];
    assert Keys<V>([]) == {};
    assert Visible(CFG, a, KEY, Entry(v, now), now, []) == b;
    NothingFlushed(b, now);
    hide Flushed, Visible;
  }

  /** There is room for the entry in an empty Hot. */
  lemma FitsWithoutVictims<V>(v: V, now: int)
    ensures RightVictims<V>(map[], 4, 4, KEY, Weight(KEY, Entry(v, now)), now, [])
  {
    assert LiveOthers<V>(map[], KEY, now) == map[];
    assert Keys<V>([]) == {};
  }

  lemma NothingFlushed<V>(s: Snap<V>, now: int)
    requires s.items == map[]
    ensures Flushed(s, s, now, false, [], 0)
  {
    assert s.items - {} == s.items && s.log + [] == s.log;
  }

  lemma DemoteStep<V>(v: V, now: int)
    ensures Step(ENV, State(Some(Entry(v, now)), None, Some(v)), Evict({KEY}, [(KEY, Entry(v, now))], 1), now,
              State(None, Some(v), Some(v)))
  {
    var a, vs := State(Some(Entry(v, now)), None, Some(v)), [(KEY, Entry(v, now))];
    assert LivePart(a.hot, now) == a.hot;
    assert vs[..1] == vs && vs[..0] == [];
    assert vs[0].0 in Keys(vs);
    assert Keys(vs) == {KEY};
    assert Greedy(a.hot, {KEY}, vs);
    assert AllDemoted(CFG, a.low, []) == a.low;
    assert AllDemoted(CFG, a.low, vs) == Demoted(CFG, a.low, KEY, Entry(v, now));
    assert State(None, Some(v), Some(v)) == a.(hot := a.hot - Keys(vs), low := AllDemoted(CFG, a.low, vs));
  }

  /** A read of Cold brings the value it finds back into Hot. */
  lemma ReadStep<V>(cold: V, last: Option<V>, now: int)
    ensures Step(ENV, State(None, Some(cold), last),
              Below(KEY, Some(cold), CALM, Promotion(ToCold, Entry(cold, now), true, [], 0)), now,
              State(Some(Entry(cold, now)), Some(cold), last))
  {
    var a, b := State(None, Some(cold), last), State(Some(Entry(cold, now)), Some(cold), last);
    assert Keys<V>([]) == {};
    FitsWithoutVictims(cold, now);
    hide RightVictims;
    assert b.hot == Committed(a.hot, KEY, Entry(cold, now), now, []);
    assert FoundIn(a.low, KEY, Down(CALM), ToCold);
  }

  lemma StartAgrees<V>()
    ensures TiersAgree(CFG, ENV.owner, State<V>(None, None, None))
  {
    StartIsCoherent<V>(CFG, ENV.owner, TierState(map[], map[], map[]));
  }

  // The events of the two runs.

  function Put<V>(v: V, now: int): Timed<V>
  {
    Timed(Write(COLD_CACHE, KEY, Entry(v, now), [], false, [], 0), now)
  }

  function Demote<V>(v: V, now: int): Timed<V>
  {
    Timed(Evict({KEY}, [(KEY, Entry(v, now))], 1), now)
  }

  function RemoveWhileColdFails<V>(now: int): Timed<V>
  {
    Timed(Event.Remove(KEY, Plan([], [true], [])), now)
  }

  function Read<V>(v: V, now: int): Timed<V>
  {
    Timed(Below(KEY, Some(v), CALM, Promotion(ToCold, Entry(v, now), true, [], 0)), now)
  }

  lemma TouchStep<V>(v: V, cold: Option<V>)
    ensures Step(ENV, State(Some(Entry(v, 1)), cold, Some(v)), Touch(KEY), 20, State(None, cold, Some(v)))
  {
    assert Touched(State(Some(Entry(v, 1)), cold, Some(v)).hot, KEY, 20) == map[];
  }

  lemma RemoveStep<V>(v: V, now: int)
    ensures Step(ENV, State(None, Some(v), Some(v)), RemoveWhileColdFails<V>(now).event, now,
                 State(None, Some(v), None))
  {
    assert Down(Plan([], [true], [])) == {ToCold};
  }

  /** What an event does to the last writes. */
  ghost function LastAfter<V>(last: map<Key, V>, e: Event<V>): map<Key, V>
  {
    if e.Write? then last[e.key := e.entry.value] else if e.Remove? then last - {e.key} else last
  }

  /** One more step of a run, and what it does to the last writes. */
  lemma Extend<V>(states: seq<Snap<V>>, events: seq<Timed<V>>, a: Snap<V>, e: Timed<V>, b: Snap<V>)
    requires Run(ENV, states, events) && states[|events|] == a
    requires Step(ENV, a, e.event, e.now, b)
    ensures Run(ENV, states + [b], events + [e])
    ensures LastWrite(map[], events + [e]) == LastAfter(LastWrite(map[], events), e.event)
  {
    hide Step, LastWrite;
    LastWriteSnoc(events, e);
  }

  lemma LastWriteSnoc<V>(events: seq<Timed<V>>, e: Timed<V>)
    ensures LastWrite(map[], events + [e]) == LastAfter(LastWrite(map[], events), e.event)
  {
    assert (events + [e])[..|events|] == events;
  }

  /** The key is written and demoted. */
  ghost function DemotedStates<V>(v: V): seq<Snap<V>>
  {
    [State(None, None, None)] + [State(Some(Entry(v, 0)), None, Some(v))] + [State(None, Some(v), Some(v))]
  }

  ghost function DemotedEvents<V>(v: V): seq<Timed<V>>
  {
    [] + [Put(v, 0)] + [Demote(v, 0)]
  }

  lemma Demotion<V>(v: V)
    ensures Run(ENV, DemotedStates(v), DemotedEvents(v)) && TiersAgree(CFG, ENV.owner, DemotedStates(v)[0])
    ensures |DemotedEvents(v)| == 2 && DemotedStates(v)[2] == State(None, Some(v), Some(v))
    ensures LastWrite(map[], DemotedEvents(v)) == map[KEY := v]
  {
    StartAgrees<V>();
    WriteStep(None, None, v, 0);
    DemoteStep(v, 0);
    hide State, Entry, Step, TiersAgree;
    Extend([State(None, None, None)], [], State(None, None, None), Put(v, 0), State(Some(Entry(v, 0)), None, Some(v)));
    Extend([State(None, None, None)] + [State(Some(Entry(v, 0)), None, Some(v))], [] + [Put(v, 0)],
      State(Some(Entry(v, 0)), None, Some(v)), Demote(v, 0), State(None, Some(v), Some(v)));
    assert Entry(v, 0).value == v by { EntryHolds(v, 0); }
  }

  lemma EntryHolds<V>(v: V, now: int)
    ensures Entry(v, now).value == v && Entry(v, now).class_ == NAME
  {
  }

  /** A key is written, demoted, and written again. When the second value expires it
      leaves Hot without a demotion, and the next read answers the first. */
  lemma ExpiryBringsBackOldValue<V>(v1: V, v2: V)
    ensures var states := DemotedStates(v1) + [State(Some(Entry(v2, 1)), Some(v1), Some(v2))]
                          + [State(None, Some(v1), Some(v2))] + [State(Some(Entry(v1, 20)), Some(v1), Some(v2))];
      var events := DemotedEvents(v1) + [Put(v2, 1)] + [Timed(Touch(KEY), 20)] + [Read(v1, 20)];
      && Run(ENV, states, events) && TiersAgree(CFG, ENV.owner, states[0])
      && LastWrite(map[], events) == map[KEY := v2]
  {
    Demotion(v1);
    WriteStep(Some(v1), Some(v1), v2, 1);
    TouchStep(v2, Some(v1));
    ReadStep(v1, Some(v2), 20);
    EntryHolds(v2, 1);
    hide State, Entry, Step, TiersAgree, DemotedStates, DemotedEvents;
    var three := DemotedStates(v1) + [State(Some(Entry(v2, 1)), Some(v1), Some(v2))];
    Extend(DemotedStates(v1), DemotedEvents(v1), State(None, Some(v1), Some(v1)), Put(v2, 1),
      State(Some(Entry(v2, 1)), Some(v1), Some(v2)));
    Extend(three, DemotedEvents(v1) + [Put(v2, 1)], State(Some(Entry(v2, 1)), Some(v1), Some(v2)),
      Timed(Touch(KEY), 20), State(None, Some(v1), Some(v2)));
    Extend(three + [State(None, Some(v1), Some(v2))], DemotedEvents(v1) + [Put(v2, 1)] + [Timed(Touch(KEY), 20)],
      State(None, Some(v1), Some(v2)), Read(v1, 20), State(Some(Entry(v1, 20)), Some(v1), Some(v2)));
  }

  /** A key is written, demoted, and removed while Cold fails. The next read answers
      the value that was removed. */
  lemma FailedRemovalBringsBackOldValue<V>(v: V)
    ensures var states := DemotedStates(v) + [State(None, Some(v), None)] + [State(Some(Entry(v, 2)), Some(v), None)];
      var events := DemotedEvents(v) + [RemoveWhileColdFails<V>(1)] + [Read(v, 2)];
      && Run(ENV, states, events) && TiersAgree(CFG, ENV.owner, states[0])
      && LastWrite(map[], events) == map[]
  {
    Demotion(v);
    RemoveStep(v, 1);
    ReadStep(v, None, 2);
    hide State, Entry, Step, TiersAgree, DemotedStates, DemotedEvents;
    Extend(DemotedStates(v), DemotedEvents(v), State(None, Some(v), Some(v)), RemoveWhileColdFails<V>(1),
      State(None, Some(v), None));
    Extend(DemotedStates(v) + [State(None, Some(v), None)], DemotedEvents(v) + [RemoveWhileColdFails<V>(1)],
      State(None, Some(v), None), Read(v, 2), State(Some(Entry(v, 2)), Some(v), None));
  }
}
