/** The flow registry: versioned records, running instances and the saved registry file.
    Every call is one atomic step whose fallible parts are decided by a fault parameter. */
module FlowRegistry {
  import opened Prelude
  import opened FlowRecord

  datatype FlowId = FlowId(text: string)

  /** A running entry; `up` says whether its supervisor is known to be started. */
  datatype Running = Running(version: nat, source: string, up: bool)

  datatype RegistryError = NotFound | InvalidState | LimitExceeded | Validation | Internal

  datatype Settings = Settings(capacity: nat, hasDirectory: bool, digest: string -> string)

  type Records = map<FlowId, Record>

  /** `disk` is the saved registry file, when there is one. */
  datatype State = State(records: Records, running: map<FlowId, Running>, disk: Option<Records>)

  /** What the parts outside the registry do during one activation. */
  datatype Faults = Faults(
    parses: bool,      // the source still parses and validates
    opens: bool,       // the packet repository opens
    stops: bool,       // the instance in the way drains
    stillUp: bool,     // whether an instance that failed to drain is up
    starts: bool,      // the new instance starts
    reparses: bool,    // the previous source parses again
    restarts: bool,    // the previous instance starts again
    saved: bool        // the registry file is written
  )

  datatype Outcome = Outcome(state: State, reply: Result<nat, RegistryError>)

  // -------------------------------------------------------------- the calls

  function Saved(cfg: Settings, s: State, saved: bool): State
  {
    if cfg.hasDirectory && saved then s.(disk := Some(s.records)) else s
  }

  function Reply(cfg: Settings, n: nat, saved: bool): Result<nat, RegistryError>
  {
    if cfg.hasDirectory && !saved then Err(Internal) else Ok(n)
  }

  function RecordOf(s: State, id: FlowId, now: nat): Record
  {
    if id in s.records then s.records[id] else Created(now)
  }

  function CreateDraft(cfg: Settings, s: State, parsed: Option<FlowId>, source: string, note: Option<string>,
                       now: nat, saved: bool): Outcome
  {
    if parsed.None? || parsed.value.text == "" then Outcome(s, Err(Validation)) else
    var r := RecordOf(s, parsed.value, now);
    var s' := s.(records := s.records[parsed.value := Drafted(r, source, cfg.digest(source), note, now)]);
    Outcome(Saved(cfg, s', saved), Reply(cfg, NextVersion(r), saved))
  }

  function FindVersion(s: State, id: FlowId, number: nat): (r: Option<nat>)
    ensures r.Some? ==> id in s.records && r.value < |s.records[id].versions|
  {
    if id in s.records then Position(s.records[id].versions, number) else None
  }

  function Validate(cfg: Settings, s: State, id: FlowId, number: nat, parses: bool, now: nat, saved: bool): Outcome
  {
    match FindVersion(s, id, number)
    case None => Outcome(s, Err(NotFound))
    case Some(i) =>
      if !parses then Outcome(s, Err(Validation))
      else if s.records[id].versions[i].state == Archived then Outcome(s, Err(InvalidState))
      else
        var s' := s.(records := s.records[id := MarkValidated(s.records[id], i, now)]);
        Outcome(Saved(cfg, s', saved), Reply(cfg, number, saved))
  }

  function Archive(cfg: Settings, s: State, id: FlowId, number: nat, now: nat, saved: bool): Outcome
  {
    if id in s.running && s.running[id].version == number then Outcome(s, Err(InvalidState)) else
    match FindVersion(s, id, number)
    case None => Outcome(s, Err(NotFound))
    case Some(i) =>
      var s' := s.(records := s.records[id := Retired(s.records[id], i, now)]);
      Outcome(Saved(cfg, s', saved), Reply(cfg, number, saved))
  }

  /** Why an activation is refused before anything is touched. */
  function Refusal(cfg: Settings, s: State, id: FlowId, number: nat, start: bool, f: Faults, allowArchived: bool)
    : Option<RegistryError>
  {
    match FindVersion(s, id, number)
    case None => Some(NotFound)
    case Some(i) =>
      var state := s.records[id].versions[i].state;
      if state == Draft || (state == Archived && !allowArchived) then Some(InvalidState)
      else if !f.parses then Some(Validation)
      else if start && id !in s.running && |s.running| >= cfg.capacity then Some(LimitExceeded)
      else if !f.opens then Some(Internal)
      else None
  }

  function Activate(cfg: Settings, s: State, id: FlowId, number: nat, start: bool, f: Faults, now: nat,
                    allowArchived: bool): Outcome
  {
    var refusal := Refusal(cfg, s, id, number, start, f, allowArchived);
    if refusal.Some? then Outcome(s, Err(refusal.value))
    else if id in s.running && !f.stops then
      Outcome(s.(running := s.running[id := s.running[id].(up := f.stillUp)]), Err(Internal))
    else if start && !f.starts then
      if id in s.running then
        Outcome(s.(running := s.running[id := s.running[id].(up := f.reparses && f.restarts)]), Err(Internal))
      else
        Outcome(s, Err(Internal))
    else
      Outcome(Saved(cfg, Switch(s, id, number, FindVersion(s, id, number).value, start, now), f.saved), Ok(number))
  }

  /** The version at position `i` becomes the active one, running or not. */
  function Switch(s: State, id: FlowId, number: nat, i: nat, start: bool, now: nat): State
    requires id in s.records && i < |s.records[id].versions|
  {
    var source := s.records[id].versions[i].source;
    var running := if start then s.running[id := Running(number, source, true)] else s.running - {id};
    s.(records := s.records[id := Activated(s.records[id], number, now)], running := running)
  }

  function Rollback(cfg: Settings, s: State, id: FlowId, start: bool, f: Faults, now: nat): Outcome
  {
    if id !in s.records then Outcome(s, Err(NotFound)) else
    match Target(s.records[id].versions, s.records[id].active)
    case None => Outcome(s, Err(InvalidState))
    case Some(n) => Activate(cfg, s, id, n, start, f, now, true)
  }

  function StopAndUnload(s: State, id: FlowId, stops: bool, stillUp: bool): Outcome
  {
    if id !in s.running then Outcome(s, Err(NotFound))
    else if stops then Outcome(s.(running := s.running - {id}), Ok(s.running[id].version))
    else Outcome(s.(running := s.running[id := s.running[id].(up := stillUp)]), Err(Internal))
  }

  function SeedRunning(cfg: Settings, s: State, id: FlowId, source: string, now: nat, saved: bool): Outcome
  {
    var r := RecordOf(s, id, now);
    var n := NextVersion(r);
    var s' := s.(records := s.records[id := Seeded(r, source, cfg.digest(source), now)],
                 running := s.running[id := Running(n, source, true)]);
    Outcome(Saved(cfg, s', saved), Reply(cfg, n, saved))
  }

  /** A new process: nothing runs, and the registry is what the file says. */
  function Restart(s: State): State
  {
    s.(records := if s.disk.Some? then s.disk.value else map[], running := map[])
  }

  datatype Event =
    | DoCreate(parsed: Option<FlowId>, source: string, note: Option<string>, now: nat, saved: bool)
    | DoValidate(id: FlowId, number: nat, parses: bool, now: nat, saved: bool)
    | DoArchive(id: FlowId, number: nat, now: nat, saved: bool)
    | DoDeploy(id: FlowId, number: nat, start: bool, f: Faults, now: nat)
    | DoRollback(id: FlowId, start: bool, f: Faults, now: nat)
    | DoStop(id: FlowId, stops: bool, stillUp: bool)
    | DoSeed(id: FlowId, source: string, now: nat, saved: bool)
    | DoRestart

  function Step(cfg: Settings, s: State, e: Event): Outcome
  {
    match e
    case DoCreate(parsed, source, note, now, saved) => CreateDraft(cfg, s, parsed, source, note, now, saved)
    case DoValidate(id, number, parses, now, saved) => Validate(cfg, s, id, number, parses, now, saved)
    case DoArchive(id, number, now, saved) => Archive(cfg, s, id, number, now, saved)
    case DoDeploy(id, number, start, f, now) => Activate(cfg, s, id, number, start, f, now, false)
    case DoRollback(id, start, f, now) => Rollback(cfg, s, id, start, f, now)
    case DoStop(id, stops, stillUp) => StopAndUnload(s, id, stops, stillUp)
    case DoSeed(id, source, now, saved) => SeedRunning(cfg, s, id, source, now, saved)
    case DoRestart => Outcome(Restart(s), Ok(0))
  }

  // -------------------------------------------------------------- invariant

  ghost predicate AllSound(records: Records, digest: string -> string)
  {
    forall id :: id in records ==> Sound(records[id], digest)
  }

  /** The running instance of a flow is its active version, with that version's source. */
  ghost predicate RunsActive(records: Records, running: map<FlowId, Running>, id: FlowId)
    requires id in running
  {
    && id in records
    && records[id].active == Some(running[id].version)
    && 1 <= running[id].version <= |records[id].versions|
    && records[id].versions[running[id].version - 1].source == running[id].source
  }

  ghost predicate Inv(cfg: Settings, s: State)
  {
    && AllSound(s.records, cfg.digest)
    && (s.disk.Some? ==> AllSound(s.disk.value, cfg.digest))
    && (forall id :: id in s.running ==> RunsActive(s.records, s.running, id))
  }

  /** Records only gain versions, and no version changes what it was made of. */
  ghost predicate History(a: Records, b: Records)
  {
    forall id :: id in a ==> id in b && Extends(a[id], b[id])
  }

  lemma UpdateKeepsSound(records: Records, digest: string -> string, id: FlowId, r: Record)
    requires AllSound(records, digest) && Sound(r, digest)
    requires id in records ==> Extends(records[id], r)
    ensures AllSound(records[id := r], digest) && History(records, records[id := r])
  {
    hide Sound;
    forall k | k in records
      ensures Extends(records[k], records[id := r][k])
    {
    }
  }

  lemma SaveKeepsInv(cfg: Settings, s: State, saved: bool)
    requires Inv(cfg, s)
    ensures Inv(cfg, Saved(cfg, s, saved))
  {
  }

  /** Changing one record keeps the running entries right when its active version stays. */
  lemma RecordChangeKeepsRuns(records: Records, running: map<FlowId, Running>, id: FlowId, r: Record)
    requires forall k :: k in running ==> RunsActive(records, running, k)
    requires id in records ==> Extends(records[id], r)
    requires id in running && id in records ==> r.active == records[id].active
    ensures forall k :: k in running ==> RunsActive(records[id := r], running, k)
  {
    forall k | k in running
      ensures RunsActive(records[id := r], running, k)
    {
      assert RunsActive(records, running, k);
    }
  }

  lemma DraftKeepsInv(cfg: Settings, s: State, parsed: Option<FlowId>, source: string, note: Option<string>,
                      now: nat, saved: bool)
    requires Inv(cfg, s)
    ensures var o := CreateDraft(cfg, s, parsed, source, note, now, saved);
      Inv(cfg, o.state) && History(s.records, o.state.records)
  {
    if parsed.Some? && parsed.value.text != "" {
      var id, r := parsed.value, RecordOf(s, parsed.value, now);
      assert Sound(r, cfg.digest);
      DraftedIsSound(r, cfg.digest, source, note, now);
      var r' := Drafted(r, source, cfg.digest(source), note, now);
      assert r'.active == r.active;
      hide Sound, Drafted, NextVersion, Extends, RunsActive;
      UpdateKeepsSound(s.records, cfg.digest, id, r');
      RecordChangeKeepsRuns(s.records, s.running, id, r');
      SaveKeepsInv(cfg, s.(records := s.records[id := r']), saved);
    }
  }

  lemma ValidateKeepsInv(cfg: Settings, s: State, id: FlowId, number: nat, parses: bool, now: nat, saved: bool)
    requires Inv(cfg, s)
    ensures var o := Validate(cfg, s, id, number, parses, now, saved);
      Inv(cfg, o.state) && History(s.records, o.state.records)
  {
    var i := FindVersion(s, id, number);
    if i.Some? && s.records[id].versions[i.value].state != Archived {
      var r := s.records[id];
      ValidatedIsSound(r, cfg.digest, i.value, now);
      var r' := MarkValidated(r, i.value, now);
      hide Sound, Extends, RunsActive;
      UpdateKeepsSound(s.records, cfg.digest, id, r');
      RecordChangeKeepsRuns(s.records, s.running, id, r');
      SaveKeepsInv(cfg, s.(records := s.records[id := r']), saved);
    }
  }

  lemma ArchiveKeepsInv(cfg: Settings, s: State, id: FlowId, number: nat, now: nat, saved: bool)
    requires Inv(cfg, s)
    ensures var o := Archive(cfg, s, id, number, now, saved);
      Inv(cfg, o.state) && History(s.records, o.state.records)
  {
    var i := FindVersion(s, id, number);
    if i.Some? && !(id in s.running && s.running[id].version == number) {
      var r := s.records[id];
      RetiredIsSound(r, cfg.digest, i.value, now);
      var r' := Retired(r, i.value, now);
      if id in s.running {
        assert RunsActive(s.records, s.running, id);
        assert r'.active == r.active;
      }
      hide Sound, Extends, RunsActive, Retired;
      UpdateKeepsSound(s.records, cfg.digest, id, r');
      RecordChangeKeepsRuns(s.records, s.running, id, r');
      SaveKeepsInv(cfg, s.(records := s.records[id := r']), saved);
    }
  }

  /** A record and its running entry changed together. */
  lemma SwitchKeepsInv(cfg: Settings, s: State, id: FlowId, r: Record, running: map<FlowId, Running>)
    requires Inv(cfg, s)
    requires Sound(r, cfg.digest) && (id in s.records ==> Extends(s.records[id], r))
    requires running - {id} == s.running - {id}
    requires id in running ==> RunsActive(s.records[id := r], running, id)
    ensures var s' := s.(records := s.records[id := r], running := running);
      Inv(cfg, s') && History(s.records, s'.records)
  {
    UpdateKeepsSound(s.records, cfg.digest, id, r);
    hide Sound, Extends;
    var records := s.records[id := r];
    forall k | k in running
      ensures RunsActive(records, running, k)
    {
      if k != id {
        assert k in running - {id} && k in s.running - {id};
        assert running[k] == (running - {id})[k] == (s.running - {id})[k] == s.running[k];
        assert RunsActive(s.records, s.running, k);
      }
    }
  }

  lemma ActivateKeepsInv(cfg: Settings, s: State, id: FlowId, number: nat, start: bool, f: Faults, now: nat,
                         allowArchived: bool)
    requires Inv(cfg, s)
    ensures var o := Activate(cfg, s, id, number, start, f, now, allowArchived);
      Inv(cfg, o.state) && History(s.records, o.state.records)
  {
    if Activate(cfg, s, id, number, start, f, now, allowArchived).reply.Ok? {
      ActivationIsSwitch(cfg, s, id, number, start, f, now, allowArchived);
      hide Activate, Switch, Sound;
      SwitchKeepsAll(cfg, s, id, number, start, now);
      SaveKeepsInv(cfg, Switch(s, id, number, number - 1, start, now), f.saved);
    } else {
      RefusedActivation(cfg, s, id, number, start, f, now, allowArchived);
      var s' := Activate(cfg, s, id, number, start, f, now, allowArchived).state;
      hide Activate, Sound;
      UpKeepsInv(cfg, s, s'.running);
    }
  }

  /** A successful activation is a switch to a version in a state that allows it. */
  lemma ActivationIsSwitch(cfg: Settings, s: State, id: FlowId, number: nat, start: bool, f: Faults, now: nat,
                           allowArchived: bool)
    requires Inv(cfg, s) && Activate(cfg, s, id, number, start, f, now, allowArchived).reply.Ok?
    ensures id in s.records && 1 <= number <= |s.records[id].versions|
    ensures var state := s.records[id].versions[number - 1].state;
      state != Draft && (state == Archived ==> allowArchived)
    ensures Activate(cfg, s, id, number, start, f, now, allowArchived).state
         == Saved(cfg, Switch(s, id, number, number - 1, start, now), f.saved)
  {
    PositionIsNumber(s.records[id], cfg.digest, number);
    hide Position, Sound, Switch, Saved;
  }

  lemma SwitchKeepsAll(cfg: Settings, s: State, id: FlowId, number: nat, start: bool, now: nat)
    requires Inv(cfg, s) && id in s.records && 1 <= number <= |s.records[id].versions|
    ensures var s' := Switch(s, id, number, number - 1, start, now);
      Inv(cfg, s') && History(s.records, s'.records)
  {
    var r := s.records[id];
    ActivatedAt(r, cfg.digest, number, now);
    ActivatedIsSound(r, cfg.digest, number, now);
    hide Sound, Extends, Activated;
    var running := Switch(s, id, number, number - 1, start, now).running;
    SwitchKeepsInv(cfg, s, id, Activated(r, number, now), running);
  }

  /** The running map up to whether supervisors are up. */
  ghost predicate SameRuns(a: map<FlowId, Running>, b: map<FlowId, Running>)
  {
    && a.Keys == b.Keys
    && forall id :: id in a ==> a[id].version == b[id].version && a[id].source == b[id].source
  }

  lemma UpKeepsInv(cfg: Settings, s: State, running: map<FlowId, Running>)
    requires Inv(cfg, s) && SameRuns(s.running, running)
    ensures Inv(cfg, s.(running := running)) && History(s.records, s.records)
  {
    hide Sound;
    forall k | k in running
      ensures RunsActive(s.records, running, k)
    {
      assert RunsActive(s.records, s.running, k);
    }
  }

  /** A failed deployment changes no record and no running version, of any flow, and saves
      nothing; another flow's entry is not touched at all. */
  lemma RefusedActivation(cfg: Settings, s: State, id: FlowId, number: nat, start: bool, f: Faults, now: nat,
                          allowArchived: bool)
    requires Activate(cfg, s, id, number, start, f, now, allowArchived).reply.Err?
    ensures var s' := Activate(cfg, s, id, number, start, f, now, allowArchived).state;
      && s'.records == s.records && s'.disk == s.disk
      && SameRuns(s.running, s'.running)
      && (forall k :: k in s.running && k != id ==> s'.running[k] == s.running[k])
  {
  }

  lemma FailedDeploymentIsInvisible(cfg: Settings, s: State, e: Event)
    requires (e.DoDeploy? || e.DoRollback?) && Step(cfg, s, e).reply.Err?
    ensures var s' := Step(cfg, s, e).state;
      && s'.records == s.records && s'.disk == s.disk
      && SameRuns(s.running, s'.running)
      && (forall k :: k in s.running && k != e.id ==> s'.running[k] == s.running[k])
  {
    match e
    case DoDeploy(id, number, start, f, now) => RefusedActivation(cfg, s, id, number, start, f, now, false);
    case DoRollback(id, start, f, now) =>
      if id in s.records && Target(s.records[id].versions, s.records[id].active).Some? {
        RefusedActivation(cfg, s, id, Target(s.records[id].versions, s.records[id].active).value, start, f, now, true);
      }
  }

  lemma SeedKeepsInv(cfg: Settings, s: State, id: FlowId, source: string, now: nat, saved: bool)
    requires Inv(cfg, s)
    ensures var o := SeedRunning(cfg, s, id, source, now, saved);
      Inv(cfg, o.state) && History(s.records, o.state.records)
  {
    var r := RecordOf(s, id, now);
    assert Sound(r, cfg.digest);
    NextIsLength(r, cfg.digest);
    SeededIsSound(r, cfg.digest, source, now);
    var r' := Seeded(r, source, cfg.digest(source), now);
    hide Sound, Extends, Seeded, NextVersion;
    var running := s.running[id := Running(|r.versions| + 1, source, true)];
    SwitchKeepsInv(cfg, s, id, r', running);
    SaveKeepsInv(cfg, s.(records := s.records[id := r'], running := running), saved);
  }

  /** Every registry call keeps the invariant, and all but a restart only extend history. */
  lemma StepKeepsInv(cfg: Settings, s: State, e: Event)
    requires Inv(cfg, s)
    ensures Inv(cfg, Step(cfg, s, e).state)
    ensures !e.DoRestart? ==> History(s.records, Step(cfg, s, e).state.records)
  {
    hide Inv, History, CreateDraft, Validate, Archive, Activate, SeedRunning;
    match e
    case DoCreate(parsed, source, note, now, saved) => DraftKeepsInv(cfg, s, parsed, source, note, now, saved);
    case DoValidate(id, number, parses, now, saved) => ValidateKeepsInv(cfg, s, id, number, parses, now, saved);
    case DoArchive(id, number, now, saved) => ArchiveKeepsInv(cfg, s, id, number, now, saved);
    case DoDeploy(id, number, start, f, now) => ActivateKeepsInv(cfg, s, id, number, start, f, now, false);
    case DoRollback(id, start, f, now) =>
      UpKeepsInv(cfg, s, s.running);
      if id in s.records && Target(s.records[id].versions, s.records[id].active).Some? {
        ActivateKeepsInv(cfg, s, id, Target(s.records[id].versions, s.records[id].active).value, start, f, now, true);
      }
    case DoStop(id, stops, stillUp) => StopKeepsInv(cfg, s, id, stops, stillUp);
    case DoSeed(id, source, now, saved) => SeedKeepsInv(cfg, s, id, source, now, saved);
    case DoRestart => RestartKeepsInv(cfg, s);
  }

  lemma StopKeepsInv(cfg: Settings, s: State, id: FlowId, stops: bool, stillUp: bool)
    requires Inv(cfg, s)
    ensures Inv(cfg, StopAndUnload(s, id, stops, stillUp).state)
    ensures History(s.records, StopAndUnload(s, id, stops, stillUp).state.records)
  {
    UpKeepsInv(cfg, s, s.running);
    if id in s.running {
      if stops {
        forall k | k in s.running - {id}
          ensures RunsActive(s.records, s.running - {id}, k)
        {
          assert RunsActive(s.records, s.running, k);
        }
      } else {
        UpKeepsInv(cfg, s, s.running[id := s.running[id].(up := stillUp)]);
      }
    }
  }

  lemma RestartKeepsInv(cfg: Settings, s: State)
    requires Inv(cfg, s)
    ensures Inv(cfg, Restart(s))
  {
  }

  // ------------------------------------------------------------------- runs

  function Run(cfg: Settings, s: State, es: seq<Event>): State
    decreases |es|
  {
    if es == [] then s else Run(cfg, Step(cfg, s, es[0]).state, es[1..])
  }

  const START := State(map[], map[], None)

  ghost predicate NoRestart(es: seq<Event>)
  {
    forall i :: 0 <= i < |es| ==> !es[i].DoRestart?
  }

  lemma HistoryComposes(a: Records, b: Records, c: Records)
    requires History(a, b) && History(b, c)
    ensures History(a, c)
  {
    forall id | id in a
      ensures id in c && Extends(a[id], c[id])
    {
      assert Extends(a[id], b[id]) && Extends(b[id], c[id]);
      forall i | 0 <= i < |a[id].versions|
        ensures Continues(a[id].versions[i], c[id].versions[i])
      {
        assert Continues(a[id].versions[i], b[id].versions[i]);
        assert Continues(b[id].versions[i], c[id].versions[i]);
      }
    }
  }

  lemma HistoryReflexive(a: Records)
    ensures History(a, a)
  {
  }

  /** Over every run: the invariant holds, and without a restart history only grows. */
  lemma {:induction false} RunKeepsInv(cfg: Settings, s: State, es: seq<Event>)
    requires Inv(cfg, s)
    ensures Inv(cfg, Run(cfg, s, es))
    ensures NoRestart(es) ==> History(s.records, Run(cfg, s, es).records)
    decreases |es|
  {
    hide Inv, History, Step;
    if es == [] {
      HistoryReflexive(s.records);
    } else {
      var s' := Step(cfg, s, es[0]).state;
      StepKeepsInv(cfg, s, es[0]);
      RunKeepsInv(cfg, s', es[1..]);
      if NoRestart(es) {
        HistoryComposes(s.records, s'.records, Run(cfg, s', es[1..]).records);
      }
    }
  }

  lemma StartIsSound(cfg: Settings)
    ensures Inv(cfg, START)
  {
  }

  /** So everything proved of the invariant holds of every registry that ever runs. */
  lemma RunFromStart(cfg: Settings, es: seq<Event>)
    ensures Inv(cfg, Run(cfg, START, es))
    ensures SeedsFit(cfg, START, es) ==> |Run(cfg, START, es).running| <= cfg.capacity
  {
    StartIsSound(cfg);
    hide Inv, Run;
    RunKeepsInv(cfg, START, es);
    RunKeepsCapacity(cfg, START, es);
    assert es[..|es|] == es;
  }

  // ------------------------------------------------------------------ rollback

  /** Version `n` of the flow was deployed at some time. */
  ghost predicate OnceDeployed(s: State, id: FlowId, n: nat)
  {
    && id in s.records
    && 1 <= n <= |s.records[id].versions|
    && s.records[id].versions[n - 1].deployedAt.Some?
  }

  lemma DeployMarks(cfg: Settings, s: State, e: Event)
    requires Inv(cfg, s) && e.DoDeploy? && Step(cfg, s, e).reply.Ok?
    ensures OnceDeployed(Step(cfg, s, e).state, e.id, e.number)
    ensures Step(cfg, s, e).state.records[e.id].active == Some(e.number)
  {
    var r := s.records[e.id];
    PositionIsNumber(r, cfg.digest, e.number);
    ActivatedAt(r, cfg.digest, e.number, e.now);
  }

  lemma OnceDeployedStays(a: State, b: State, id: FlowId, n: nat)
    requires OnceDeployed(a, id, n) && History(a.records, b.records)
    ensures OnceDeployed(b, id, n)
  {
    assert Extends(a.records[id], b.records[id]);
    assert Continues(a.records[id].versions[n - 1], b.records[id].versions[n - 1]);
  }

  /** Rollback is refused for want of a target exactly when every version that was ever
      deployed is the active one; otherwise it goes for the highest-numbered other one. */
  lemma RollbackTargetIff(cfg: Settings, s: State, id: FlowId)
    requires Inv(cfg, s) && id in s.records
    ensures var t := Target(s.records[id].versions, s.records[id].active);
      && (t.Some? <==> exists n: nat :: OnceDeployed(s, id, n) && s.records[id].active != Some(n))
      && (t.Some? ==>
           && OnceDeployed(s, id, t.value) && s.records[id].active != Some(t.value)
           && s.records[id].versions[t.value - 1].state == Archived
           && forall n: nat :: OnceDeployed(s, id, n) && s.records[id].active != Some(n) ==> n <= t.value)
  {
    var r := s.records[id];
    TargetOfSound(r, cfg.digest);
    var t := Target(r.versions, r.active);
    hide Target, Inv;
    forall n: nat | OnceDeployed(s, id, n) && r.active != Some(n)
      ensures t.Some? && n <= t.value
    {
      assert r.versions[n - 1].deployedAt.Some? && r.active != Some(n - 1 + 1);
    }
    if t.Some? {
      assert OnceDeployed(s, id, t.value);
    }
  }

  /** After two successful deployments of different versions, with any calls between and
      after them, rollback finds a version to go back to. */
  lemma TwoDeploysAllowRollback(cfg: Settings, s: State, first: Event, between: seq<Event>, second: Event,
                                after: seq<Event>)
    requires Inv(cfg, s) && NoRestart(between) && NoRestart(after)
    requires first.DoDeploy? && second.DoDeploy? && first.id == second.id && first.number != second.number
    requires Step(cfg, s, first).reply.Ok?
    requires Step(cfg, Run(cfg, Step(cfg, s, first).state, between), second).reply.Ok?
    ensures var end := Run(cfg, Step(cfg, Run(cfg, Step(cfg, s, first).state, between), second).state, after);
      first.id in end.records && Target(end.records[first.id].versions, end.records[first.id].active).Some?
  {
    hide Inv, History, OnceDeployed, Step, Run, Target;
    var s1 := Step(cfg, s, first).state;
    StepKeepsInv(cfg, s, first);
    DeployMarks(cfg, s, first);
    var s2 := Run(cfg, s1, between);
    RunKeepsInv(cfg, s1, between);
    OnceDeployedStays(s1, s2, first.id, first.number);
    var s3 := Step(cfg, s2, second).state;
    StepKeepsInv(cfg, s2, second);
    OnceDeployedStays(s2, s3, first.id, first.number);
    DeployMarks(cfg, s2, second);
    var end := Run(cfg, s3, after);
    RunKeepsInv(cfg, s3, after);
    OnceDeployedStays(s3, end, first.id, first.number);
    OnceDeployedStays(s3, end, first.id, second.number);
    OnceDeployedHasRecord(end, first.id, first.number);
    RollbackTargetIff(cfg, end, first.id);
  }

  lemma OnceDeployedHasRecord(s: State, id: FlowId, n: nat)
    requires OnceDeployed(s, id, n)
    ensures id in s.records
  {
  }

  /** A deployment followed by a rollback comes back to the version that was active before
      exactly if no version with a higher number, but the one just deployed, was ever
      deployed. */
  lemma RollbackUndoesDeployIff(cfg: Settings, s: State, e: Event, back: Event)
    requires Inv(cfg, s) && e.DoDeploy? && back.DoRollback? && back.id == e.id && Step(cfg, s, e).reply.Ok?
    requires e.id in s.records && s.records[e.id].active.Some? && s.records[e.id].active != Some(e.number)
    requires Step(cfg, Step(cfg, s, e).state, back).reply.Ok?
    ensures e.id in Step(cfg, Step(cfg, s, e).state, back).state.records
    ensures var r := s.records[e.id];
      Step(cfg, Step(cfg, s, e).state, back).state.records[e.id].active == r.active <==>
        forall i :: r.active.value <= i < |r.versions| && i + 1 != e.number ==> r.versions[i].deployedAt.None?
  {
    hide Sound, Activated, Target, Position;
    var s1 := Step(cfg, s, e).state;
    StepKeepsInv(cfg, s, e);
    ActivationIsSwitch(cfg, s, e.id, e.number, e.start, e.f, e.now, false);
    RollbackReturnsIff(s.records[e.id], cfg.digest, e.number, e.now);
    hide Inv;
    var r1 := s1.records[e.id];
    assert r1 == Activated(s.records[e.id], e.number, e.now);
    var t := Target(r1.versions, r1.active);
    assert t.Some?;
    RolledBackTo(cfg, s1, back);
  }

  lemma RolledBackTo(cfg: Settings, s: State, e: Event)
    requires Inv(cfg, s) && e.DoRollback? && Step(cfg, s, e).reply.Ok?
    ensures e.id in s.records && e.id in Step(cfg, s, e).state.records
    ensures var r := s.records[e.id];
      Target(r.versions, r.active).Some? && Step(cfg, s, e).state.records[e.id].active == Target(r.versions, r.active)
  {
    hide Sound, Position, Target;
    var n := Target(s.records[e.id].versions, s.records[e.id].active).value;
    ActivationIsSwitch(cfg, s, e.id, n, e.start, e.f, e.now, true);
    ActivatedAt(s.records[e.id], cfg.digest, n, e.now);
    hide Activated;
  }

  /** A record seen as the state of each version and whether it was ever deployed. */
  ghost predicate LooksLike(r: Record, look: seq<(VersionState, bool)>, active: Option<nat>)
  {
    && |r.versions| == |look| && r.active == active
    && forall i :: 0 <= i < |look| ==>
         r.versions[i].state == look[i].0 && r.versions[i].deployedAt.Some? == look[i].1
  }

  ghost predicate Looks(cfg: Settings, s: State, id: FlowId, look: seq<(VersionState, bool)>, active: Option<nat>)
  {
    Inv(cfg, s) && LooksLike(RecordOf(s, id, 0), look, active) && (look != [] ==> id in s.records)
  }

  lemma CreateLooks(cfg: Settings, s: State, id: FlowId, look: seq<(VersionState, bool)>)
    requires Looks(cfg, s, id, look, None) && id.text != ""
    ensures Looks(cfg, Step(cfg, s, DoCreate(Some(id), "", None, 0, true)).state, id, look + [(Draft, false)], None)
  {
    StepKeepsInv(cfg, s, DoCreate(Some(id), "", None, 0, true));
    hide Inv, NextVersion;
  }

  lemma ValidateLooks(cfg: Settings, s: State, id: FlowId, look: seq<(VersionState, bool)>, n: nat)
    requires Looks(cfg, s, id, look, None) && 1 <= n <= |look| && look[n - 1] == (Draft, false)
    ensures Looks(cfg, Step(cfg, s, DoValidate(id, n, true, 0, true)).state, id,
                  look[n - 1 := (Validated, false)], None)
  {
    StepKeepsInv(cfg, s, DoValidate(id, n, true, 0, true));
    SoundRecord(cfg, s, id);
    hide Inv;
    PositionIsNumber(s.records[id], cfg.digest, n);
    hide Sound, Position;
  }

  const FINE := Faults(true, true, true, true, true, true, true, true)

  ghost function Deploy(id: FlowId, n: nat): Event
  {
    DoDeploy(id, n, false, FINE, 0)
  }

  ghost function DeployedLook(look: seq<(VersionState, bool)>, active: Option<nat>, n: nat): seq<(VersionState, bool)>
  {
    seq(|look|, i requires 0 <= i < |look| =>
      if i + 1 == n then (Deployed, true)
      else if active == Some(i + 1) then (Archived, look[i].1) else look[i])
  }

  lemma ActivatedLooks(r: Record, digest: string -> string, look: seq<(VersionState, bool)>, active: Option<nat>,
                       n: nat)
    requires Sound(r, digest) && LooksLike(r, look, active) && 1 <= n <= |look|
    ensures LooksLike(Activated(r, n, 0), DeployedLook(look, active, n), Some(n))
  {
    ActivatedAt(r, digest, n, 0);
    hide Sound, Activated;
  }

  lemma FineDeploySucceeds(cfg: Settings, s: State, id: FlowId, n: nat)
    requires id in s.records && Sound(s.records[id], cfg.digest)
    requires 1 <= n <= |s.records[id].versions| && s.records[id].versions[n - 1].state == Validated
    ensures Step(cfg, s, Deploy(id, n)).reply.Ok?
  {
    PositionIsNumber(s.records[id], cfg.digest, n);
    hide Position, Activated, Sound;
  }

  lemma DeployLooks(cfg: Settings, s: State, id: FlowId, look: seq<(VersionState, bool)>, active: Option<nat>, n: nat)
    requires Looks(cfg, s, id, look, active)
    requires 1 <= n <= |look| && look[n - 1].0 == Validated
    ensures var o := Step(cfg, s, Deploy(id, n));
      o.reply.Ok? && Looks(cfg, o.state, id, DeployedLook(look, active, n), Some(n))
  {
    StepKeepsInv(cfg, s, Deploy(id, n));
    SoundRecord(cfg, s, id);
    FineDeploySucceeds(cfg, s, id, n);
    ActivationIsSwitch(cfg, s, id, n, false, FINE, 0, false);
    ActivatedLooks(s.records[id], cfg.digest, look, active, n);
    hide Activate, Activated, Sound, LooksLike, Inv;
  }

  lemma RunOne(cfg: Settings, s: State, es: seq<Event>)
    requires es != []
    ensures Run(cfg, s, es) == Run(cfg, Step(cfg, s, es[0]).state, es[1..])
  {
  }

  ghost function DraftOf(id: FlowId): Event
  {
    DoCreate(Some(id), "", None, 0, true)
  }

  ghost function ValidationOf(id: FlowId, n: nat): Event
  {
    DoValidate(id, n, true, 0, true)
  }

  /** Three versions are drafted and validated; then 3, 1 and 2 are deployed, in this order. */
  ghost function ThreeDeployed(id: FlowId): seq<Event>
  {
    [DraftOf(id), DraftOf(id), DraftOf(id), ValidationOf(id, 1), ValidationOf(id, 2), ValidationOf(id, 3),
     Deploy(id, 3), Deploy(id, 1), Deploy(id, 2)]
  }

  const READY: (VersionState, bool) := (Validated, false)
  const NOW: (VersionState, bool) := (Deployed, true)
  const PAST: (VersionState, bool) := (Archived, true)

  lemma PreparedLooks(cfg: Settings, id: FlowId)
    requires id.text != ""
    ensures Looks(cfg, Run(cfg, START, ThreeDeployed(id)[..6]), id, [READY, READY, READY], None)
  {
    hide Step, Run, Inv;
    var d: (VersionState, bool) := (Draft, false);
    var es := ThreeDeployed(id)[..6];
    StartIsSound(cfg);
    assert Looks(cfg, START, id, [], None);
    hide Looks;
    var s1 := Step(cfg, START, DraftOf(id)).state;
    CreateLooks(cfg, START, id, []);
    var s2 := Step(cfg, s1, DraftOf(id)).state;
    CreateLooks(cfg, s1, id, [d]);
    var s3 := Step(cfg, s2, DraftOf(id)).state;
    CreateLooks(cfg, s2, id, [d, d]);
    var s4 := Step(cfg, s3, ValidationOf(id, 1)).state;
    ValidateLooks(cfg, s3, id, [d, d, d], 1);
    var s5 := Step(cfg, s4, ValidationOf(id, 2)).state;
    ValidateLooks(cfg, s4, id, [READY, d, d], 2);
    var s6 := Step(cfg, s5, ValidationOf(id, 3)).state;
    ValidateLooks(cfg, s5, id, [READY, READY, d], 3);
    RunOne(cfg, START, es);
    RunOne(cfg, s1, es[1..]);
    RunOne(cfg, s2, es[2..]);
    RunOne(cfg, s3, es[3..]);
    RunOne(cfg, s4, es[4..]);
    RunOne(cfg, s5, es[5..]);
    RunNone(cfg, s6, es[6..]);
  }

  lemma RunNone(cfg: Settings, s: State, es: seq<Event>)
    requires es == []
    ensures Run(cfg, s, es) == s
  {
  }

  lemma {:induction false} RunSnoc(cfg: Settings, s: State, es: seq<Event>, n: nat)
    requires n < |es|
    ensures Run(cfg, s, es[..n + 1]) == Step(cfg, Run(cfg, s, es[..n]), es[n]).state
    decreases n
  {
    hide Step;
    if n > 0 {
      RunSnoc(cfg, Step(cfg, s, es[0]).state, es[1..], n - 1);
      assert es[..n + 1][1..] == es[1..][..n] && es[..n][1..] == es[1..][..n - 1];
    }
  }

  lemma RollbackTarget(r: Record, digest: string -> string)
    requires Sound(r, digest) && LooksLike(r, [PAST, NOW, PAST], Some(2))
    ensures Target(r.versions, r.active) == Some(3)
    ensures Position(r.versions, 3) == Some(2)
  {
    TargetOfSound(r, digest);
    PositionIsNumber(r, digest, 3);
    hide Position, Sound, Target;
    assert r.versions[2].deployedAt.Some? && r.active != Some(2 + 1);
  }

  lemma RollbackReaches(cfg: Settings, s: State, id: FlowId)
    requires Looks(cfg, s, id, [PAST, NOW, PAST], Some(2))
    ensures var o := Step(cfg, s, DoRollback(id, false, FINE, 0));
      o.reply == Ok(3) && id in o.state.records && o.state.records[id].active == Some(3)
  {
    var e := DoRollback(id, false, FINE, 0);
    RollbackTarget(s.records[id], cfg.digest) by { SoundRecord(cfg, s, id); }
    hide Position, Activated, Sound, Inv, Target;
    assert Step(cfg, s, e).reply == Ok(3);
    hide Looks, Step, Activate;
    RolledBackTo(cfg, s, e);
  }

  /** One more deployment of the run. */
  lemma DeploySnoc(cfg: Settings, id: FlowId, i: nat, look: seq<(VersionState, bool)>, active: Option<nat>, n: nat,
                   look': seq<(VersionState, bool)>)
    requires i < |ThreeDeployed(id)| && ThreeDeployed(id)[i] == Deploy(id, n)
    requires Looks(cfg, Run(cfg, START, ThreeDeployed(id)[..i]), id, look, active)
    requires 1 <= n <= |look| && look[n - 1].0 == Validated && look' == DeployedLook(look, active, n)
    ensures Looks(cfg, Run(cfg, START, ThreeDeployed(id)[..i + 1]), id, look', Some(n))
  {
    hide Step, Run, DeployedLook, Looks, ThreeDeployed, Deploy;
    RunSnoc(cfg, START, ThreeDeployed(id), i);
    DeployLooks(cfg, Run(cfg, START, ThreeDeployed(id)[..i]), id, look, active, n);
  }

  lemma LooksActive(cfg: Settings, s: State, id: FlowId, look: seq<(VersionState, bool)>, active: Option<nat>)
    requires Looks(cfg, s, id, look, active) && look != []
    ensures id in s.records && s.records[id].active == active
  {
    hide Inv;
  }

  lemma ThreeDeployedLooks(cfg: Settings, id: FlowId)
    requires id.text != ""
    ensures Looks(cfg, Run(cfg, START, ThreeDeployed(id)[..8]), id, [NOW, READY, PAST], Some(1))
    ensures Looks(cfg, Run(cfg, START, ThreeDeployed(id)), id, [PAST, NOW, PAST], Some(2))
  {
    hide Run, Looks, Inv, Step;
    PreparedLooks(cfg, id);
    DeploySnoc(cfg, id, 6, [READY, READY, READY], None, 3, [READY, READY, NOW]);
    DeploySnoc(cfg, id, 7, [READY, READY, NOW], Some(3), 1, [NOW, READY, PAST]);
    DeploySnoc(cfg, id, 8, [NOW, READY, PAST], Some(1), 2, [PAST, NOW, PAST]);
    assert ThreeDeployed(id)[..9] == ThreeDeployed(id);
  }

  /** Rollback need not go back to the version that was deployed last. From the empty
      registry, with 3, 1 and 2 deployed in this order, 1 was active before 2, and rollback
      goes to 3. */
  lemma RollbackSkipsLatest(cfg: Settings, id: FlowId)
    requires id.text != ""
    ensures var before := Run(cfg, START, ThreeDeployed(id)[..8]);
      id in before.records && before.records[id].active == Some(1)
    ensures var s := Run(cfg, START, ThreeDeployed(id));
      var o := Step(cfg, s, DoRollback(id, false, FINE, 0));
      && id in s.records && s.records[id].active == Some(2)
      && o.reply == Ok(3) && id in o.state.records && o.state.records[id].active == Some(3)
  {
    ThreeDeployedLooks(cfg, id);
    LooksActive(cfg, Run(cfg, START, ThreeDeployed(id)[..8]), id, [NOW, READY, PAST], Some(1));
    LooksActive(cfg, Run(cfg, START, ThreeDeployed(id)), id, [PAST, NOW, PAST], Some(2));
    RollbackReaches(cfg, Run(cfg, START, ThreeDeployed(id)), id);
  }

  // ----------------------------------------------------------------- capacity

  /** Seeding checks no limit: this seeding finds the registry full, and its flow is not
      one of those that run. */
  predicate Overfills(cfg: Settings, s: State, e: Event)
  {
    e.DoSeed? && e.id !in s.running && |s.running| >= cfg.capacity
  }

  /** The number of running flows passes the limit, or grows beyond it, exactly by such a
      seeding, and then by one. */
  lemma StepKeepsCapacity(cfg: Settings, s: State, e: Event)
    ensures var n := |Step(cfg, s, e).state.running|;
      && (n > cfg.capacity && n > |s.running| <==> Overfills(cfg, s, e))
      && n <= |s.running| + 1
  {
    hide Activate, Target, StopAndUnload, SeedRunning, CreateDraft, Validate, Archive;
    match e
    case DoCreate(_, _, _, _, _) => MetadataKeepsRunning(cfg, s, e);
    case DoValidate(_, _, _, _, _) => MetadataKeepsRunning(cfg, s, e);
    case DoArchive(_, _, _, _) => MetadataKeepsRunning(cfg, s, e);
    case DoDeploy(id, number, start, f, now) => ActivateKeepsCapacity(cfg, s, id, number, start, f, now, false);
    case DoRollback(id, start, f, now) =>
      if id in s.records && Target(s.records[id].versions, s.records[id].active).Some? {
        ActivateKeepsCapacity(cfg, s, id, Target(s.records[id].versions, s.records[id].active).value, start, f, now,
                              true);
      }
    case DoStop(id, stops, stillUp) => StopKeepsCapacity(s, id, stops, stillUp);
    case DoSeed(id, source, now, saved) =>
      SeedInserts(cfg, s, id, source, now, saved);
      InsertGrows(s.running, SeedRunning(cfg, s, id, source, now, saved).state.running, id);
    case DoRestart =>
  }

  lemma MetadataKeepsRunning(cfg: Settings, s: State, e: Event)
    requires e.DoCreate? || e.DoValidate? || e.DoArchive?
    ensures Step(cfg, s, e).state.running == s.running
  {
    hide Position, Drafted, NextVersion, MarkValidated, Retired;
  }

  lemma StopKeepsCapacity(s: State, id: FlowId, stops: bool, stillUp: bool)
    ensures |StopAndUnload(s, id, stops, stillUp).state.running| <= |s.running|
  {
    RemoveShrinks(s.running, id);
    if id in s.running {
      InsertGrows(s.running, s.running[id := s.running[id].(up := stillUp)], id);
    }
  }

  lemma SeedInserts(cfg: Settings, s: State, id: FlowId, source: string, now: nat, saved: bool)
    ensures SeedRunning(cfg, s, id, source, now, saved).state.running.Keys == s.running.Keys + {id}
  {
    hide Seeded, NextVersion;
  }

  lemma ActivateKeepsCapacity(cfg: Settings, s: State, id: FlowId, number: nat, start: bool, f: Faults, now: nat,
                              allowArchived: bool)
    ensures var n := |Activate(cfg, s, id, number, start, f, now, allowArchived).state.running|;
      && (n <= |s.running| || n <= cfg.capacity)
      && n <= |s.running| + 1
  {
    hide Position, Activated;
    RemoveShrinks(s.running, id);
    InsertGrows(s.running, Activate(cfg, s, id, number, start, f, now, allowArchived).state.running, id);
  }

  lemma RemoveShrinks(m: map<FlowId, Running>, id: FlowId)
    ensures |m - {id}| <= |m|
  {
    assert (m - {id}).Keys == m.Keys - {id};
    assert |(m - {id}).Keys| <= |m.Keys|;
    assert |m - {id}| == |(m - {id}).Keys| && |m| == |m.Keys|;
  }

  lemma InsertGrows(m: map<FlowId, Running>, m': map<FlowId, Running>, id: FlowId)
    ensures m'.Keys == m.Keys + {id} ==> |m'| == |m| + if id in m then 0 else 1
    ensures m'.Keys == m.Keys ==> |m'| == |m|
  {
    assert |m'| == |m'.Keys| && |m| == |m.Keys|;
    if id in m {
      assert m.Keys + {id} == m.Keys;
    }
  }

  /** No seeding of the run finds the registry full. */
  ghost predicate SeedsFit(cfg: Settings, s: State, es: seq<Event>)
    decreases |es|
  {
    es != [] ==> !Overfills(cfg, s, es[0]) && SeedsFit(cfg, Step(cfg, s, es[0]).state, es[1..])
  }

  /** The limit holds after every call of a run exactly if no seeding overfills the registry. */
  lemma {:induction false} RunKeepsCapacity(cfg: Settings, s: State, es: seq<Event>)
    requires |s.running| <= cfg.capacity
    ensures SeedsFit(cfg, s, es) <==> forall n :: 0 <= n <= |es| ==> |Run(cfg, s, es[..n]).running| <= cfg.capacity
    decreases |es|
  {
    hide Step, Overfills;
    if es != [] {
      var s' := Step(cfg, s, es[0]).state;
      StepKeepsCapacity(cfg, s, es[0]);
      forall n | 1 <= n <= |es|
        ensures Run(cfg, s, es[..n]) == Run(cfg, s', es[1..][..n - 1])
      {
        assert es[..n][1..] == es[1..][..n - 1];
      }
      if |s'.running| <= cfg.capacity {
        RunKeepsCapacity(cfg, s', es[1..]);
        assert forall n :: 0 <= n <= |es[1..]| ==> Run(cfg, s', es[1..][..n]) == Run(cfg, s, es[..n + 1]);
      } else {
        assert Run(cfg, s, es[..1]) == s';
      }
    }
  }

  // --------------------------------------------------------------- durability

  ghost predicate Saves(e: Event)
  {
    e.DoCreate? || e.DoValidate? || e.DoArchive? || e.DoSeed?
  }

  /** A metadata call that answers Ok is on disk: a restart finds exactly its records. */
  lemma OkIsDurable(cfg: Settings, s: State, e: Event)
    requires cfg.hasDirectory && Saves(e) && Step(cfg, s, e).reply.Ok?
    ensures Restart(Step(cfg, s, e).state).records == Step(cfg, s, e).state.records
  {
  }

  /** Why a metadata call is refused before it changes anything. Seeding never is. */
  ghost predicate Refused(s: State, e: Event)
    requires Saves(e)
  {
    match e
    case DoCreate(parsed, _, _, _, _) => parsed.None? || parsed.value.text == ""
    case DoValidate(id, number, parses, _, _) =>
      || FindVersion(s, id, number).None? || !parses
      || s.records[id].versions[FindVersion(s, id, number).value].state == Archived
    case DoArchive(id, number, _, _) =>
      (id in s.running && s.running[id].version == number) || FindVersion(s, id, number).None?
    case DoSeed(_, _, _, _) => false
  }

  /** What an answer of a metadata call says: Ok exactly if the call was not refused and
      its save, if there is a file, worked. An Err that is not Internal comes exactly from
      a refusal, and then nothing happened; Internal means that only the save failed. */
  lemma ReplyTellsWhatHappened(cfg: Settings, s: State, e: Event)
    requires Saves(e)
    ensures var o := Step(cfg, s, e);
      && (o.reply.Ok? <==> !Refused(s, e) && (cfg.hasDirectory ==> e.saved))
      && (o.reply.Err? ==> (o.reply == Err(Internal) <==> !Refused(s, e)))
      && (Refused(s, e) ==> o.state == s && o.reply.Err?)
  {
    hide Position, Drafted, Retired, Seeded, NextVersion, MarkValidated;
  }

  /** So an Err from a metadata call does not mean that nothing happened: when only the save
      failed, memory holds what an Ok call would have made, and a restart loses it. */
  lemma FailedSaveKeepsChange(cfg: Settings, s: State, e: Event)
    requires cfg.hasDirectory && Saves(e) && Step(cfg, s, e).reply.Ok?
    ensures var failed := Step(cfg, s, Unsaved(e));
      && failed.reply == Err(Internal)
      && failed.state.records == Step(cfg, s, e).state.records
      && failed.state.running == Step(cfg, s, e).state.running
      && failed.state.disk == s.disk
      && Restart(failed.state) == Restart(s)
  {
  }

  ghost function Unsaved(e: Event): Event
    requires Saves(e)
  {
    match e
    case DoCreate(parsed, source, note, now, _) => DoCreate(parsed, source, note, now, false)
    case DoValidate(id, number, parses, now, _) => DoValidate(id, number, parses, now, false)
    case DoArchive(id, number, now, _) => DoArchive(id, number, now, false)
    case DoSeed(id, source, now, _) => DoSeed(id, source, now, false)
  }

  /** The version that an activation goes for. */
  ghost function Goal(s: State, e: Event): nat
    requires e.DoDeploy? || e.DoRollback?
  {
    if e.DoDeploy? then e.number
    else if e.id in s.records && Target(s.records[e.id].versions, s.records[e.id].active).Some?
    then Target(s.records[e.id].versions, s.records[e.id].active).value
    else 0
  }

  /** An activation answers Ok without its save: a restart finds it exactly if the file was
      written, or said the same before the call. */
  lemma ActivationIsDurableIff(cfg: Settings, s: State, e: Event)
    requires cfg.hasDirectory && (e.DoDeploy? || e.DoRollback?) && Step(cfg, s, e).reply.Ok?
    ensures e.id in s.records
    ensures var s' := Step(cfg, s, e).state;
      && s'.records == s.records[e.id := Activated(s.records[e.id], Goal(s, e), e.now)]
      && (Restart(s').records == s'.records
          <==> e.f.saved || s.disk == Some(s.records[e.id := Activated(s.records[e.id], Goal(s, e), e.now)]))
  {
    hide Activated, Position, Target;
    assert e.id in Step(cfg, s, e).state.records;
    assert Restart(s).records == map[] || s.disk.Some?;
  }

  /** The file cannot have said the same if it was not written at this very instant: then
      exactly the activations whose save worked survive a restart. */
  lemma DurableIffSaved(cfg: Settings, s: State, e: Event)
    requires cfg.hasDirectory && (e.DoDeploy? || e.DoRollback?) && Step(cfg, s, e).reply.Ok?
    requires s.disk.Some? && e.id in s.disk.value ==> s.disk.value[e.id].updatedAt != e.now
    ensures var s' := Step(cfg, s, e).state;
      Restart(s').records == s'.records <==> e.f.saved
  {
    ActivationIsDurableIff(cfg, s, e);
    assert Activated(s.records[e.id], Goal(s, e), e.now).updatedAt == e.now;
    hide Step, Activated;
  }

  // ---------------------------------------------------------------- lifecycle

  /** The arrows of the lifecycle diagram that the calls really draw for one version. */
  ghost predicate Arrow(e: Event, n: nat, wasActive: bool, a: VersionState, b: VersionState)
  {
    || a == b
    || (b == Validated && e.DoValidate? && e.number == n && a != Archived)
    || (b == Archived && e.DoArchive? && e.number == n)
    || (b == Archived && (e.DoDeploy? || e.DoRollback? || e.DoSeed?) && wasActive)
    || (b == Deployed && e.DoDeploy? && e.number == n && a == Validated)
    || (b == Deployed && e.DoRollback? && a == Archived)
  }

  ghost predicate FollowsArrows(e: Event, r: Record, r': Record)
  {
    && |r.versions| <= |r'.versions|
    && forall i :: 0 <= i < |r.versions| ==>
         Arrow(e, i + 1, r.active == Some(i + 1), r.versions[i].state, r'.versions[i].state)
  }

  /** Every call but a restart moves each version of each flow along an arrow. */
  lemma LifecycleIsRespected(cfg: Settings, s: State, e: Event, id: FlowId)
    requires Inv(cfg, s) && id in s.records && !e.DoRestart?
    ensures id in Step(cfg, s, e).state.records
    ensures FollowsArrows(e, s.records[id], Step(cfg, s, e).state.records[id])
  {
    hide Activate, SeedRunning, CreateDraft, Validate, Archive, Sound, FollowsArrows;
    var r := s.records[id];
    match e
    case DoDeploy(k, number, start, f, now) =>
      ActivationFollows(cfg, s, e, k, number, start, f, now, false, id);
    case DoRollback(k, start, f, now) =>
      StayingFollows(e, r);
      if k in s.records {
        TargetOfSound(s.records[k], cfg.digest);
        var t := Target(s.records[k].versions, s.records[k].active);
        hide Target;
        if t.Some? {
          ActivationFollows(cfg, s, e, k, t.value, start, f, now, true, id);
        }
      }
    case DoSeed(k, source, now, saved) => SeedFollows(cfg, s, e, id);
    case DoStop(_, _, _) => StayingFollows(e, r);
    case _ => MetadataFollows(cfg, s, e, id);
  }

  lemma StayingFollows(e: Event, r: Record)
    ensures FollowsArrows(e, r, r)
  {
  }

  lemma MetadataFollows(cfg: Settings, s: State, e: Event, id: FlowId)
    requires Inv(cfg, s) && id in s.records && (e.DoCreate? || e.DoValidate? || e.DoArchive?)
    ensures id in Step(cfg, s, e).state.records
    ensures FollowsArrows(e, s.records[id], Step(cfg, s, e).state.records[id])
  {
    hide Activate, Rollback, StopAndUnload, SeedRunning, Restart;
    var r := s.records[id];
    StayingFollows(e, r);
    match e
    case DoCreate(parsed, source, note, now, saved) =>
      DraftedFollows(e, r, source, cfg.digest(source), note, now);
      hide FollowsArrows, Drafted, NextVersion, Sound;
    case DoValidate(k, number, parses, now, saved) =>
      PositionIsNumber(r, cfg.digest, number);
      if k == id && 1 <= number <= |r.versions| {
        ValidatedFollows(e, r, number - 1, now);
      }
      hide FollowsArrows, MarkValidated, Position, Sound;
    case DoArchive(k, number, now, saved) =>
      PositionIsNumber(r, cfg.digest, number);
      if k == id && 1 <= number <= |r.versions| {
        ValidatedFollows(e, r, number - 1, now);
      }
      hide FollowsArrows, Retired, Position, Sound;
  }

  lemma DraftedFollows(e: Event, r: Record, source: string, checksum: string, note: Option<string>, now: nat)
    ensures FollowsArrows(e, r, Drafted(r, source, checksum, note, now))
  {
    hide NextVersion;
  }

  lemma ValidatedFollows(e: Event, r: Record, i: nat, now: nat)
    requires i < |r.versions|
    ensures e.DoValidate? && e.number == i + 1 && r.versions[i].state != Archived ==>
      FollowsArrows(e, r, MarkValidated(r, i, now))
    ensures e.DoArchive? && e.number == i + 1 ==> FollowsArrows(e, r, Retired(r, i, now))
  {
  }

  lemma ActivatedFollows(e: Event, r: Record, digest: string -> string, number: nat, now: nat)
    requires Sound(r, digest) && 1 <= number <= |r.versions|
    requires
      || (e.DoDeploy? && e.number == number && r.versions[number - 1].state in {Validated, Deployed})
      || (e.DoRollback? && r.versions[number - 1].state == Archived)
    ensures FollowsArrows(e, r, Activated(r, number, now))
  {
    ActivatedAt(r, digest, number, now);
    hide Sound, Activated;
  }

  lemma ActivationFollows(cfg: Settings, s: State, e: Event, k: FlowId, number: nat, start: bool, f: Faults, now: nat,
                          allowArchived: bool, id: FlowId)
    requires Inv(cfg, s) && id in s.records
    requires
      || (e.DoDeploy? && e.number == number && !allowArchived)
      || (e.DoRollback? && k in s.records && 1 <= number <= |s.records[k].versions|
           && s.records[k].versions[number - 1].state == Archived)
    ensures var s' := Activate(cfg, s, k, number, start, f, now, allowArchived).state;
      id in s'.records && FollowsArrows(e, s.records[id], s'.records[id])
  {
    hide Activated, FollowsArrows;
    StayingFollows(e, s.records[id]);
    if Activate(cfg, s, k, number, start, f, now, allowArchived).reply.Ok? {
      ActivationIsSwitch(cfg, s, k, number, start, f, now, allowArchived);
      hide Activate, Inv;
      if k == id {
        ActivatedFollows(e, s.records[k], cfg.digest, number, now) by { SoundRecord(cfg, s, k); }
      }
    } else {
      RefusedActivation(cfg, s, k, number, start, f, now, allowArchived);
      hide Activate, Inv;
    }
  }

  lemma SoundRecord(cfg: Settings, s: State, id: FlowId)
    requires Inv(cfg, s) && id in s.records
    ensures Sound(s.records[id], cfg.digest)
  {
  }

  lemma SeedFollows(cfg: Settings, s: State, e: Event, id: FlowId)
    requires Inv(cfg, s) && id in s.records && e.DoSeed?
    ensures var s' := Step(cfg, s, e).state;
      id in s'.records && FollowsArrows(e, s.records[id], s'.records[id])
  {
    if e.id == id {
      var r := s.records[id];
      NextIsLength(r, cfg.digest);
      if r.active.Some? {
        var v := Version(NextVersion(r), Deployed, e.source, cfg.digest(e.source), e.now, Some(e.now), Some(e.now),
                         None, Some(SEED_NOTE));
        SeededPosition(r, cfg.digest, v);
      }
      hide Sound, Position, NextVersion;
    }
  }

  /** The active version need not be DEPLOYED: validating it again moves it to VALIDATED
      while it stays active and keeps running. */
  lemma RevalidationUndeploys(cfg: Settings, s: State, id: FlowId, now: nat)
    requires Inv(cfg, s) && id in s.records && s.records[id].active.Some?
    ensures var n := s.records[id].active.value;
      var s' := Validate(cfg, s, id, n, true, now, true).state;
      && 1 <= n <= |s'.records[id].versions|
      && s'.records[id].versions[n - 1].state == Validated
      && s'.records[id].active == Some(n)
      && s'.running == s.running
  {
    var r := s.records[id];
    PositionIsNumber(r, cfg.digest, r.active.value);
    assert VersionSound(r, r.active.value - 1, cfg.digest);
  }

  ghost predicate ActiveDeployed(r: Record)
  {
    && r.active.Some? && 1 <= r.active.value <= |r.versions|
    && r.versions[r.active.value - 1].state == Deployed
  }

  /** The call validates the active version of the flow again. */
  ghost predicate Revalidates(s: State, e: Event, id: FlowId)
  {
    e.DoValidate? && e.id == id && id in s.records && s.records[id].active == Some(e.number) && e.parses
  }

  /** From a flow whose active version is DEPLOYED, every call but a restart leaves it with
      no active version or with a DEPLOYED one, except one call: validating the active
      version again, which always takes it out of DEPLOYED. */
  lemma ActiveStaysDeployedIff(cfg: Settings, s: State, e: Event, id: FlowId)
    requires Inv(cfg, s) && !e.DoRestart? && id in s.records && ActiveDeployed(s.records[id])
    ensures id in Step(cfg, s, e).state.records
    ensures var r' := Step(cfg, s, e).state.records[id];
      r'.active.Some? ==> (ActiveDeployed(r') <==> !Revalidates(s, e, id))
  {
    hide ActiveDeployed, Activate, SeedRunning, CreateDraft, Validate, Archive, Target;
    match e
    case DoDeploy(k, number, start, f, now) => ActivationDeploys(cfg, s, k, number, start, f, now, false, id);
    case DoRollback(k, start, f, now) =>
      if k in s.records && Target(s.records[k].versions, s.records[k].active).Some? {
        ActivationDeploys(cfg, s, k, Target(s.records[k].versions, s.records[k].active).value, start, f, now, true, id);
      }
    case DoStop(_, _, _) =>
    case _ => MetadataDeploysIff(cfg, s, e, id);
  }

  lemma MetadataDeploysIff(cfg: Settings, s: State, e: Event, id: FlowId)
    requires Inv(cfg, s) && Saves(e) && id in s.records && ActiveDeployed(s.records[id])
    ensures id in Step(cfg, s, e).state.records
    ensures var r' := Step(cfg, s, e).state.records[id];
      r'.active.Some? ==> (ActiveDeployed(r') <==> !Revalidates(s, e, id))
  {
    var r := s.records[id];
    SoundRecord(cfg, s, id);
    hide Inv, Sound, ActiveDeployed, Drafted, Seeded, NextVersion, Position, MarkValidated, Retired;
    hide Activate, Rollback, StopAndUnload, Restart;
    match e
    case DoCreate(parsed, source, note, now, saved) => DraftDeploys(r, source, cfg.digest(source), note, now);
    case DoValidate(k, number, parses, now, saved) => NumberDeploysIff(r, cfg.digest, number, now);
    case DoArchive(k, number, now, saved) => NumberDeploysIff(r, cfg.digest, number, now);
    case DoSeed(k, source, now, saved) => SeedDeploys(r, cfg.digest, source, now);
  }

  lemma DraftDeploys(r: Record, source: string, checksum: string, note: Option<string>, now: nat)
    requires ActiveDeployed(r)
    ensures ActiveDeployed(Drafted(r, source, checksum, note, now))
  {
    hide NextVersion;
  }

  lemma NumberDeploysIff(r: Record, digest: string -> string, number: nat, now: nat)
    requires Sound(r, digest) && ActiveDeployed(r)
    ensures r.active == Some(number) ==>
      Position(r.versions, number).Some? && r.versions[Position(r.versions, number).value].state == Deployed
    ensures var i := Position(r.versions, number);
      i.Some? ==>
        && (ActiveDeployed(MarkValidated(r, i.value, now)) <==> r.active != Some(number))
        && (Retired(r, i.value, now).active.Some? ==> ActiveDeployed(Retired(r, i.value, now)))
  {
    PositionIsNumber(r, digest, number);
    SoundIsNumbered(r, digest);
    hide Position, Sound, VersionSound;
  }

  lemma ActivationDeploys(cfg: Settings, s: State, k: FlowId, number: nat, start: bool, f: Faults, now: nat,
                          allowArchived: bool, id: FlowId)
    requires Inv(cfg, s) && id in s.records && ActiveDeployed(s.records[id])
    ensures var s' := Activate(cfg, s, k, number, start, f, now, allowArchived).state;
      id in s'.records && ActiveDeployed(s'.records[id])
  {
    hide Activated;
    if Activate(cfg, s, k, number, start, f, now, allowArchived).reply.Ok? {
      ActivationIsSwitch(cfg, s, k, number, start, f, now, allowArchived);
      hide Activate;
      ActivatedAt(s.records[k], cfg.digest, number, now) by { SoundRecord(cfg, s, k); }
      hide Inv;
    } else {
      RefusedActivation(cfg, s, k, number, start, f, now, allowArchived);
      hide Activate, Inv;
    }
  }

  lemma SeedDeploys(r: Record, digest: string -> string, source: string, now: nat)
    requires Sound(r, digest)
    ensures ActiveDeployed(Seeded(r, source, digest(source), now))
  {
    SeededIsSound(r, digest, source, now);
    NextIsLength(r, digest);
    if r.active.Some? {
      SeededPosition(r, digest, Version(|r.versions| + 1, Deployed, source, digest(source), now, Some(now), Some(now),
                                        None, Some(SEED_NOTE)));
    }
    hide Sound, Position;
  }
}
