/** When each call of the flow registry succeeds, and what a successful call leaves, in terms
    of the versions, the running flows and the faults alone. */
module FlowAnswers {
  import opened Prelude
  import opened FlowRecord
  import opened FlowRegistry

  // -------------------------------------------------------------- successes

  /** The version exists, has been validated, is not retired, and still parses. */
  ghost predicate Deployable(s: State, id: FlowId, number: nat, parses: bool, archivedToo: bool)
  {
    && id in s.records && 1 <= number <= |s.records[id].versions|
    && MayActivate(s.records[id].versions[number - 1].state, archivedToo)
    && parses
  }

  ghost predicate MayActivate(state: VersionState, archivedToo: bool)
  {
    state == Validated || state == Deployed || (state == Archived && archivedToo)
  }

  /** What happens outside the registry lets the activation through: a place, if the flow
      is to run and does not yet; the repository; the instance in the way; the new one. */
  ghost predicate GoesThrough(cfg: Settings, s: State, id: FlowId, start: bool, f: Faults)
  {
    && (start && id !in s.running ==> |s.running| < cfg.capacity)
    && f.opens
    && (id in s.running ==> f.stops)
    && (start ==> f.starts)
  }

  /** When an activation answers Ok, and what each other answer means. */
  lemma ActivationAnswers(cfg: Settings, s: State, id: FlowId, number: nat, start: bool, f: Faults, now: nat,
                          archivedToo: bool)
    requires Inv(cfg, s)
    ensures var reply := Activate(cfg, s, id, number, start, f, now, archivedToo).reply;
      var known := id in s.records && 1 <= number <= |s.records[id].versions|;
      var full := start && id !in s.running && |s.running| >= cfg.capacity;
      && (reply.Ok? <==> Deployable(s, id, number, f.parses, archivedToo) && GoesThrough(cfg, s, id, start, f))
      && (reply.Ok? ==> reply.value == number)
      && (reply == Err(NotFound) <==> !known)
      && (reply == Err(InvalidState) <==> known && !Deployable(s, id, number, true, archivedToo))
      && (reply == Err(Validation) <==> Deployable(s, id, number, true, archivedToo) && !f.parses)
      && (reply == Err(LimitExceeded) <==> Deployable(s, id, number, f.parses, archivedToo) && full)
      && (reply == Err(Internal) <==>
           Deployable(s, id, number, f.parses, archivedToo) && !full && !GoesThrough(cfg, s, id, start, f))
  {
    if id in s.records {
      PositionIsNumber(s.records[id], cfg.digest, number);
    }
    hide Position, Activated, Sound, AllSound, RunsActive;
  }

  lemma DeployAnswers(cfg: Settings, s: State, e: Event)
    requires Inv(cfg, s) && e.DoDeploy?
    ensures Step(cfg, s, e).reply.Ok? <==>
      Deployable(s, e.id, e.number, e.f.parses, false) && GoesThrough(cfg, s, e.id, e.start, e.f)
  {
    ActivationAnswers(cfg, s, e.id, e.number, e.start, e.f, e.now, false);
    hide Inv, Activate, Deployable, GoesThrough;
  }

  /** Rollback answers Ok exactly if the flow has a version that was deployed once and is not
      active, and the highest of them still parses and goes through. */
  lemma RollbackAnswers(cfg: Settings, s: State, e: Event)
    requires Inv(cfg, s) && e.DoRollback?
    ensures Step(cfg, s, e).reply.Ok? <==>
      && (exists n: nat :: OnceDeployed(s, e.id, n) && s.records[e.id].active != Some(n))
      && e.f.parses && GoesThrough(cfg, s, e.id, e.start, e.f)
    ensures Step(cfg, s, e).reply.Ok? ==>
      var n := Step(cfg, s, e).reply.value;
      && OnceDeployed(s, e.id, n) && s.records[e.id].active != Some(n)
      && forall m: nat :: OnceDeployed(s, e.id, m) && s.records[e.id].active != Some(m) ==> m <= n
  {
    if e.id in s.records {
      RollbackTargetIff(cfg, s, e.id);
      var t := Target(s.records[e.id].versions, s.records[e.id].active);
      if t.Some? {
        ActivationAnswers(cfg, s, e.id, t.value, e.start, e.f, e.now, true);
      }
    }
    hide Inv, Activate, GoesThrough, Target;
  }

  /** The other calls. A save that fails is told apart by Internal alone. */
  lemma MetadataAnswers(cfg: Settings, s: State, e: Event)
    requires Inv(cfg, s) && (e.DoCreate? || e.DoValidate? || e.DoArchive?)
    ensures var reply := Step(cfg, s, e).reply;
      var written := cfg.hasDirectory ==> e.saved;
      && (e.DoCreate? ==> (reply.Ok? <==> e.parsed.Some? && e.parsed.value.text != "" && written))
      && (e.DoValidate? ==>
           (reply.Ok? <==>
             && e.id in s.records && 1 <= e.number <= |s.records[e.id].versions|
             && e.parses && s.records[e.id].versions[e.number - 1].state != Archived && written))
      && (e.DoArchive? ==>
           (reply.Ok? <==>
             && e.id in s.records && 1 <= e.number <= |s.records[e.id].versions|
             && !(e.id in s.running && s.running[e.id].version == e.number) && written))
  {
    if !e.DoCreate? && e.id in s.records {
      PositionIsNumber(s.records[e.id], cfg.digest, e.number);
    }
    hide Position, Drafted, NextVersion, MarkValidated, Retired, Sound, AllSound, RunsActive;
  }

  lemma StopAnswers(cfg: Settings, s: State, e: Event)
    requires e.DoStop? || e.DoSeed?
    ensures e.DoStop? ==>
      var o := Step(cfg, s, e);
      && (o.reply.Ok? <==> e.id in s.running && e.stops)
      && (o.reply.Ok? ==> o.reply.value == s.running[e.id].version && o.state == s.(running := s.running - {e.id}))
      && (o.reply.Err? ==> o.reply.error == if e.id in s.running then Internal else NotFound)
      && (o.reply.Err? ==>
           o.state ==
             if e.id in s.running then s.(running := s.running[e.id := s.running[e.id].(up := e.stillUp)]) else s)
    ensures e.DoSeed? ==> (Step(cfg, s, e).reply.Ok? <==> (cfg.hasDirectory ==> e.saved))
  {
    hide Seeded, NextVersion;
  }

  // ---------------------------------------------------------------- effects

  /** A draft is appended with the next number; nothing else of the record changes. */
  lemma DraftLeaves(cfg: Settings, s: State, e: Event)
    requires Inv(cfg, s) && e.DoCreate? && Step(cfg, s, e).reply.Ok?
    ensures var id, t := e.parsed.value, Step(cfg, s, e).state;
      var r := if id in s.records then s.records[id] else Record([], None, e.now, e.now);
      && t.running == s.running && t.records.Keys == s.records.Keys + {id}
      && (forall k :: k in s.records && k != id ==> t.records[k] == s.records[k])
      && t.records[id] == r.(
           versions := r.versions
             + [Version(|r.versions| + 1, Draft, e.source, cfg.digest(e.source), e.now, None, None, None, e.note)],
           updatedAt := e.now)
  {
    var r := RecordOf(s, e.parsed.value, e.now);
    assert Sound(r, cfg.digest);
    NextIsLength(r, cfg.digest);
    hide NextVersion, Sound, AllSound, RunsActive;
  }

  /** A validation changes the state and the date of its version. */
  lemma ValidationLeaves(cfg: Settings, s: State, e: Event)
    requires Inv(cfg, s) && e.DoValidate? && Step(cfg, s, e).reply.Ok?
    ensures e.id in s.records && 1 <= e.number <= |s.records[e.id].versions|
    ensures var r := s.records[e.id];
      var v := r.versions[e.number - 1].(state := Validated, validatedAt := Some(e.now));
      && Step(cfg, s, e).state.running == s.running
      && Step(cfg, s, e).state.records ==
           s.records[e.id := r.(versions := r.versions[e.number - 1 := v], updatedAt := e.now)]
  {
    MetadataAnswers(cfg, s, e);
    PositionIsNumber(s.records[e.id], cfg.digest, e.number);
    hide Position, Sound, AllSound, RunsActive;
  }

  /** Archiving changes the state and the date of its version, which is active no more. */
  lemma ArchivingLeaves(cfg: Settings, s: State, e: Event)
    requires Inv(cfg, s) && e.DoArchive? && Step(cfg, s, e).reply.Ok?
    ensures e.id in s.records && 1 <= e.number <= |s.records[e.id].versions|
    ensures var r := s.records[e.id];
      var v := r.versions[e.number - 1].(state := Archived, archivedAt := Some(e.now));
      && Step(cfg, s, e).state.running == s.running
      && Step(cfg, s, e).state.records ==
           s.records[e.id := r.(versions := r.versions[e.number - 1 := v], updatedAt := e.now,
                                active := if r.active == Some(e.number) then None else r.active)]
  {
    MetadataAnswers(cfg, s, e);
    PositionIsNumber(s.records[e.id], cfg.digest, e.number);
    SoundRecord(cfg, s, e.id);
    SoundIsNumbered(s.records[e.id], cfg.digest);
    hide Position, Sound, AllSound, RunsActive;
  }

  /** A deployment or rollback to version `n`: the record changes as `ActivatedAt` says, the
      flow runs exactly if it was to start, with that version's source, and no other flow
      changes. */
  lemma ActivationLeaves(cfg: Settings, s: State, e: Event)
    requires Inv(cfg, s) && (e.DoDeploy? || e.DoRollback?) && Step(cfg, s, e).reply.Ok?
    ensures var n, t := Step(cfg, s, e).reply.value, Step(cfg, s, e).state;
      && (e.DoDeploy? ==> n == e.number)
      && e.id in s.records && 1 <= n <= |s.records[e.id].versions|
      && t.running == (if e.start then s.running[e.id := Running(n, s.records[e.id].versions[n - 1].source, true)]
                       else s.running - {e.id})
      && t.records.Keys == s.records.Keys
      && (forall k :: k in s.records && k != e.id ==> t.records[k] == s.records[k])
      && ActivatesTo(s.records[e.id], t.records[e.id], n, e.now)
      && t.disk == if cfg.hasDirectory && e.f.saved then Some(t.records) else s.disk
  {
    var n := Goal(s, e);
    GoalIsActivated(cfg, s, e);
    ActivationIsSwitch(cfg, s, e.id, n, e.start, e.f, e.now, e.DoRollback?);
    ActivationAnswers(cfg, s, e.id, n, e.start, e.f, e.now, e.DoRollback?);
    SwitchLeaves(cfg, s, e.id, n, e.start, e.now, e.f.saved);
    hide *;
  }

  /** A failed activation leaves the instance in the way running: untouched if it was refused
      before, up as it was found if it could not be stopped, and otherwise up exactly if its
      source parsed and it started again. */
  lemma FailedActivationLeaves(cfg: Settings, s: State, id: FlowId, number: nat, start: bool, f: Faults, now: nat,
                               archivedToo: bool)
    requires Inv(cfg, s) && Activate(cfg, s, id, number, start, f, now, archivedToo).reply.Err?
    ensures var t := Activate(cfg, s, id, number, start, f, now, archivedToo).state;
      var refused := !Deployable(s, id, number, f.parses, archivedToo) || !f.opens
                     || (start && id !in s.running && |s.running| >= cfg.capacity);
      if refused || id !in s.running then t == s
      else t == s.(running := s.running[id := s.running[id].(up := if f.stops then f.reparses && f.restarts
                                                                   else f.stillUp)])
  {
    if id in s.records {
      PositionIsNumber(s.records[id], cfg.digest, number);
    }
    hide Position, Activated, Sound, AllSound, RunsActive;
  }

  lemma GoalIsActivated(cfg: Settings, s: State, e: Event)
    requires (e.DoDeploy? || e.DoRollback?) && Step(cfg, s, e).reply.Ok?
    ensures Step(cfg, s, e) == Activate(cfg, s, e.id, Goal(s, e), e.start, e.f, e.now, e.DoRollback?)
    ensures e.DoDeploy? ==> Goal(s, e) == e.number
  {
    hide Activate, Target;
  }

  lemma SwitchLeaves(cfg: Settings, s: State, id: FlowId, n: nat, start: bool, now: nat, saved: bool)
    requires Inv(cfg, s) && id in s.records && 1 <= n <= |s.records[id].versions|
    ensures var t := Saved(cfg, Switch(s, id, n, n - 1, start, now), saved);
      && t.running == (if start then s.running[id := Running(n, s.records[id].versions[n - 1].source, true)]
                       else s.running - {id})
      && t.records.Keys == s.records.Keys
      && (forall k :: k in s.records && k != id ==> t.records[k] == s.records[k])
      && ActivatesTo(s.records[id], t.records[id], n, now)
      && t.disk == if cfg.hasDirectory && saved then Some(t.records) else s.disk
  {
    SoundRecord(cfg, s, id);
    hide Inv;
    ActivatedAt(s.records[id], cfg.digest, n, now);
    hide Activated, Sound;
  }

  /** Version `n` is DEPLOYED and active; the version that was active before is ARCHIVED. */
  ghost predicate ActivatesTo(r: Record, r': Record, n: nat, now: nat)
  {
    && |r'.versions| == |r.versions| && r'.active == Some(n) && r'.createdAt == r.createdAt
    && forall i :: 0 <= i < |r.versions| ==>
      r'.versions[i] ==
        if i + 1 == n then r.versions[i].(state := Deployed, deployedAt := Some(now))
        else if r.active == Some(i + 1) then r.versions[i].(state := Archived, archivedAt := Some(now))
        else r.versions[i]
  }

  /** Seeding appends a DEPLOYED version that is active and runs; the version that was
      active before is ARCHIVED. */
  lemma SeedingLeaves(cfg: Settings, s: State, e: Event)
    requires Inv(cfg, s) && e.DoSeed?
    ensures var id, t := e.id, Step(cfg, s, e).state;
      var r := if id in s.records then s.records[id] else Record([], None, e.now, e.now);
      && t.records.Keys == s.records.Keys + {id}
      && (forall k :: k in s.records && k != id ==> t.records[k] == s.records[k])
      && t.running == s.running[id := Running(|r.versions| + 1, e.source, true)]
      && SeedsTo(r, t.records[id],
           Version(|r.versions| + 1, Deployed, e.source, cfg.digest(e.source), e.now, Some(e.now), Some(e.now), None,
                   Some("servido por CLI")), e.now)
  {
    var r := RecordOf(s, e.id, e.now);
    assert Sound(r, cfg.digest);
    NextIsLength(r, cfg.digest);
    SeededAt(r, cfg.digest, e.source, e.now);
    hide Seeded, NextVersion, Sound, AllSound, RunsActive;
  }

  ghost predicate SeedsTo(r: Record, r': Record, v: Version, now: nat)
  {
    && |r'.versions| == |r.versions| + 1 && r'.versions[|r.versions|] == v
    && r'.active == Some(|r.versions| + 1) && r'.createdAt == r.createdAt && r'.updatedAt == now
    && forall i :: 0 <= i < |r.versions| ==>
      r'.versions[i] ==
        if r.active == Some(i + 1) then r.versions[i].(state := Archived, archivedAt := Some(now)) else r.versions[i]
  }

  lemma SeededAt(r: Record, digest: string -> string, source: string, now: nat)
    requires Sound(r, digest)
    ensures SeedsTo(r, Seeded(r, source, digest(source), now),
              Version(|r.versions| + 1, Deployed, source, digest(source), now, Some(now), Some(now), None,
                      Some("servido por CLI")), now)
  {
    NextIsLength(r, digest);
    var v := Version(|r.versions| + 1, Deployed, source, digest(source), now, Some(now), Some(now), None,
                     Some("servido por CLI"));
    if r.active.Some? {
      ActiveInRange(r, digest);
      SeededPosition(r, digest, v);
    }
    hide NextVersion, Position, Sound;
  }

  /** A restart finds the saved records, if any, and nothing running. */
  lemma RestartLeaves(cfg: Settings, s: State)
    ensures var t := Step(cfg, s, DoRestart).state;
      && t.running == map[] && t.disk == s.disk
      && t.records == if s.disk.Some? then s.disk.value else map[]
  {
  }
}
