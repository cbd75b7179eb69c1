/** The registry object, changed in place, against the step functions of FlowRegistry. */
module RegistryStore {
  import opened Prelude
  import opened FlowRecord
  import opened FlowRegistry

  /** The registry object: records and running entries are changed in place, step by step,
      and put back when a later step fails. */
  class Registry {
    const cfg: Settings
    var records: Records
    var running: map<FlowId, Running>
    var disk: Option<Records>

    constructor (maxConcurrent: nat, hasDirectory: bool, digest: string -> string)
      ensures cfg == Settings(if maxConcurrent > 1 then maxConcurrent else 1, hasDirectory, digest)
      ensures Abs() == START
    {
      cfg := Settings(if maxConcurrent > 1 then maxConcurrent else 1, hasDirectory, digest);
      records, running, disk := map[], map[], None;
    }

    ghost function Abs(): State
      reads this
    {
      State(records, running, disk)
    }

    method Persist(saved: bool) returns (ok: bool)
      modifies this`disk
      ensures Abs() == Saved(cfg, old(Abs()), saved)
      ensures ok <==> !cfg.hasDirectory || saved
    {
      if !cfg.hasDirectory {
        return true;
      }
      if saved {
        disk := Some(records);
      }
      ok := saved;
    }

    method CreateDraft(parsed: Option<FlowId>, source: string, note: Option<string>, now: nat, saved: bool)
      returns (r: Result<nat, RegistryError>)
      modifies this
      ensures Outcome(Abs(), r) == Step(cfg, old(Abs()), DoCreate(parsed, source, note, now, saved))
    {
      if parsed.None? || parsed.value.text == "" {
        return Err(Validation);
      }
      var id := parsed.value;
      var record := if id in records then records[id] else Created(now);
      var version := NextVersion(record);
      var v := Version(version, Draft, source, cfg.digest(source), now, None, None, None, note);
      records := records[id := record.(versions := record.versions + [v], updatedAt := now)];
      var ok := Persist(saved);
      r := if ok then Ok(version) else Err(Internal);
    }

    method ValidateVersion(id: FlowId, number: nat, parses: bool, now: nat, saved: bool)
      returns (r: Result<nat, RegistryError>)
      modifies this
      ensures Outcome(Abs(), r) == Step(cfg, old(Abs()), DoValidate(id, number, parses, now, saved))
    {
      if id !in records || Position(records[id].versions, number).None? {
        return Err(NotFound);
      }
      if !parses {
        return Err(Validation);
      }
      var record := records[id];
      var i := Position(record.versions, number).value;
      var entry := record.versions[i];
      if entry.state == Archived {
        return Err(InvalidState);
      }
      entry := entry.(state := Validated, validatedAt := Some(now));
      records := records[id := record.(versions := record.versions[i := entry], updatedAt := now)];
      var ok := Persist(saved);
      r := if ok then Ok(number) else Err(Internal);
    }

    method ArchiveVersion(id: FlowId, number: nat, now: nat, saved: bool) returns (r: Result<nat, RegistryError>)
      modifies this
      ensures Outcome(Abs(), r) == Step(cfg, old(Abs()), DoArchive(id, number, now, saved))
    {
      if id in running && running[id].version == number {
        return Err(InvalidState);
      }
      if id !in records || Position(records[id].versions, number).None? {
        return Err(NotFound);
      }
      var record := records[id];
      var i := Position(record.versions, number).value;
      record := record.(versions := record.versions[
        i := record.versions[i].(state := Archived, archivedAt := Some(now))]);
      if record.active == Some(number) {
        record := record.(active := None);
      }
      records := records[id := record.(updatedAt := now)];
      var ok := Persist(saved);
      r := if ok then Ok(number) else Err(Internal);
    }

    /** The previous instance goes back into the map, started again if that works. */
    method RestorePrevious(id: FlowId, previous: Running, f: Faults)
      modifies this`running
      ensures running == old(running)[id := previous.(up := f.reparses && f.restarts)]
    {
      var up := false;
      if f.reparses {
        up := f.restarts;
      }
      running := running[id := Running(previous.version, previous.source, up)];
    }

    method Activate(id: FlowId, number: nat, start: bool, f: Faults, now: nat, allowArchived: bool)
      returns (r: Result<nat, RegistryError>)
      modifies this
      ensures Outcome(Abs(), r) == FlowRegistry.Activate(cfg, old(Abs()), id, number, start, f, now, allowArchived)
    {
      hide Position, NextVersion;
      if id !in records || Position(records[id].versions, number).None? {
        return Err(NotFound);
      }
      var entry := records[id].versions[Position(records[id].versions, number).value];
      if entry.state == Draft || (entry.state == Archived && !allowArchived) {
        return Err(InvalidState);
      }
      if !f.parses {
        return Err(Validation);
      }
      if start && id !in running && |running| >= cfg.capacity {
        return Err(LimitExceeded);
      }
      if !f.opens {
        return Err(Internal);
      }
      ghost var before := running;
      var previous := if id in running then Some(running[id]) else None;
      running := running - {id};
      if previous.Some? && !f.stops {
        running := running[id := previous.value.(up := f.stillUp)];
        PutBack(before, id, previous.value.(up := f.stillUp));
        return Err(Internal);
      }
      if start {
        if !f.starts {
          if previous.Some? {
            RestorePrevious(id, previous.value, f);
            PutBack(before, id, previous.value.(up := f.reparses && f.restarts));
          } else {
            assert running == before;
          }
          return Err(Internal);
        }
        running := running[id := Running(number, entry.source, true)];
        PutBack(before, id, Running(number, entry.source, true));
      }
      MarkDeployed(id, number, now);
      var ok := Persist(f.saved);
      r := Ok(number);
    }

    method MarkDeployed(id: FlowId, number: nat, now: nat)
      requires id in records
      modifies this`records
      ensures records == old(records)[id := Activated(old(records)[id], number, now)]
    {
      var record := records[id];
      if record.active.Some? && record.active.value != number {
        var p := Position(record.versions, record.active.value);
        if p.Some? {
          var entry := record.versions[p.value];
          record := record.(versions := record.versions[p.value := entry.(state := Archived, archivedAt := Some(now))]);
        }
      }
      var i := Position(record.versions, number);
      if i.Some? {
        var entry := record.versions[i.value];
        record := record.(versions := record.versions[i.value := entry.(state := Deployed, deployedAt := Some(now))]);
      }
      records := records[id := record.(active := Some(number), updatedAt := now)];
    }

    method DeployVersion(id: FlowId, number: nat, start: bool, f: Faults, now: nat)
      returns (r: Result<nat, RegistryError>)
      modifies this
      ensures Outcome(Abs(), r) == Step(cfg, old(Abs()), DoDeploy(id, number, start, f, now))
    {
      r := Activate(id, number, start, f, now, false);
    }

    method Rollback(id: FlowId, start: bool, f: Faults, now: nat) returns (r: Result<nat, RegistryError>)
      modifies this
      ensures Outcome(Abs(), r) == Step(cfg, old(Abs()), DoRollback(id, start, f, now))
    {
      hide FlowRegistry.Activate;
      if id !in records {
        return Err(NotFound);
      }
      var target := HighestCandidate(records[id].versions, records[id].active);
      if target.None? {
        return Err(InvalidState);
      }
      r := Activate(id, target.value, start, f, now, true);
    }

    method StopAndUnload(id: FlowId, stops: bool, stillUp: bool) returns (r: Result<nat, RegistryError>)
      modifies this
      ensures Outcome(Abs(), r) == Step(cfg, old(Abs()), DoStop(id, stops, stillUp))
    {
      if id !in running {
        return Err(NotFound);
      }
      ghost var before := running;
      var previous := running[id];
      running := running - {id};
      if stops {
        return Ok(previous.version);
      }
      running := running[id := previous.(up := stillUp)];
      PutBack(before, id, previous.(up := stillUp));
      return Err(Internal);
    }

    method SeedRunning(id: FlowId, source: string, now: nat, saved: bool) returns (r: Result<nat, RegistryError>)
      modifies this
      ensures Outcome(Abs(), r) == Step(cfg, old(Abs()), DoSeed(id, source, now, saved))
    {
      hide Position, NextVersion;
      var record := if id in records then records[id] else Created(now);
      var previous := record.active;
      var version := NextVersion(record);
      var v := Version(version, Deployed, source, cfg.digest(source), now, Some(now), Some(now), None, Some(SEED_NOTE));
      record := record.(versions := record.versions + [v]);
      if previous.Some? {
        var p := Position(record.versions, previous.value);
        if p.Some? {
          var entry := record.versions[p.value];
          record := record.(versions := record.versions[p.value := entry.(state := Archived, archivedAt := Some(now))]);
        }
      }
      records := records[id := record.(active := Some(version), updatedAt := now)];
      running := running[id := Running(version, source, true)];
      var ok := Persist(saved);
      r := if ok then Ok(version) else Err(Internal);
    }
  }

  lemma PutBack(m: map<FlowId, Running>, id: FlowId, entry: Running)
    ensures (m - {id})[id := entry] == m[id := entry]
  {
  }

  /** The rollback search, as one pass over the versions. */
  method HighestCandidate(versions: seq<Version>, active: Option<nat>) returns (best: Option<nat>)
    ensures best == Target(versions, active)
  {
    best := None;
    for i := 0 to |versions|
      invariant best == Target(versions[..i], active)
    {
      assert versions[..i + 1][..i] == versions[..i];
      if Candidate(versions[i], active) && (best.None? || versions[i].number >= best.value) {
        best := Some(versions[i].number);
      }
    }
    assert versions[..|versions|] == versions;
  }
}
