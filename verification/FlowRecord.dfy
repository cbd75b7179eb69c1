/** One flow's version history: the record-level transitions of the registry and what each
    of them keeps. */
module FlowRecord {
  import opened Prelude

  datatype VersionState = Draft | Validated | Deployed | Archived

  datatype Version = Version(
    number: nat,
    state: VersionState,
    source: string,
    checksum: string,
    createdAt: nat,
    validatedAt: Option<nat>,
    deployedAt: Option<nat>,
    archivedAt: Option<nat>,
    note: Option<string>
  )

  datatype Record = Record(versions: seq<Version>, active: Option<nat>, createdAt: nat, updatedAt: nat)

  // ------------------------------------------------------------- lookups

  /** Position of the first version carrying the number. */
  function Position(versions: seq<Version>, number: nat): (r: Option<nat>)
    ensures r.Some? ==> r.value < |versions| && versions[r.value].number == number
    ensures r.None? ==> forall i :: 0 <= i < |versions| ==> versions[i].number != number
  {
    if versions == [] then None
    else if versions[0].number == number then Some(0)
    else match Position(versions[1..], number)
      case Some(i) => Some(i + 1)
      case None => assert forall i :: 1 <= i < |versions| ==> versions[i] == versions[1..][i - 1]; None
  }

  function Highest(versions: seq<Version>): (r: nat)
    ensures forall i :: 0 <= i < |versions| ==> versions[i].number <= r
    ensures r == 0 || exists i :: 0 <= i < |versions| && versions[i].number == r
  {
    if versions == [] then 0 else
    var last := versions[|versions| - 1].number;
    var rest := Highest(versions[..|versions| - 1]);
    assert forall i :: 0 <= i < |versions| - 1 ==> versions[..|versions| - 1][i] == versions[i];
    if last >= rest then last else rest
  }

  function NextVersion(r: Record): nat
  {
    Highest(r.versions) + 1
  }

  /** A version rollback may return to. */
  predicate Candidate(v: Version, active: Option<nat>)
  {
    v.deployedAt.Some? && Some(v.number) != active && (v.state == Archived || v.state == Deployed)
  }

  function Target(versions: seq<Version>, active: Option<nat>): (r: Option<nat>)
  {
    if versions == [] then None else
    var last := versions[|versions| - 1];
    var rest := Target(versions[..|versions| - 1], active);
    if Candidate(last, active) && (rest.None? || last.number >= rest.value) then Some(last.number) else rest
  }

  // --------------------------------------------------------- transitions

  function Created(now: nat): Record
  {
    Record([], None, now, now)
  }

  function Drafted(r: Record, source: string, checksum: string, note: Option<string>, now: nat): Record
  {
    var v := Version(NextVersion(r), Draft, source, checksum, now, None, None, None, note);
    r.(versions := r.versions + [v], updatedAt := now)
  }

  function MarkValidated(r: Record, i: nat, now: nat): Record
    requires i < |r.versions|
  {
    r.(versions := r.versions[i := r.versions[i].(state := Validated, validatedAt := Some(now))], updatedAt := now)
  }

  function MarkArchived(r: Record, i: nat, now: nat): Record
    requires i < |r.versions|
  {
    r.(versions := r.versions[i := r.versions[i].(state := Archived, archivedAt := Some(now))])
  }

  function Retired(r: Record, i: nat, now: nat): Record
    requires i < |r.versions|
  {
    var a := MarkArchived(r, i, now);
    a.(active := if r.active == Some(r.versions[i].number) then None else r.active, updatedAt := now)
  }

  /** Archives the version `number`, when there is one. */
  function ArchiveNumber(r: Record, number: Option<nat>, now: nat): Record
  {
    match number
    case None => r
    case Some(n) =>
      match Position(r.versions, n)
      case None => r
      case Some(i) => MarkArchived(r, i, now)
  }

  function Activated(r: Record, number: nat, now: nat): Record
  {
    var a := ArchiveNumber(r, if r.active == Some(number) then None else r.active, now);
    var b := match Position(a.versions, number)
      case None => a
      case Some(i) => a.(versions := a.versions[i := a.versions[i].(state := Deployed, deployedAt := Some(now))]);
    b.(active := Some(number), updatedAt := now)
  }

  const SEED_NOTE := "servido por CLI"

  function Seeded(r: Record, source: string, checksum: string, now: nat): Record
  {
    var n := NextVersion(r);
    var v := Version(n, Deployed, source, checksum, now, Some(now), Some(now), None, Some(SEED_NOTE));
    ArchiveNumber(r.(versions := r.versions + [v]), r.active, now).(active := Some(n), updatedAt := now)
  }

  // ----------------------------------------------------------- invariant

  ghost predicate VersionSound(r: Record, i: nat, digest: string -> string)
    requires i < |r.versions|
  {
    var v := r.versions[i];
    && v.number == i + 1
    && v.checksum == digest(v.source)
    && (v.state == Deployed ==> r.active == Some(v.number))
    && (v.deployedAt.Some? && r.active != Some(v.number) ==> v.state == Archived)
    && (r.active == Some(v.number) ==> v.deployedAt.Some? && (v.state == Deployed || v.state == Validated))
  }

  /** Numbers run 1, 2, 3, …; checksums match; at most one version is DEPLOYED and it is the
      active one; a version that was once deployed and is no longer active is ARCHIVED. */
  ghost predicate Sound(r: Record, digest: string -> string)
  {
    && (forall i :: 0 <= i < |r.versions| ==> VersionSound(r, i, digest))
    && (r.active.Some? ==> 1 <= r.active.value <= |r.versions|)
  }

  ghost predicate Numbered(versions: seq<Version>)
  {
    forall i :: 0 <= i < |versions| ==> versions[i].number == i + 1
  }

  lemma PositionOfNumbered(versions: seq<Version>, number: nat)
    requires Numbered(versions)
    ensures Position(versions, number) == if 1 <= number <= |versions| then Some(number - 1) else None
  {
    var p := Position(versions, number);
    if 1 <= number <= |versions| {
      assert versions[number - 1].number == number;
    }
  }

  lemma SoundIsNumbered(r: Record, digest: string -> string)
    requires Sound(r, digest)
    ensures Numbered(r.versions)
  {
    forall i | 0 <= i < |r.versions|
      ensures r.versions[i].number == i + 1
    {
      assert VersionSound(r, i, digest);
    }
  }

  lemma PositionIsNumber(r: Record, digest: string -> string, number: nat)
    requires Sound(r, digest)
    ensures Position(r.versions, number) == if 1 <= number <= |r.versions| then Some(number - 1) else None
  {
    SoundIsNumbered(r, digest);
    PositionOfNumbered(r.versions, number);
  }

  lemma NextIsLength(r: Record, digest: string -> string)
    requires Sound(r, digest)
    ensures NextVersion(r) == |r.versions| + 1
  {
    var h := Highest(r.versions);
    if |r.versions| > 0 {
      assert VersionSound(r, |r.versions| - 1, digest);
    }
    if h != 0 {
      var i :| 0 <= i < |r.versions| && r.versions[i].number == h;
      assert VersionSound(r, i, digest);
    }
  }

  /** What no later call may change about a version, and that being deployed once is kept. */
  ghost predicate Continues(a: Version, b: Version)
  {
    && b.number == a.number && b.source == a.source && b.checksum == a.checksum
    && b.createdAt == a.createdAt && b.note == a.note
    && (a.deployedAt.Some? ==> b.deployedAt.Some?)
  }

  ghost predicate Extends(r: Record, r': Record)
  {
    && r'.createdAt == r.createdAt
    && |r.versions| <= |r'.versions|
    && forall i :: 0 <= i < |r.versions| ==> Continues(r.versions[i], r'.versions[i])
  }

  lemma DraftedIsSound(r: Record, digest: string -> string, source: string, note: Option<string>, now: nat)
    requires Sound(r, digest)
    ensures Sound(Drafted(r, source, digest(source), note, now), digest)
    ensures Extends(r, Drafted(r, source, digest(source), note, now))
    ensures NextVersion(r) == |r.versions| + 1
  {
    NextIsLength(r, digest);
    var r' := Drafted(r, source, digest(source), note, now);
    forall i | 0 <= i < |r'.versions|
      ensures VersionSound(r', i, digest)
    {
      if i < |r.versions| {
        assert VersionSound(r, i, digest);
      }
    }
  }

  lemma ValidatedIsSound(r: Record, digest: string -> string, i: nat, now: nat)
    requires Sound(r, digest) && i < |r.versions| && r.versions[i].state != Archived
    ensures Sound(MarkValidated(r, i, now), digest) && Extends(r, MarkValidated(r, i, now))
  {
    var r' := MarkValidated(r, i, now);
    forall k | 0 <= k < |r'.versions|
      ensures VersionSound(r', k, digest)
    {
      assert VersionSound(r, k, digest);
    }
  }

  lemma RetiredIsSound(r: Record, digest: string -> string, i: nat, now: nat)
    requires Sound(r, digest) && i < |r.versions|
    ensures Sound(Retired(r, i, now), digest) && Extends(r, Retired(r, i, now))
  {
    var r' := Retired(r, i, now);
    forall k | 0 <= k < |r'.versions|
      ensures VersionSound(r', k, digest)
    {
      assert VersionSound(r, k, digest) && VersionSound(r, i, digest);
    }
  }

  lemma PositionAfterArchive(r: Record, digest: string -> string, p: nat, number: nat, now: nat)
    requires Sound(r, digest) && p < |r.versions|
    ensures Position(MarkArchived(r, p, now).versions, number)
         == if 1 <= number <= |r.versions| then Some(number - 1) else None
  {
    SoundIsNumbered(r, digest);
    PositionOfNumbered(MarkArchived(r, p, now).versions, number);
  }

  /** Activation in closed form, on a sound record: the old active version is archived and
      the new one deployed; every other version is untouched. */
  lemma ActivatedAt(r: Record, digest: string -> string, number: nat, now: nat)
    requires Sound(r, digest) && 1 <= number <= |r.versions|
    ensures var r' := Activated(r, number, now);
      && |r'.versions| == |r.versions|
      && r'.active == Some(number) && r'.createdAt == r.createdAt
      && forall i :: 0 <= i < |r.versions| ==>
           r'.versions[i] ==
             if i + 1 == number then r.versions[i].(state := Deployed, deployedAt := Some(now))
             else if r.active == Some(i + 1) then r.versions[i].(state := Archived, archivedAt := Some(now))
             else r.versions[i]
  {
    hide Position, Sound, VersionSound;
    var retiring := if r.active == Some(number) then None else r.active;
    if retiring.Some? {
      ActiveInRange(r, digest);
      PositionIsNumber(r, digest, retiring.value);
      assert ArchiveNumber(r, retiring, now) == MarkArchived(r, retiring.value - 1, now);
      PositionAfterArchive(r, digest, retiring.value - 1, number, now);
    } else {
      PositionIsNumber(r, digest, number);
    }
  }

  lemma ActiveInRange(r: Record, digest: string -> string)
    requires Sound(r, digest) && r.active.Some?
    ensures 1 <= r.active.value <= |r.versions|
  {
  }

  lemma ActivatedIsSound(r: Record, digest: string -> string, number: nat, now: nat)
    requires Sound(r, digest) && 1 <= number <= |r.versions|
    ensures Sound(Activated(r, number, now), digest) && Extends(r, Activated(r, number, now))
  {
    ActivatedAt(r, digest, number, now);
    var r' := Activated(r, number, now);
    hide Activated;
    forall i | 0 <= i < |r'.versions|
      ensures VersionSound(r', i, digest)
    {
      assert VersionSound(r, i, digest);
    }
    forall i | 0 <= i < |r.versions|
      ensures Continues(r.versions[i], r'.versions[i])
    {
    }
  }

  lemma SeededIsSound(r: Record, digest: string -> string, source: string, now: nat)
    requires Sound(r, digest)
    ensures var r' := Seeded(r, source, digest(source), now);
      && Sound(r', digest) && Extends(r, r')
      && |r'.versions| == |r.versions| + 1 && r'.active == Some(|r'.versions|)
      && r'.versions[|r.versions|].source == source
  {
    var n := |r.versions|;
    NextIsLength(r, digest);
    var r' := Seeded(r, source, digest(source), now);
    if r.active.Some? {
      SeededPosition(r, digest, Version(n + 1, Deployed, source, digest(source), now, Some(now), Some(now), None,
                                        Some(SEED_NOTE)));
    }
    forall i | 0 <= i < |r'.versions|
      ensures VersionSound(r', i, digest)
    {
      if i < n {
        assert VersionSound(r, i, digest);
      }
    }
  }

  lemma SeededPosition(r: Record, digest: string -> string, v: Version)
    requires Sound(r, digest) && r.active.Some? && v.number == |r.versions| + 1
    ensures Position(r.versions + [v], r.active.value) == Some(r.active.value - 1)
  {
    SoundIsNumbered(r, digest);
    PositionOfNumbered(r.versions + [v], r.active.value);
  }

  // ------------------------------------------------------ rollback target

  ghost predicate IsTarget(versions: seq<Version>, active: Option<nat>, n: nat)
  {
    && (exists i :: 0 <= i < |versions| && Candidate(versions[i], active) && versions[i].number == n)
    && forall i :: 0 <= i < |versions| && Candidate(versions[i], active) ==> versions[i].number <= n
  }

  lemma {:induction false} TargetIsHighest(versions: seq<Version>, active: Option<nat>)
    ensures var t := Target(versions, active);
      && (t.Some? ==> IsTarget(versions, active, t.value))
      && (t.None? ==> forall i :: 0 <= i < |versions| ==> !Candidate(versions[i], active))
  {
    if versions != [] {
      var n := |versions| - 1;
      TargetIsHighest(versions[..n], active);
      assert forall i :: 0 <= i < n ==> versions[..n][i] == versions[i];
    }
  }

  /** The state filter of rollback never bites: the target is the highest-numbered version
      that was deployed once and is not the active one, and it exists iff there is one. */
  lemma TargetOfSound(r: Record, digest: string -> string)
    requires Sound(r, digest)
    ensures var t := Target(r.versions, r.active);
      && (t.Some? ==>
           && 1 <= t.value <= |r.versions| && Some(t.value) != r.active
           && r.versions[t.value - 1].deployedAt.Some? && r.versions[t.value - 1].state == Archived
           && forall i :: t.value <= i < |r.versions| && r.versions[i].deployedAt.Some? ==> r.active == Some(i + 1))
      && (t.None? <==> forall i :: 0 <= i < |r.versions| && r.versions[i].deployedAt.Some? ==> r.active == Some(i + 1))
  {
    TargetIsHighest(r.versions, r.active);
    var t := Target(r.versions, r.active);
    forall i | 0 <= i < |r.versions|
      ensures r.versions[i].number == i + 1
      ensures Candidate(r.versions[i], r.active) <==> r.versions[i].deployedAt.Some? && r.active != Some(i + 1)
    {
      assert VersionSound(r, i, digest);
    }
    if t.Some? {
      var i :| 0 <= i < |r.versions| && Candidate(r.versions[i], r.active) && r.versions[i].number == t.value;
      assert VersionSound(r, i, digest);
    }
  }

  /** From the highest deployed version, rolling back twice comes back to it. */
  lemma RollbackTwice(r: Record, digest: string -> string, now: nat)
    requires Sound(r, digest) && r.active.Some?
    requires forall i :: r.active.value <= i < |r.versions| ==> r.versions[i].deployedAt.None?
    requires Target(r.versions, r.active).Some?
    ensures var back := Activated(r, Target(r.versions, r.active).value, now);
      Target(back.versions, back.active) == r.active
  {
    hide Activated, Target, Position, Highest, Candidate;
    var a := r.active.value;
    TargetOfSound(r, digest);
    var t := Target(r.versions, r.active).value;
    ActivatedAt(r, digest, t, now);
    ActivatedIsSound(r, digest, t, now);
    var back := Activated(r, t, now);
    TargetOfSound(back, digest);
    assert VersionSound(r, a - 1, digest);
    hide *;
    assert back.versions[a - 1].deployedAt.Some? && back.active != Some(a);
    var t' := Target(back.versions, back.active);
    assert t'.Some? && t'.value >= a;
    assert back.versions[t'.value - 1].deployedAt.Some?;
    assert t'.value != t;
    assert r.versions[t'.value - 1].deployedAt.Some?;
  }

  /** Rollback right after an activation goes back to the version that was active before it
      exactly if no version with a higher number, but the one just activated, was ever
      deployed: the search takes the highest number, not the latest deployment. */
  lemma RollbackReturnsIff(r: Record, digest: string -> string, n: nat, now: nat)
    requires Sound(r, digest) && r.active.Some?
    requires 1 <= n <= |r.versions| && r.active != Some(n)
    ensures var s := Activated(r, n, now);
      Target(s.versions, s.active) == r.active <==>
        forall i :: r.active.value <= i < |r.versions| && i + 1 != n ==> r.versions[i].deployedAt.None?
  {
    hide Activated, Target, Position;
    var a := r.active.value;
    ActivatedAt(r, digest, n, now);
    ActivatedIsSound(r, digest, n, now);
    var s := Activated(r, n, now);
    TargetOfSound(s, digest);
    assert VersionSound(r, a - 1, digest);
    hide Sound, VersionSound;
    assert s.versions[a - 1].deployedAt.Some? && s.active != Some(a - 1 + 1);
    var t := Target(s.versions, s.active);
    assert t.Some? && t.value >= a;
    if t.value != a {
      assert r.versions[t.value - 1].deployedAt.Some?;
    }
  }
}
