/** Connection profiles and their secrets: compensating transactions over a profile file
    and a secret store whose calls take effect or fail without effect. */
module Connections {
  import opened Prelude
  import opened Secrets

  datatype ProfileId = ProfileId(text: string)

  datatype Profile = Profile(id: ProfileId, name: string, kind: string, endpoint: string, secretRef: Ref,
                             tags: seq<string>)

  datatype ManagerError = NotFound | DuplicateName | SecretUnavailable | Persistence | Unrestored

  type Profiles = map<ProfileId, Profile>

  /** `saved` is the profile file; `status` the profiles that have a status entry. */
  datatype State = State(profiles: Profiles, saved: set<Profile>, status: set<ProfileId>, secrets: map<Ref, Secret>)

  datatype Outcome = Outcome(state: State, error: Option<ManagerError>)

  // ------------------------------------------------------------------- names

  function LowerChar(c: char): char
  {
    if 'A' <= c <= 'Z' then c + 32 as char else c
  }

  /** `str::eq_ignore_ascii_case`. */
  predicate SameName(a: string, b: string)
  {
    |a| == |b| && forall i :: 0 <= i < |a| ==> LowerChar(a[i]) == LowerChar(b[i])
  }

  predicate NameTaken(profiles: Profiles, p: Profile)
  {
    exists id :: id in profiles && SameName(profiles[id].name, p.name) && profiles[id].id != p.id
  }

  // ------------------------------------------------------------ transactions

  function Snapshot(profiles: Profiles): set<Profile>
  {
    set id | id in profiles :: profiles[id]
  }

  ghost function Published(s: State, profiles: Profiles): State
  {
    s.(profiles := profiles, saved := Snapshot(profiles))
  }

  ghost function Upsert(s: State, p: Profile, replacing: bool, saves: bool): Outcome
  {
    if NameTaken(s.profiles, p) || (!replacing && p.id in s.profiles) then Outcome(s, Some(DuplicateName))
    else if !saves then Outcome(s, Some(Persistence))
    else Outcome(Published(s, s.profiles[p.id := p]).(status := s.status + {p.id}), None)
  }

  ghost function Update(s: State, p: Profile, saves: bool): Outcome
  {
    if p.id !in s.profiles then Outcome(s, Some(NotFound)) else Upsert(s, p, true, saves)
  }

  ghost function Delete(s: State, id: ProfileId, saves: bool): Outcome
  {
    if id !in s.profiles then Outcome(s, Some(NotFound))
    else if !saves then Outcome(s, Some(Persistence))
    else Outcome(Published(s, s.profiles - {id}).(status := s.status - {id}), None)
  }

  /** `newId` and `newRef` are the identifiers the call draws. */
  ghost function Duplicate(s: State, id: ProfileId, name: string, newId: ProfileId, newRef: Ref,
                           stores: bool, saves: bool, removes: bool): Outcome
  {
    if id !in s.profiles then Outcome(s, Some(NotFound))
    else if s.profiles[id].secretRef !in s.secrets then Outcome(s, Some(SecretUnavailable))
    else if !stores then Outcome(s, Some(Persistence))
    else
      var s1 := s.(secrets := s.secrets[newRef := s.secrets[s.profiles[id].secretRef]]);
      var o := Upsert(s1, s.profiles[id].(id := newId, name := name, secretRef := newRef, tags := []), false, saves);
      if o.error.None? then o
      else if removes then Outcome(s1.(secrets := s1.secrets - {newRef}), o.error)
      else Outcome(s1, Some(Unrestored))
  }

  ghost function UpdateWithSecret(s: State, p: Profile, secret: Secret, stores: bool, saves: bool,
                                  restores: bool): Outcome
  {
    if p.secretRef !in s.secrets then Outcome(s, Some(SecretUnavailable))
    else if !stores then Outcome(s, Some(Persistence))
    else
      var s1 := s.(secrets := s.secrets[p.secretRef := secret]);
      var o := Update(s1, p, saves);
      if o.error.None? then o
      else if restores then Outcome(s, o.error)
      else Outcome(s1, Some(Unrestored))
  }

  ghost predicate Shared(s: State, id: ProfileId)
    requires id in s.profiles
  {
    exists k :: k in s.profiles && s.profiles[k].id != id && s.profiles[k].secretRef == s.profiles[id].secretRef
  }

  ghost function DeleteWithSecret(s: State, id: ProfileId, saves: bool, removes: bool, resaves: bool): Outcome
  {
    if id !in s.profiles then Outcome(s, Some(NotFound))
    else
      var ref := s.profiles[id].secretRef;
      var gone := Published(s, s.profiles - {id});
      if !Shared(s, id) && ref !in s.secrets then Outcome(s, Some(SecretUnavailable))
      else if !saves then Outcome(s, Some(Persistence))
      else if Shared(s, id) then Outcome(gone.(status := s.status - {id}), None)
      else if removes then Outcome(gone.(status := s.status - {id}, secrets := s.secrets - {ref}), None)
      else if resaves then Outcome(Published(s, s.profiles), Some(Persistence))
      else Outcome(gone, Some(Unrestored))
  }

  // --------------------------------------------------------------- invariant

  ghost predicate Keyed(profiles: Profiles)
  {
    forall id :: id in profiles ==> profiles[id].id == id
  }

  ghost predicate DistinctNames(profiles: Profiles)
  {
    forall a, b :: a in profiles && b in profiles && a != b ==> !SameName(profiles[a].name, profiles[b].name)
  }

  /** Memory is what was saved; names differ by more than ASCII case; every profile has a
      status entry. */
  ghost predicate Inv(s: State)
  {
    && Keyed(s.profiles)
    && DistinctNames(s.profiles)
    && s.saved == Snapshot(s.profiles)
    && s.profiles.Keys <= s.status
  }

  ghost predicate Resolves(s: State, id: ProfileId)
    requires id in s.profiles
  {
    s.profiles[id].secretRef in s.secrets
  }

  ghost predicate AllResolve(s: State)
  {
    forall id :: id in s.profiles ==> Resolves(s, id)
  }

  lemma SameNameSymmetric(a: string, b: string)
    ensures SameName(a, b) <==> SameName(b, a)
  {
  }

  lemma UpsertKeepsInv(s: State, p: Profile, replacing: bool, saves: bool)
    requires Inv(s)
    ensures Inv(Upsert(s, p, replacing, saves).state)
  {
    hide SameName;
    var profiles := s.profiles[p.id := p];
    if !NameTaken(s.profiles, p) {
      forall a, b | a in profiles && b in profiles && a != b
        ensures !SameName(profiles[a].name, profiles[b].name)
      {
        SameNameSymmetric(profiles[a].name, profiles[b].name);
        if a == p.id {
          assert !SameName(s.profiles[b].name, p.name);
        } else if b == p.id {
          assert !SameName(s.profiles[a].name, p.name);
        }
      }
    }
  }

  lemma RemovalKeepsInv(s: State, id: ProfileId)
    requires Inv(s)
    ensures Inv(Published(s, s.profiles - {id}))
    ensures Inv(Published(s, s.profiles - {id}).(status := s.status - {id}))
  {
    hide SameName;
  }

  lemma SecretsKeepInv(s: State, secrets: map<Ref, Secret>)
    requires Inv(s)
    ensures Inv(s.(secrets := secrets))
  {
  }

  datatype Event =
    | DoCreate(p: Profile, saves: bool)
    | DoUpdate(p: Profile, saves: bool)
    | DoDelete(id: ProfileId, saves: bool)
    | DoDuplicate(id: ProfileId, name: string, newId: ProfileId, newRef: Ref, stores: bool, saves: bool, removes: bool)
    | DoUpdateWithSecret(p: Profile, secret: Secret, stores: bool, saves: bool, restores: bool)
    | DoDeleteWithSecret(id: ProfileId, saves: bool, removes: bool, resaves: bool)

  ghost function Step(s: State, e: Event): Outcome
  {
    match e
    case DoCreate(p, saves) => Upsert(s, p, false, saves)
    case DoUpdate(p, saves) => Update(s, p, saves)
    case DoDelete(id, saves) => Delete(s, id, saves)
    case DoDuplicate(id, name, newId, newRef, stores, saves, removes) =>
      Duplicate(s, id, name, newId, newRef, stores, saves, removes)
    case DoUpdateWithSecret(p, secret, stores, saves, restores) =>
      UpdateWithSecret(s, p, secret, stores, saves, restores)
    case DoDeleteWithSecret(id, saves, removes, resaves) => DeleteWithSecret(s, id, saves, removes, resaves)
  }

  /** Whatever fails, memory equals the saved file and names stay distinct. */
  lemma StepKeepsInv(s: State, e: Event)
    requires Inv(s)
    ensures Inv(Step(s, e).state)
  {
    match e
    case DoCreate(p, saves) => UpsertKeepsInv(s, p, false, saves);
    case DoUpdate(p, saves) => UpsertKeepsInv(s, p, true, saves);
    case DoDelete(id, saves) => RemovalKeepsInv(s, id);
    case DoDuplicate(id, name, newId, newRef, stores, saves, removes) =>
      if id in s.profiles && s.profiles[id].secretRef in s.secrets {
        var s1 := s.(secrets := s.secrets[newRef := s.secrets[s.profiles[id].secretRef]]);
        SecretsKeepInv(s, s1.secrets);
        SecretsKeepInv(s, s1.secrets - {newRef});
        var p := s.profiles[id].(id := newId, name := name, secretRef := newRef, tags := []);
        UpsertKeepsInv(s1, p, false, saves);
        hide Inv, Upsert;
      }
    case DoUpdateWithSecret(p, secret, stores, saves, restores) =>
      var s1 := s.(secrets := s.secrets[p.secretRef := secret]);
      SecretsKeepInv(s, s1.secrets);
      UpsertKeepsInv(s1, p, true, saves);
      hide Inv, Upsert;
    case DoDeleteWithSecret(id, saves, removes, resaves) =>
      RemovalKeepsInv(s, id);
      assert Published(s, s.profiles) == s;
      if id in s.profiles {
        SecretsKeepInv(Published(s, s.profiles - {id}).(status := s.status - {id}),
                       s.secrets - {s.profiles[id].secretRef});
      }
      hide Inv, Published, Shared;
  }

  // ---------------------------------------------------------------- reopening

  ghost predicate OnePerId(saved: set<Profile>)
  {
    forall a, b :: a in saved && b in saved && a.id == b.id ==> a == b
  }

  /** `load_persisted` into an empty manager. */
  ghost function Load(saved: set<Profile>): Profiles
    requires OnePerId(saved)
  {
    map p | p in saved :: p.id := p
  }

  /** A new manager that loads the file has exactly the profiles the old one had. */
  lemma LoadRestores(s: State)
    requires Inv(s)
    ensures OnePerId(s.saved) && Load(s.saved) == s.profiles
  {
    hide SameName, DistinctNames;
    forall p | p in s.saved
      ensures p.id in s.profiles && s.profiles[p.id] == p
    {
    }
    forall id | id in s.profiles
      ensures s.profiles[id] in s.saved && id in Load(s.saved)
    {
    }
  }

  // ------------------------------------------------------------------ secrets

  /** A duplication draws a secret reference that nothing uses yet. */
  ghost predicate Fresh(s: State, e: Event)
  {
    e.DoDuplicate? ==>
      e.newRef !in s.secrets && forall k :: k in s.profiles ==> s.profiles[k].secretRef != e.newRef
  }

  /** A plain create or update that goes through and names a secret that does not exist:
      neither call looks for it. */
  ghost predicate Dangles(s: State, e: Event)
  {
    match e
    case DoCreate(p, saves) =>
      saves && p.id !in s.profiles && !NameTaken(s.profiles, p) && p.secretRef !in s.secrets
    case DoUpdate(p, saves) =>
      saves && p.id in s.profiles && !NameTaken(s.profiles, p) && p.secretRef !in s.secrets
    case _ => false
  }

  /** Whatever fails in a call, it leaves a profile whose secret does not resolve exactly if
      it dangles. */
  lemma ResolvingIff(s: State, e: Event)
    requires Inv(s) && AllResolve(s) && Fresh(s, e)
    ensures AllResolve(Step(s, e).state) <==> !Dangles(s, e)
  {
    if Dangles(s, e) {
      hide Inv, AllResolve, NameTaken, Snapshot;
      assert !Resolves(Step(s, e).state, e.p.id);
      DanglingShows(Step(s, e).state, e.p.id);
    } else {
      StepKeepsResolving(s, e);
    }
  }

  lemma DanglingShows(s: State, id: ProfileId)
    requires id in s.profiles && !Resolves(s, id)
    ensures !AllResolve(s)
  {
  }

  lemma StepKeepsResolving(s: State, e: Event)
    requires Inv(s) && AllResolve(s) && Fresh(s, e) && !Dangles(s, e)
    ensures AllResolve(Step(s, e).state)
  {
    hide SameName, DistinctNames, NameTaken, Snapshot;
    match e
    case DoCreate(p, saves) =>
      if p.secretRef in s.secrets { UpsertKeepsResolving(s, p, false, saves); }
    case DoUpdate(p, saves) =>
      if p.secretRef in s.secrets { UpsertKeepsResolving(s, p, true, saves); }
    case DoDelete(id, saves) =>
    case DoDuplicate(id, name, newId, newRef, stores, saves, removes) =>
      if id in s.profiles && s.profiles[id].secretRef in s.secrets && stores {
        var s1 := s.(secrets := s.secrets[newRef := s.secrets[s.profiles[id].secretRef]]);
        assert AllResolve(s1);
        assert s1.secrets - {newRef} == s.secrets;
        UpsertKeepsResolving(s1, s.profiles[id].(id := newId, name := name, secretRef := newRef, tags := []), false,
                             saves);
        hide Upsert;
      }
    case DoUpdateWithSecret(p, secret, stores, saves, restores) =>
      if p.secretRef in s.secrets {
        var s1 := s.(secrets := s.secrets[p.secretRef := secret]);
        assert AllResolve(s1);
        UpsertKeepsResolving(s1, p, true, saves);
        hide Upsert;
      }
    case DoDeleteWithSecret(id, saves, removes, resaves) =>
      if id in s.profiles && !Shared(s, id) {
        forall k | k in s.profiles - {id}
          ensures s.profiles[k].secretRef in s.secrets - {s.profiles[id].secretRef}
        {
          assert Resolves(s, k);
        }
      }
  }

  lemma UpsertKeepsResolving(s: State, p: Profile, replacing: bool, saves: bool)
    requires AllResolve(s) && p.secretRef in s.secrets
    ensures AllResolve(Upsert(s, p, replacing, saves).state)
  {
    hide NameTaken, Snapshot;
    forall k | k in s.profiles
      ensures s.profiles[k].secretRef in s.secrets
    {
      assert Resolves(s, k);
    }
  }

  /** A deletion whose secret can be found but not removed, and whose profile, after it was
      saved away, cannot be saved back. */
  ghost predicate DeletionStuck(s: State, e: Event)
  {
    && e.DoDeleteWithSecret? && e.id in s.profiles
    && !Shared(s, e.id) && s.profiles[e.id].secretRef in s.secrets
    && e.saves && !e.removes && !e.resaves
  }

  /** Storing the secret of the copy works, creating the copy does not, and neither does
      removing the secret again. */
  ghost predicate DuplicationStuck(s: State, e: Event)
  {
    && e.DoDuplicate? && e.id in s.profiles && s.profiles[e.id].secretRef in s.secrets
    && e.stores && !e.removes
    && (!e.saves || e.newId in s.profiles || NameTaken(s.profiles, s.profiles[e.id].(id := e.newId, name := e.name)))
  }

  /** Storing the new secret works, updating the profile does not, and neither does storing
      the old secret back. */
  ghost predicate UpdateStuck(s: State, e: Event)
  {
    && e.DoUpdateWithSecret? && e.p.secretRef in s.secrets
    && e.stores && !e.restores
    && (!e.saves || e.p.id !in s.profiles || NameTaken(s.profiles, e.p))
  }

  ghost predicate Stuck(s: State, e: Event)
  {
    DuplicationStuck(s, e) || UpdateStuck(s, e) || DeletionStuck(s, e)
  }

  /** The calls whose own compensation fails, told from what holds before them and from
      which outside calls fail. */
  lemma UnrestoredIff(s: State, e: Event)
    ensures Step(s, e).error == Some(Unrestored) <==> Stuck(s, e)
  {
    hide SameName, Shared, Snapshot;
    if e.DoDuplicate? && e.id in s.profiles {
      NameAndIdDecide(s.profiles, s.profiles[e.id].(id := e.newId, name := e.name),
                      s.profiles[e.id].(id := e.newId, name := e.name, secretRef := e.newRef, tags := []));
    }
    hide NameTaken;
  }

  lemma NameAndIdDecide(profiles: Profiles, p: Profile, q: Profile)
    requires p.id == q.id && p.name == q.name
    ensures NameTaken(profiles, p) <==> NameTaken(profiles, q)
  {
    hide SameName;
  }

  /** A call that fails changes nothing unless it is stuck; a stuck call fails and leaves
      exactly this behind. */
  lemma FailureLeaves(s: State, e: Event)
    requires Inv(s) && Fresh(s, e)
    ensures Step(s, e).error.Some? && !Stuck(s, e) ==> Step(s, e).state == s
    ensures Stuck(s, e) ==> Step(s, e).error.Some?
    // a provisional secret that no profile refers to
    ensures DuplicationStuck(s, e) ==>
      Step(s, e).state == s.(secrets := s.secrets[e.newRef := s.secrets[s.profiles[e.id].secretRef]])
    // the new secret under the old profile
    ensures UpdateStuck(s, e) ==> Step(s, e).state == s.(secrets := s.secrets[e.p.secretRef := e.secret])
    // the profile is gone, in memory and on file; its secret and status remain
    ensures DeletionStuck(s, e) ==> Step(s, e).state == Published(s, s.profiles - {e.id})
  {
    UnrestoredIff(s, e);
    hide SameName, DistinctNames, Snapshot, NameTaken;
    if e.DoDuplicate? && e.id in s.profiles && s.profiles[e.id].secretRef in s.secrets {
      var s1 := s.(secrets := s.secrets[e.newRef := s.secrets[s.profiles[e.id].secretRef]]);
      assert s1.secrets - {e.newRef} == s.secrets;
    }
  }

  /** Deleting one of the two profiles after a duplication leaves the other with the secret. */
  lemma DuplicateIsIndependent(s: State, e: Event, victim: ProfileId, saves: bool, removes: bool, resaves: bool)
    requires Inv(s) && AllResolve(s) && e.DoDuplicate? && Fresh(s, e) && Step(s, e).error.None?
    requires victim == e.id || victim == e.newId
    ensures var s1 := Step(s, e).state;
      var s2 := DeleteWithSecret(s1, victim, saves, removes, resaves).state;
      var other := if victim == e.id then e.newId else e.id;
      && e.id != e.newId && e.id in s1.profiles && e.newId in s1.profiles
      && other in s2.profiles && s2.profiles[other] == s1.profiles[other]
      && s2.profiles[other].secretRef in s2.secrets
      && s2.secrets[s2.profiles[other].secretRef] == s.secrets[s.profiles[e.id].secretRef]
  {
    hide SameName, DistinctNames, NameTaken, Snapshot, Shared;
    assert Resolves(s, e.id);
  }

  /** Status entries match the profiles after every call but a stuck deletion, which leaves
      the entry of a profile that is gone. */
  lemma StatusMatchesIff(s: State, e: Event)
    requires Inv(s) && s.status == s.profiles.Keys
    ensures var s' := Step(s, e).state;
      s'.status == s'.profiles.Keys <==> !DeletionStuck(s, e)
  {
    hide SameName, DistinctNames, NameTaken, Snapshot, Shared;
    match e
    case DoDelete(id, _) => assert (s.profiles - {id}).Keys == s.profiles.Keys - {id};
    case DoDeleteWithSecret(id, _, _, _) => assert (s.profiles - {id}).Keys == s.profiles.Keys - {id};
    case _ =>
  }

  // --------------------------------------------------------------------- runs

  ghost function Run(s: State, es: seq<Event>): State
    decreases |es|
  {
    if es == [] then s else Run(Step(s, es[0]).state, es[1..])
  }

  ghost predicate FreshRun(s: State, es: seq<Event>)
    decreases |es|
  {
    es != [] ==> Fresh(s, es[0]) && FreshRun(Step(s, es[0]).state, es[1..])
  }

  /** No call of the run dangles. */
  ghost predicate CarefulRun(s: State, es: seq<Event>)
    decreases |es|
  {
    es != [] ==> !Dangles(s, es[0]) && CarefulRun(Step(s, es[0]).state, es[1..])
  }

  const START := State(map[], {}, {}, map[])

  lemma StartIsSound()
    ensures Inv(START) && AllResolve(START)
  {
  }

  /** Over every run a reload finds exactly the profiles in memory. */
  lemma {:induction false} RunTheorem(s: State, es: seq<Event>)
    requires Inv(s)
    ensures Inv(Run(s, es)) && OnePerId(Run(s, es).saved) && Load(Run(s, es).saved) == Run(s, es).profiles
    decreases |es|
  {
    hide Inv, Step, Load, OnePerId;
    if es == [] {
      LoadRestores(s);
    } else {
      StepKeepsInv(s, es[0]);
      RunTheorem(Step(s, es[0]).state, es[1..]);
    }
  }

  /** Every profile has its secret after every call of a run exactly if no call dangles. */
  lemma {:induction false} RunResolvesIff(s: State, es: seq<Event>)
    requires Inv(s) && AllResolve(s) && FreshRun(s, es)
    ensures CarefulRun(s, es) <==> forall n :: 0 <= n <= |es| ==> AllResolve(Run(s, es[..n]))
    decreases |es|
  {
    hide Inv, AllResolve, Step, Fresh, Dangles;
    if es != [] {
      var s' := Step(s, es[0]).state;
      StepKeepsInv(s, es[0]);
      ResolvingIff(s, es[0]);
      forall n | 1 <= n <= |es|
        ensures Run(s, es[..n]) == Run(s', es[1..][..n - 1])
      {
        assert es[..n][1..] == es[1..][..n - 1];
      }
      if AllResolve(s') {
        RunResolvesIff(s', es[1..]);
        assert forall n :: 0 <= n <= |es[1..]| ==> Run(s', es[1..][..n]) == Run(s, es[..n + 1]);
      } else {
        assert Run(s, es[..1]) == s';
      }
    }
  }

  /** So it holds of every manager that starts empty. */
  lemma RunFromStart(es: seq<Event>)
    ensures OnePerId(Run(START, es).saved) && Load(Run(START, es).saved) == Run(START, es).profiles
    ensures Inv(Run(START, es))
    ensures FreshRun(START, es) && CarefulRun(START, es) ==> AllResolve(Run(START, es))
  {
    StartIsSound();
    hide Inv, AllResolve, Run, CarefulRun, FreshRun, Load, OnePerId;
    RunTheorem(START, es);
    if FreshRun(START, es) {
      RunResolvesIff(START, es);
      assert es[..|es|] == es;
    }
  }
}
