/** The connection manager, changed in place: persist first, publish after, and undo by
    compensating calls. Its methods are the steps of Connections. */
module ConnectionStore {
  import opened Prelude
  import opened Secrets
  import opened Connections

  class ConnectionManager {
    var profiles: Profiles
    var saved: set<Profile>
    var status: set<ProfileId>
    var secrets: map<Ref, Secret>

    constructor ()
      ensures Abs() == START
    {
      profiles, saved, status, secrets := map[], {}, {}, map[];
    }

    ghost function Abs(): State
      reads this
    {
      State(profiles, saved, status, secrets)
    }

    method PersistProfiles(pending: Profiles, saves: bool) returns (ok: bool)
      modifies this`saved
      ensures ok == saves
      ensures saved == if saves then Snapshot(pending) else old(saved)
    {
      if saves {
        saved := Snapshot(pending);
      }
      ok := saves;
    }

    method StoreSecret(reference: Ref, secret: Secret, works: bool) returns (ok: bool)
      modifies this`secrets
      ensures ok == works
      ensures secrets == if works then old(secrets)[reference := secret] else old(secrets)
    {
      if works {
        secrets := secrets[reference := secret];
      }
      ok := works;
    }

    method RemoveSecret(reference: Ref, works: bool) returns (ok: bool)
      modifies this`secrets
      ensures ok == works
      ensures secrets == if works then old(secrets) - {reference} else old(secrets)
    {
      if works {
        secrets := secrets - {reference};
      }
      ok := works;
    }

    method Upsert(p: Profile, replacing: bool, saves: bool) returns (error: Option<ManagerError>)
      modifies this`profiles, this`saved, this`status
      ensures Outcome(Abs(), error) == Connections.Upsert(old(Abs()), p, replacing, saves)
    {
      if NameTaken(profiles, p) {
        return Some(DuplicateName);
      }
      if !replacing && p.id in profiles {
        return Some(DuplicateName);
      }
      var pending := profiles[p.id := p];
      var ok := PersistProfiles(pending, saves);
      if !ok {
        return Some(Persistence);
      }
      profiles := pending;
      status := status + {p.id};
      return None;
    }

    method Create(p: Profile, saves: bool) returns (error: Option<ManagerError>)
      modifies this
      ensures Outcome(Abs(), error) == Step(old(Abs()), DoCreate(p, saves))
    {
      error := Upsert(p, false, saves);
    }

    method Update(p: Profile, saves: bool) returns (error: Option<ManagerError>)
      modifies this`profiles, this`saved, this`status
      ensures Outcome(Abs(), error) == Step(old(Abs()), DoUpdate(p, saves))
    {
      if p.id !in profiles {
        return Some(NotFound);
      }
      error := Upsert(p, true, saves);
    }

    method Delete(id: ProfileId, saves: bool) returns (error: Option<ManagerError>)
      modifies this
      ensures Outcome(Abs(), error) == Step(old(Abs()), DoDelete(id, saves))
    {
      if id !in profiles {
        return Some(NotFound);
      }
      var pending := profiles - {id};
      var ok := PersistProfiles(pending, saves);
      if !ok {
        return Some(Persistence);
      }
      profiles := pending;
      status := status - {id};
      return None;
    }

    /** Stores a copy of the secret, creates the profile, and removes the copy again when
        the profile cannot be created. */
    method Duplicate(id: ProfileId, name: string, newId: ProfileId, newRef: Ref,
                     stores: bool, saves: bool, removes: bool) returns (error: Option<ManagerError>)
      modifies this
      ensures Outcome(Abs(), error) == Step(old(Abs()), DoDuplicate(id, name, newId, newRef, stores, saves, removes))
    {
      if id !in profiles {
        return Some(NotFound);
      }
      var original := profiles[id];
      if original.secretRef !in secrets {
        return Some(SecretUnavailable);
      }
      var ok := StoreSecret(newRef, secrets[original.secretRef], stores);
      if !ok {
        return Some(Persistence);
      }
      error := Upsert(Profile(newId, name, original.kind, original.endpoint, newRef, []), false, saves);
      if error.Some? {
        var undone := RemoveSecret(newRef, removes);
        if !undone {
          return Some(Unrestored);
        }
      }
    }

    method UpdateWithSecret(p: Profile, secret: Secret, stores: bool, saves: bool, restores: bool)
      returns (error: Option<ManagerError>)
      modifies this
      ensures Outcome(Abs(), error) == Step(old(Abs()), DoUpdateWithSecret(p, secret, stores, saves, restores))
    {
      if p.secretRef !in secrets {
        return Some(SecretUnavailable);
      }
      var previous := secrets[p.secretRef];
      var ok := StoreSecret(p.secretRef, secret, stores);
      if !ok {
        return Some(Persistence);
      }
      error := Update(p, saves);
      if error.Some? {
        var undone := StoreSecret(p.secretRef, previous, restores);
        if !undone {
          return Some(Unrestored);
        }
        assert secrets == old(secrets);
      }
    }

    /** Saves the smaller set of profiles, removes the secret unless another profile uses
        it, and saves the profiles back when the secret stays. */
    method DeleteWithSecret(id: ProfileId, saves: bool, removes: bool, resaves: bool)
      returns (error: Option<ManagerError>)
      modifies this
      ensures Outcome(Abs(), error) == Step(old(Abs()), DoDeleteWithSecret(id, saves, removes, resaves))
    {
      if id !in profiles {
        return Some(NotFound);
      }
      var p := profiles[id];
      var shared := exists k :: k in profiles && profiles[k].id != id && profiles[k].secretRef == p.secretRef;
      if !shared && p.secretRef !in secrets {
        return Some(SecretUnavailable);
      }
      var pending := profiles - {id};
      var ok := PersistProfiles(pending, saves);
      if !ok {
        return Some(Persistence);
      }
      if !shared {
        var removed := RemoveSecret(p.secretRef, removes);
        if !removed {
          var undone := PersistProfiles(profiles, resaves);
          if !undone {
            profiles := pending;
            return Some(Unrestored);
          }
          return Some(Persistence);
        }
      }
      profiles := pending;
      status := status - {id};
      return None;
    }
  }
}
