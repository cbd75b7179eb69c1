/** When each call of the connection manager succeeds, and exactly what a successful call
    leaves in memory, on file and among the secrets. */
module ConnectionAnswers {
  import opened Prelude
  import opened Secrets
  import opened Connections

  /** Names are the same when they differ in the case of ASCII letters alone. */
  lemma SameNameIff(a: string, b: string)
    ensures SameName(a, b) <==>
      && |a| == |b|
      && forall i :: 0 <= i < |a| ==>
        || a[i] == b[i]
        || ('A' <= a[i] <= 'Z' && b[i] as int == a[i] as int + 32)
        || ('A' <= b[i] <= 'Z' && a[i] as int == b[i] as int + 32)
  {
    forall i | 0 <= i < |a| && |a| == |b|
      ensures LowerChar(a[i]) == LowerChar(b[i]) <==>
        || a[i] == b[i]
        || ('A' <= a[i] <= 'Z' && b[i] as int == a[i] as int + 32)
        || ('A' <= b[i] <= 'Z' && a[i] as int == b[i] as int + 32)
    {
    }
    hide LowerChar;
  }

  /** No profile with another identifier has the name. */
  ghost predicate NameFree(profiles: Profiles, id: ProfileId, name: string)
  {
    forall k :: k in profiles && profiles[k].id != id ==> !SameName(profiles[k].name, name)
  }

  /** No other profile refers to the secret of the profile. */
  ghost predicate Unshared(profiles: Profiles, id: ProfileId)
    requires id in profiles
  {
    forall k :: k in profiles && profiles[k].id != id ==> profiles[k].secretRef != profiles[id].secretRef
  }

  /** The calls that answer without an error. */
  ghost predicate Succeeds(s: State, e: Event)
  {
    match e
    case DoCreate(p, saves) => saves && p.id !in s.profiles && NameFree(s.profiles, p.id, p.name)
    case DoUpdate(p, saves) => saves && p.id in s.profiles && NameFree(s.profiles, p.id, p.name)
    case DoDelete(id, saves) => saves && id in s.profiles
    case DoDuplicate(id, name, newId, _, stores, saves, _) =>
      && id in s.profiles && s.profiles[id].secretRef in s.secrets && stores
      && saves && newId !in s.profiles && NameFree(s.profiles, newId, name)
    case DoUpdateWithSecret(p, _, stores, saves, _) =>
      && p.secretRef in s.secrets && stores
      && saves && p.id in s.profiles && NameFree(s.profiles, p.id, p.name)
    case DoDeleteWithSecret(id, saves, removes, _) =>
      id in s.profiles && saves
      && (Unshared(s.profiles, id) ==> s.profiles[id].secretRef in s.secrets && removes)
  }

  lemma SucceedsIff(s: State, e: Event)
    ensures Step(s, e).error.None? <==> Succeeds(s, e)
  {
    hide SameName, Snapshot;
    match e {
      case DoCreate(p, _) => NameTakenIff(s.profiles, p);
      case DoUpdate(p, _) => NameTakenIff(s.profiles, p);
      case DoDuplicate(id, name, newId, newRef, _, _, _) =>
        if id in s.profiles {
          NameTakenIff(s.profiles, s.profiles[id].(id := newId, name := name, secretRef := newRef, tags := []));
        }
      case DoUpdateWithSecret(p, _, _, _, _) => NameTakenIff(s.profiles, p);
      case _ =>
    }
    hide NameTaken, NameFree;
  }

  lemma NameTakenIff(profiles: Profiles, p: Profile)
    ensures NameTaken(profiles, p) <==> !NameFree(profiles, p.id, p.name)
  {
    hide SameName;
  }

  /** What a successful call leaves: the profiles, the same profiles on file, the secrets and
      the status entries. */
  lemma SuccessLeaves(s: State, e: Event)
    requires Inv(s) && Succeeds(s, e)
    ensures var t := Step(s, e).state;
      && (forall p :: p in t.saved <==> exists k :: k in t.profiles && t.profiles[k] == p)
      && (e.DoCreate? || e.DoUpdate? ==>
           && t.profiles == s.profiles[e.p.id := e.p]
           && t.secrets == s.secrets && t.status == s.status + {e.p.id})
      && (e.DoDelete? ==>
           && t.profiles == s.profiles - {e.id}
           && t.secrets == s.secrets && t.status == s.status - {e.id})
      && (e.DoDuplicate? ==>
           var p := s.profiles[e.id];
           && t.profiles == s.profiles[e.newId := Profile(e.newId, e.name, p.kind, p.endpoint, e.newRef, [])]
           && t.secrets == s.secrets[e.newRef := s.secrets[p.secretRef]] && t.status == s.status + {e.newId})
      && (e.DoUpdateWithSecret? ==>
           && t.profiles == s.profiles[e.p.id := e.p]
           && t.secrets == s.secrets[e.p.secretRef := e.secret] && t.status == s.status + {e.p.id})
      && (e.DoDeleteWithSecret? ==>
           && t.profiles == s.profiles - {e.id}
           && t.secrets == (if Unshared(s.profiles, e.id) then s.secrets - {s.profiles[e.id].secretRef} else s.secrets)
           && t.status == s.status - {e.id})
  {
    SucceedsIff(s, e);
    hide SameName, DistinctNames, NameTaken, NameFree;
  }

  /** The name or the identifier that the call wants is another profile's. */
  ghost predicate Clashes(s: State, e: Event)
  {
    match e
    case DoCreate(p, _) => p.id in s.profiles || !NameFree(s.profiles, p.id, p.name)
    case DoUpdate(p, _) => !NameFree(s.profiles, p.id, p.name)
    case DoDuplicate(_, name, newId, _, _, _, _) => newId in s.profiles || !NameFree(s.profiles, newId, name)
    case DoUpdateWithSecret(p, _, _, _, _) => !NameFree(s.profiles, p.id, p.name)
    case _ => false
  }

  /** What each refusal means. */
  lemma RefusalMeans(s: State, e: Event)
    ensures var error := Step(s, e).error;
      && (error == Some(NotFound) <==>
           || (e.DoUpdate? && e.p.id !in s.profiles)
           || ((e.DoDelete? || e.DoDuplicate? || e.DoDeleteWithSecret?) && e.id !in s.profiles)
           || (e.DoUpdateWithSecret? && e.p.secretRef in s.secrets && e.stores && e.restores
                && e.p.id !in s.profiles))
      && (error == Some(SecretUnavailable) <==>
           || (e.DoDuplicate? && e.id in s.profiles && s.profiles[e.id].secretRef !in s.secrets)
           || (e.DoUpdateWithSecret? && e.p.secretRef !in s.secrets)
           || (e.DoDeleteWithSecret? && e.id in s.profiles && Unshared(s.profiles, e.id)
                && s.profiles[e.id].secretRef !in s.secrets))
      && (error == Some(DuplicateName) <==>
           && Clashes(s, e)
           && (e.DoUpdate? || e.DoUpdateWithSecret? ==> e.p.id in s.profiles)
           && (e.DoUpdateWithSecret? ==> e.p.secretRef in s.secrets && e.stores && e.restores)
           && (e.DoDuplicate? ==>
                e.id in s.profiles && s.profiles[e.id].secretRef in s.secrets && e.stores && e.removes))
  {
    hide SameName, Snapshot;
    match e {
      case DoCreate(p, _) => NameTakenIff(s.profiles, p);
      case DoUpdate(p, _) => NameTakenIff(s.profiles, p);
      case DoDuplicate(id, name, newId, newRef, _, _, _) =>
        if id in s.profiles {
          NameTakenIff(s.profiles, s.profiles[id].(id := newId, name := name, secretRef := newRef, tags := []));
        }
      case DoUpdateWithSecret(p, _, _, _, _) => NameTakenIff(s.profiles, p);
      case _ =>
    }
    hide NameTaken, NameFree;
  }
}
