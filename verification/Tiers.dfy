/** The lower tiers and the persistence sink, as the manager sees them: each call
    either takes effect or fails without any. Which calls fail is an arbitrary
    schedule; a call fails only when the schedule says so. */
module Tiers {
  import opened Prelude
  import opened Policy

  datatype LowEntry<V> = LowEntry(class_: ClassName, value: V)

  type Store<V> = map<Key, LowEntry<V>>

  /** A fault schedule says of each coming call whether it fails; past its end none does. */
  predicate FailsNext(faults: seq<bool>)
  {
    faults != [] && faults[0]
  }

  /** The schedule after one call. */
  function Later(faults: seq<bool>): seq<bool>
  {
    if faults == [] then [] else faults[1..]
  }

  /** A warm, cold or frozen backend; `noop` is the backend that stores nothing. */
  class Backend<V> {
    const noop: bool
    var store: Store<V>
    var faults: seq<bool>

    constructor (noop: bool, store: Store<V>, faults: seq<bool>)
      requires noop ==> store == map[]
      ensures this.noop == noop && this.store == store && this.faults == faults && Valid()
    {
      this.noop, this.store, this.faults := noop, store, faults;
    }

    predicate Valid()
      reads this
    {
      noop ==> store == map[]
    }

    method NextFault() returns (fails: bool)
      modifies this`faults
      ensures fails == FailsNext(old(faults)) && faults == Later(old(faults))
    {
      fails := faults != [] && faults[0];
      faults := if faults == [] then [] else faults[1..];
    }

    method Get(key: Key) returns (r: Result<Option<LowEntry<V>>, ()>)
      modifies this`faults
      ensures r.Ok? ==> r.value == if key in store then Some(store[key]) else None
      ensures r.Err? == FailsNext(old(faults)) && faults == Later(old(faults))
    {
      var fails := NextFault();
      r := if fails then Err(()) else Ok(if key in store then Some(store[key]) else None);
    }

    method Put(key: Key, entry: LowEntry<V>) returns (ok: bool)
      requires Valid()
      modifies this
      ensures Valid()
      ensures store == if ok && !noop then old(store)[key := entry] else old(store)
      ensures ok == !FailsNext(old(faults)) && faults == Later(old(faults))
    {
      var fails := NextFault();
      ok := !fails;
      if ok && !noop {
        store := store[key := entry];
      }
    }

    method Remove(key: Key) returns (r: Result<bool, ()>)
      requires Valid()
      modifies this
      ensures Valid()
      ensures r.Ok? ==> r.value == (key in old(store)) && store == old(store) - {key}
      ensures r.Err? ==> store == old(store)
      ensures r.Err? == FailsNext(old(faults)) && faults == Later(old(faults))
    {
      var fails := NextFault();
      if fails {
        return Err(());
      }
      r := Ok(key in store);
      store := store - {key};
    }
  }

  datatype PersistRecord<V> = PersistRecord(
    key: Key, class_: ClassName, value: V, policy: Durability, priority: Priority)

  /** The last record of `key` that the sink accepted. */
  function LastOf<V>(log: seq<PersistRecord<V>>, key: Key): Option<PersistRecord<V>>
  {
    if log == [] then None
    else if log[|log| - 1].key == key then Some(log[|log| - 1])
    else LastOf(log[..|log| - 1], key)
  }

  lemma LastOfSnoc<V>(log: seq<PersistRecord<V>>, r: PersistRecord<V>, key: Key)
    ensures LastOf(log + [r], key) == if r.key == key then Some(r) else LastOf(log, key)
  {
    assert (log + [r])[..|log|] == log;
  }

  class Sink<V> {
    var log: seq<PersistRecord<V>>
    var faults: seq<bool>

    constructor (faults: seq<bool>)
      ensures log == [] && this.faults == faults
    {
      this.log, this.faults := [], faults;
    }

    method Persist(record: PersistRecord<V>) returns (ok: bool)
      modifies this
      ensures log == if ok then old(log) + [record] else old(log)
      ensures ok == !FailsNext(old(faults)) && faults == Later(old(faults))
    {
      ok := faults == [] || !faults[0];
      faults := if faults == [] then [] else faults[1..];
      if ok {
        log := log + [record];
      }
    }
  }
}
