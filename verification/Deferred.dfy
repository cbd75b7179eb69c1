/** The write-behind queue: one pending record per key, flushed when its interval
    is over, when the queue is full, or on demand. */
module Deferred {
  import opened Prelude
  import opened Policy
  import opened Tiers

  datatype Item<V> = Item(record: PersistRecord<V>, enqueuedAt: int, flushAfter: nat)

  type Items<V> = map<Key, Item<V>>

  /** `now.duration_since`, which is zero for instants in the future. */
  function Elapsed(now: int, since: int): nat
  {
    if now < since then 0 else now - since
  }

  function ReadyKeys<V>(items: Items<V>, now: int, force: bool): set<Key>
  {
    set k | k in items && (force || Elapsed(now, items[k].enqueuedAt) >= items[k].flushAfter)
  }

  /** What is due: everything when forced, and otherwise what has waited for its interval. */
  lemma DueIff<V>(items: Items<V>, now: int, force: bool)
    ensures forall k :: k in ReadyKeys(items, now, force) <==>
      && k in items
      && (force || items[k].flushAfter == 0 || now >= items[k].enqueuedAt + items[k].flushAfter)
  {
  }

  /** `out` lists the records of `keys`, each once. */
  ghost predicate Lists<V>(items: Items<V>, keys: set<Key>, out: seq<PersistRecord<V>>)
  {
    && (forall i :: 0 <= i < |out| ==> out[i].key in keys && out[i].key in items && out[i] == items[out[i].key].record)
    && (forall i, j :: 0 <= i < j < |out| ==> out[i].key != out[j].key)
    && (forall k :: k in keys ==> exists i :: 0 <= i < |out| && out[i].key == k)
  }

  /** The records come in the order of their keys. */
  ghost predicate InKeyOrder<V>(out: seq<PersistRecord<V>>)
  {
    forall i, j :: 0 <= i < j < |out| ==> KeyBefore(out[i].key, out[j].key)
  }

  ghost predicate Keyed<V>(items: Items<V>)
  {
    forall k :: k in items ==> items[k].record.key == k
  }

  /** The queue after putting records back, ready at once. */
  function Requeued<V>(items: Items<V>, records: seq<PersistRecord<V>>, now: int): Items<V>
    decreases |records|
  {
    if records == [] then items
    else Requeued(items[records[0].key := Item(records[0], now, 0)], records[1..], now)
  }

  /** No write is lost and none overtakes a later one: the last record enqueued for
      a key is still pending, or is the last one of that key the sink accepted. */
  ghost predicate NothingLost<V>(items: Items<V>, log: seq<PersistRecord<V>>, enqueued: map<Key, PersistRecord<V>>)
  {
    && Keyed(items)
    && items.Keys <= enqueued.Keys
    && forall k :: k in enqueued ==>
      if k in items then items[k].record == enqueued[k] else LastOf(log, k) == Some(enqueued[k])
  }

  lemma EnqueueLosesNothing<V>(items: Items<V>, log: seq<PersistRecord<V>>, enqueued: map<Key, PersistRecord<V>>,
                               item: Item<V>)
    requires NothingLost(items, log, enqueued)
    ensures NothingLost(items[item.record.key := item], log, enqueued[item.record.key := item.record])
  {
  }

  /** A record of a key that is never deferred goes to the sink without harm. */
  lemma DirectWriteLosesNothing<V>(items: Items<V>, log: seq<PersistRecord<V>>, enqueued: map<Key, PersistRecord<V>>,
                                   r: PersistRecord<V>)
    requires NothingLost(items, log, enqueued) && r.key !in enqueued
    ensures NothingLost(items, log + [r], enqueued)
  {
    forall k | k in enqueued && k !in items
      ensures LastOf(log + [r], k) == Some(enqueued[k])
    {
      LastOfSnoc(log, r, k);
    }
  }

  /** In the middle of a flush: `batch` was taken out, its first `i` records are in
      the log. */
  ghost predicate NothingLostMidFlush<V>(items: Items<V>, log: seq<PersistRecord<V>>,
                                         enqueued: map<Key, PersistRecord<V>>, batch: seq<PersistRecord<V>>, i: nat)
    requires i <= |batch|
  {
    && Keyed(items)
    && items.Keys <= enqueued.Keys
    && (forall a, b :: 0 <= a < b < |batch| ==> batch[a].key != batch[b].key)
    && (forall a :: 0 <= a < |batch| ==>
         batch[a].key !in items && batch[a].key in enqueued && batch[a] == enqueued[batch[a].key])
    && (forall k :: k in items ==> items[k].record == enqueued[k])
    && forall k :: k in enqueued && k !in items && !Awaits(batch, i, k) ==> LastOf(log, k) == Some(enqueued[k])
  }

  ghost predicate Awaits<V>(batch: seq<PersistRecord<V>>, i: nat, k: Key)
  {
    exists a :: i <= a < |batch| && batch[a].key == k
  }

  lemma TakeStartsFlush<V>(items: Items<V>, log: seq<PersistRecord<V>>, enqueued: map<Key, PersistRecord<V>>,
                           keys: set<Key>, batch: seq<PersistRecord<V>>)
    requires NothingLost(items, log, enqueued) && keys <= items.Keys && Lists(items, keys, batch)
    ensures NothingLostMidFlush(items - keys, log, enqueued, batch, 0)
  {
    assert forall k :: k in keys ==> Awaits(batch, 0, k);
  }

  lemma PersistOne<V>(items: Items<V>, log: seq<PersistRecord<V>>, enqueued: map<Key, PersistRecord<V>>,
                      batch: seq<PersistRecord<V>>, i: nat)
    requires i < |batch| && NothingLostMidFlush(items, log, enqueued, batch, i)
    ensures NothingLostMidFlush(items, log + [batch[i]], enqueued, batch, i + 1)
  {
    forall k | k in enqueued && k !in items && !Awaits(batch, i + 1, k)
      ensures LastOf(log + [batch[i]], k) == Some(enqueued[k])
    {
      LastOfSnoc(log, batch[i], k);
    }
  }

  lemma FlushDone<V>(items: Items<V>, log: seq<PersistRecord<V>>, enqueued: map<Key, PersistRecord<V>>,
                     batch: seq<PersistRecord<V>>)
    requires NothingLostMidFlush(items, log, enqueued, batch, |batch|)
    ensures NothingLost(items, log, enqueued)
  {
    forall k | k in enqueued && k !in items
      ensures LastOf(log, k) == Some(enqueued[k])
    {
      assert !Awaits(batch, |batch|, k);
    }
  }

  /** A failed flush puts the rest of the batch back and loses nothing. */
  lemma {:induction false} RequeueLosesNothing<V>(items: Items<V>, log: seq<PersistRecord<V>>,
                                                  enqueued: map<Key, PersistRecord<V>>, batch: seq<PersistRecord<V>>,
                                                  i: nat, now: int)
    requires i <= |batch| && NothingLostMidFlush(items, log, enqueued, batch, i)
    ensures NothingLost(Requeued(items, batch[i..], now), log, enqueued)
    decreases |batch| - i
  {
    if i == |batch| {
      FlushDone(items, log, enqueued, batch);
    } else {
      var r := batch[i];
      var rest := batch[i + 1..];
      var next := items[r.key := Item(r, now, 0)];
      assert batch[i..][1..] == rest;
      forall k | Awaits(batch, i, k) && k != r.key
        ensures Awaits(rest, 0, k)
      {
        var a :| i <= a < |batch| && batch[a].key == k;
        assert rest[a - i - 1].key == k;
      }
      RequeueLosesNothing(next, log, enqueued, rest, 0, now);
      assert rest[0..] == rest;
    }
  }

  class DeferredQueue<V> {
    const maxPending: nat
    var items: Items<V>
    var flushes: nat
    var enqueued: nat

    constructor (maxPending: nat)
      ensures this.maxPending == (if maxPending == 0 then 1 else maxPending)
      ensures items == map[] && flushes == 0 && enqueued == 0
    {
      this.maxPending := if maxPending == 0 then 1 else maxPending;
      items, flushes, enqueued := map[], 0, 0;
    }

    /** Enqueues or replaces; `force` says that the queue is full. */
    method Enqueue(record: PersistRecord<V>, flushAfter: nat, now: int) returns (force: bool)
      modifies this
      ensures items == old(items)[record.key := Item(record, now, flushAfter)]
      ensures force == (|items| >= maxPending)
      ensures enqueued == old(enqueued) + 1 && flushes == old(flushes)
    {
      enqueued := enqueued + 1;
      items := items[record.key := Item(record, now, flushAfter)];
      force := |items| >= maxPending;
    }

    /** Takes out what is due, or everything; what stays has not waited for its interval. */
    method TakeReady(now: int, force: bool) returns (out: seq<PersistRecord<V>>)
      requires Keyed(items)
      modifies this
      ensures var ready := ReadyKeys(old(items), now, force);
        && items == old(items) - ready
        && Lists(old(items), ready, out)
        && flushes == old(flushes) + if ready == {} then 0 else 1
      ensures forall k :: k in items <==>
        && k in old(items) && !force && 0 < old(items)[k].flushAfter
        && now < old(items)[k].enqueuedAt + old(items)[k].flushAfter
      ensures InKeyOrder(out)
      ensures forall i, j :: 0 <= i < j < |out| ==> TextBefore(out[i].key.text, out[j].key.text)
      ensures enqueued == old(enqueued)
    {
      DueIff(items, now, force);
      hide ReadyKeys, Taken, IsLeast, Keyed, Lists, InKeyOrder;
      var ready := ReadyKeys(items, now, force);
      ghost var before, taken: set<Key> := items, {};
      NothingTaken(items, now, force);
      out := [];
      var rest := ready;
      while rest != {}
        invariant rest <= ready && taken == ready - rest
        invariant items == before - taken && Taken(before, taken, rest, out)
        invariant flushes == old(flushes) && enqueued == old(enqueued)
        decreases |rest|
      {
        LeastExists(rest);
        var k :| k in rest && IsLeast(rest, k);
        TakeOneMore(before, taken, rest, out, k);
        out := out + [items[k].record];
        items := items - {k};
        rest, taken := rest - {k}, taken + {k};
      }
      assert taken == ready;
      AllTaken(before, ready, out);
      OrderIsOfTexts(out);
      if out != [] {
        flushes := flushes + 1;
      }
    }

    /** Puts back what could not be persisted. */
    method RequeueFailed(records: seq<PersistRecord<V>>, now: int)
      modifies this`items
      ensures items == Requeued(old(items), records, now)
    {
      var i := 0;
      assert records[0..] == records;
      while i < |records|
        invariant i <= |records|
        invariant Requeued(items, records[i..], now) == Requeued(old(items), records, now)
      {
        assert records[i..][1..] == records[i + 1..];
        items := items[records[i].key := Item(records[i], now, 0)];
        i := i + 1;
      }
    }
  }

  lemma OrderIsOfTexts<V>(out: seq<PersistRecord<V>>)
    requires InKeyOrder(out)
    ensures forall i, j :: 0 <= i < j < |out| ==> TextBefore(out[i].key.text, out[j].key.text)
  {
    assert forall i, j :: 0 <= i < j < |out| ==> KeyBefore(out[i].key, out[j].key);
  }

  lemma ListedIffAny<V>(items: Items<V>, keys: set<Key>, out: seq<PersistRecord<V>>)
    requires Lists(items, keys, out)
    ensures out == [] <==> keys == {}
  {
    if out != [] {
      assert out[0].key in keys;
    }
  }

  /** `out` lists the records of the keys `taken`, in order, and `rest` comes after them. */
  ghost predicate Taken<V>(items: Items<V>, taken: set<Key>, rest: set<Key>, out: seq<PersistRecord<V>>)
  {
    && taken !! rest && rest <= items.Keys
    && Lists(items, taken, out) && InKeyOrder(out)
    && forall i, k :: 0 <= i < |out| && k in rest ==> KeyBefore(out[i].key, k)
  }

  lemma NothingTaken<V>(items: Items<V>, now: int, force: bool)
    ensures Taken(items, {}, ReadyKeys(items, now, force), []) && items - {} == items
  {
  }

  lemma TakeOneMore<V>(items: Items<V>, taken: set<Key>, rest: set<Key>, out: seq<PersistRecord<V>>, k: Key)
    requires Keyed(items) && Taken(items, taken, rest, out) && IsLeast(rest, k)
    ensures k in items - taken && (items - taken)[k] == items[k]
    ensures (items - taken) - {k} == items - (taken + {k})
    ensures Taken(items, taken + {k}, rest - {k}, out + [items[k].record])
  {
    ListsOneMore(items, taken, out, k);
    hide KeyBefore, Lists;
  }

  lemma AllTaken<V>(items: Items<V>, ready: set<Key>, out: seq<PersistRecord<V>>)
    requires Taken(items, ready, {}, out)
    ensures Lists(items, ready, out) && InKeyOrder(out)
    ensures out == [] <==> ready == {}
  {
    ListedIffAny(items, ready, out);
  }

  lemma ListsOneMore<V>(items: Items<V>, keys: set<Key>, out: seq<PersistRecord<V>>, k: Key)
    requires Lists(items, keys, out) && Keyed(items) && k in items && k !in keys
    ensures Lists(items, keys + {k}, out + [items[k].record])
  {
    var all := out + [items[k].record];
    forall j | j in keys + {k}
      ensures exists i :: 0 <= i < |all| && all[i].key == j
    {
      if j in keys {
        var i :| 0 <= i < |out| && out[i].key == j;
        assert all[i].key == j;
      } else {
        assert all[|out|].key == j;
      }
    }
  }
}
