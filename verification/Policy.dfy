/** Validated class policies of the memory engine. */
module Policy {
  import opened Prelude

  /** A key; its length in bytes counts against the Hot byte budget. */
  datatype Key = Key(text: Bytes)

  /** The order of keys is that of their texts. */
  predicate KeyBefore(a: Key, b: Key)
  {
    TextBefore(a.text, b.text)
  }

  predicate IsLeast(keys: set<Key>, k: Key)
  {
    k in keys && forall j :: j in keys && j != k ==> KeyBefore(k, j)
  }

  /** Every nonempty set of keys has a first one. */
  lemma LeastExists(keys: set<Key>)
    requires keys != {}
    ensures exists k :: k in keys && IsLeast(keys, k)
  {
    var texts := set k | k in keys :: k.text;
    var k :| k in keys;
    assert k.text in texts;
    FirstExists(texts);
    var t :| t in texts && IsFirst(texts, t);
    var first :| first in keys && first.text == t;
    forall j | j in keys && j != first
      ensures KeyBefore(first, j)
    {
      assert j.text in texts;
    }
    assert IsLeast(keys, first);
  }

  datatype ClassName = ClassName(text: Bytes)

  datatype Durability = Volatile | Cache | Deferred | Immediate | Persistent

  datatype Temperature = Hot | Warm | Cold | Frozen

  datatype Priority = Low | Normal | High | Critical

  function Rank(p: Priority): nat
  {
    match p
    case Low => 0
    case Normal => 1
    case High => 2
    case Critical => 3
  }

  /** Times are instants and durations in the same unit. `flush` is present for
      deferred classes: policy validation guarantees it. */
  datatype ClassPolicy = ClassPolicy(
    name: ClassName,
    policy: Durability,
    temperature: Temperature,
    ttl: Option<nat>,
    flush: nat,
    priority: Priority,
    demoteAfter: Option<nat>)
}
