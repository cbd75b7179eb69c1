/** Types shared by every component of the model. */
module Prelude {

  datatype Option<+T> = None | Some(value: T)

  datatype Result<+T, +E> = Ok(value: T) | Err(error: E)

  newtype byte = x: int | 0 <= x < 0x100

  type Bytes = seq<byte>

  const U64_MAX: nat := 0xFFFF_FFFF_FFFF_FFFF

  /** `u64::saturating_add`. */
  function SatAdd(a: nat, b: nat): (r: nat)
  {
    if a + b > U64_MAX then U64_MAX else a + b
  }

  lemma SubsetSize<T>(a: set<T>, b: set<T>)
    requires a <= b
    ensures |a| <= |b|
  {
    assert b == a + (b - a);
  }

  // ------------------------------------------------------- the order of texts

  /** Byte by byte, as in a dictionary. */
  predicate TextBefore(a: Bytes, b: Bytes)
    decreases |a|
  {
    b != [] && (a == [] || a[0] < b[0] || (a[0] == b[0] && TextBefore(a[1..], b[1..])))
  }

  lemma {:induction false} TextOrderIsTotal(a: Bytes, b: Bytes)
    ensures a == b || TextBefore(a, b) || TextBefore(b, a)
    ensures !(TextBefore(a, b) && TextBefore(b, a)) && !TextBefore(a, a)
    decreases |a|
  {
    if a != [] {
      TextOrderIsTotal(a[1..], if b != [] then b[1..] else []);
      if b != [] && a[0] == b[0] && a[1..] == b[1..] {
        assert a == [a[0]] + a[1..] && b == [b[0]] + b[1..];
      }
    }
  }

  lemma {:induction false} TextOrderIsTransitive(a: Bytes, b: Bytes, c: Bytes)
    requires TextBefore(a, b) && TextBefore(b, c)
    ensures TextBefore(a, c)
    decreases |a|
  {
    if a != [] && a[0] == b[0] && b[0] == c[0] {
      TextOrderIsTransitive(a[1..], b[1..], c[1..]);
    }
  }

  /** The texts agree on their first `n` bytes; there the first one ends, or has the smaller
      byte. */
  ghost predicate SmallerFrom(a: Bytes, b: Bytes, n: nat)
  {
    n <= |a| && n < |b| && a[..n] == b[..n] && (n < |a| ==> a[n] < b[n])
  }

  lemma {:induction false} TextBeforeIff(a: Bytes, b: Bytes)
    ensures TextBefore(a, b) <==> exists n: nat :: SmallerFrom(a, b, n)
    decreases |a|
  {
    if a == [] || b == [] {
      assert b != [] ==> SmallerFrom(a, b, 0);
    } else {
      forall n: nat | SmallerFrom(a, b, n)
        ensures if n == 0 then a[0] < b[0] else a[0] == b[0] && SmallerFrom(a[1..], b[1..], n - 1)
      {
        if n > 0 {
          assert a[0] == a[..n][0] && b[0] == b[..n][0];
          assert a[1..][..n - 1] == a[..n][1..] && b[1..][..n - 1] == b[..n][1..];
        }
      }
      TextBeforeIff(a[1..], b[1..]);
      if a[0] == b[0] && exists n: nat :: SmallerFrom(a[1..], b[1..], n) {
        var n: nat :| SmallerFrom(a[1..], b[1..], n);
        assert a[..n + 1] == [a[0]] + a[1..][..n] && b[..n + 1] == [b[0]] + b[1..][..n];
        assert SmallerFrom(a, b, n + 1);
      }
      if a[0] < b[0] {
        assert SmallerFrom(a, b, 0);
      }
    }
  }

  predicate IsFirst(texts: set<Bytes>, t: Bytes)
  {
    t in texts && forall s :: s in texts && s != t ==> TextBefore(t, s)
  }

  /** Every nonempty set of texts has a first one. */
  lemma {:induction false} FirstExists(texts: set<Bytes>)
    requires texts != {}
    ensures exists t :: t in texts && IsFirst(texts, t)
    decreases |texts|
  {
    var t :| t in texts;
    if texts == {t} {
      assert IsFirst(texts, t);
    } else {
      FirstExists(texts - {t});
      var first :| first in texts - {t} && IsFirst(texts - {t}, first);
      TextOrderIsTotal(t, first);
      if TextBefore(t, first) {
        forall s | s in texts && s != t && s != first
          ensures TextBefore(t, s)
        {
          assert s in texts - {t};
          TextOrderIsTransitive(t, first, s);
        }
        assert IsFirst(texts, t);
      } else {
        assert IsFirst(texts, first);
      }
    }
  }
}
