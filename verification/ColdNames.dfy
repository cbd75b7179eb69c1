/** Names of segment files: sorting them as text sorts the segments by id. */
module ColdNames {
  import opened Prelude

  const PREFIX: string := "segment-"
  const SUFFIX: string := ".jmc"
  const WIDTH: nat := 20

  function Pow10(n: nat): nat
  {
    if n == 0 then 1 else 10 * Pow10(n - 1)
  }

  function Digit(d: nat): char
    requires d < 10
  {
    '0' + d as char
  }

  /** `n` in decimal, zero-padded to `width` digits. */
  function Padded(n: nat, width: nat): (s: string)
    ensures |s| == width
  {
    if width == 0 then "" else Padded(n / 10, width - 1) + [Digit(n % 10)]
  }

  function SegmentName(id: nat): string
  {
    PREFIX + Padded(id, WIDTH) + SUFFIX
  }

  /** Decimal parsing of the id between prefix and suffix. */
  function ParseDecimal(s: string): Option<nat>
  {
    if s == "" then Some(0) else
    var last := s[|s| - 1];
    if !('0' <= last <= '9') then None else
    match ParseDecimal(s[..|s| - 1])
    case None => None
    case Some(n) => Some(10 * n + (last - '0') as nat)
  }

  function SegmentId(name: string): Option<nat>
  {
    if |name| < |PREFIX| + |SUFFIX| || name[..|PREFIX|] != PREFIX || name[|name| - |SUFFIX|..] != SUFFIX then None
    else if |name| == |PREFIX| + |SUFFIX| then None
    else ParseDecimal(name[|PREFIX|..|name| - |SUFFIX|])
  }

  /** Byte-wise lexicographic order, that of sorted paths in one directory. */
  predicate Before(a: string, b: string)
  {
    b != "" && (a == "" || a[0] < b[0] || (a[0] == b[0] && Before(a[1..], b[1..])))
  }

  lemma {:induction false} BeforeAtLast(x: string, y: string, c: char, d: char)
    requires |x| == |y|
    ensures Before(x + [c], y + [d]) <==> Before(x, y) || (x == y && c < d)
  {
    if x == "" {
      assert y == "";
      assert ([c])[1..] == "";
    } else {
      assert (x + [c])[1..] == x[1..] + [c] && (y + [d])[1..] == y[1..] + [d];
      BeforeAtLast(x[1..], y[1..], c, d);
      assert x == [x[0]] + x[1..] && y == [y[0]] + y[1..];
    }
  }

  lemma {:induction false} BeforeCommonPrefix(p: string, a: string, b: string)
    ensures Before(p + a, p + b) <==> Before(a, b)
  {
    if p == "" {
      assert p + a == a && p + b == b;
    } else {
      assert (p + a)[1..] == p[1..] + a && (p + b)[1..] == p[1..] + b;
      BeforeCommonPrefix(p[1..], a, b);
    }
  }

  lemma {:induction false} BeforeCommonSuffix(a: string, b: string, t: string)
    requires |a| == |b|
    ensures Before(a + t, b + t) <==> Before(a, b) || (a == b && Before(t, t))
  {
    if a == "" {
      assert a + t == t && b + t == t;
    } else {
      assert (a + t)[1..] == a[1..] + t && (b + t)[1..] == b[1..] + t;
      BeforeCommonSuffix(a[1..], b[1..], t);
      assert a == [a[0]] + a[1..] && b == [b[0]] + b[1..];
    }
  }

  lemma {:induction false} NotBeforeItself(a: string)
    ensures !Before(a, a)
  {
    if a != "" {
      NotBeforeItself(a[1..]);
    }
  }

  lemma {:induction false} PaddedOrder(a: nat, b: nat, width: nat)
    requires a < Pow10(width) && b < Pow10(width)
    ensures Before(Padded(a, width), Padded(b, width)) <==> a < b
    ensures Padded(a, width) == Padded(b, width) <==> a == b
  {
    if width > 0 {
      PaddedOrder(a / 10, b / 10, width - 1);
      var x, y := Padded(a / 10, width - 1), Padded(b / 10, width - 1);
      BeforeAtLast(x, y, Digit(a % 10), Digit(b % 10));
      assert (x + [Digit(a % 10)])[..width - 1] == x && (y + [Digit(b % 10)])[..width - 1] == y;
      assert (x + [Digit(a % 10)])[width - 1] == Digit(a % 10) && (y + [Digit(b % 10)])[width - 1] == Digit(b % 10);
    }
  }

  lemma {:induction false} ParsePadded(n: nat, width: nat)
    requires n < Pow10(width)
    ensures ParseDecimal(Padded(n, width)) == Some(n)
  {
    if width > 0 {
      ParsePadded(n / 10, width - 1);
      assert Padded(n, width)[..width - 1] == Padded(n / 10, width - 1);
    }
  }

  /** For every 64-bit id: sorting names is sorting ids, and a name gives its id back. */
  lemma NameOrderIsIdOrder(a: nat, b: nat)
    requires a <= U64_MAX && b <= U64_MAX
    ensures Before(SegmentName(a), SegmentName(b)) <==> a < b
    ensures SegmentId(SegmentName(a)) == Some(a)
  {
    U64FitsWidth();
    hide Before, Padded, Pow10, ParseDecimal;
    var x, y := Padded(a, WIDTH), Padded(b, WIDTH);
    PaddedOrder(a, b, WIDTH);
    assert SegmentName(a) == PREFIX + (x + SUFFIX) && SegmentName(b) == PREFIX + (y + SUFFIX);
    BeforeCommonPrefix(PREFIX, x + SUFFIX, y + SUFFIX);
    BeforeCommonSuffix(x, y, SUFFIX);
    NotBeforeItself(SUFFIX);
    ParsePadded(a, WIDTH);
    assert SegmentName(a)[|PREFIX|..|SegmentName(a)| - |SUFFIX|] == x;
  }

  /** A segment file is called `segment-`, twenty digits, `.jmc`. */
  lemma NameLayout(id: nat)
    ensures var s := SegmentName(id);
      && |s| == 32 && s[..8] == "segment-" && s[28..] == ".jmc"
      && forall i :: 8 <= i < 28 ==> '0' <= s[i] <= '9'
  {
    PaddedIsDigits(id, WIDTH);
    hide Padded;
  }

  lemma {:induction false} PaddedIsDigits(n: nat, width: nat)
    ensures forall i :: 0 <= i < width ==> '0' <= Padded(n, width)[i] <= '9'
  {
    if width > 0 {
      PaddedIsDigits(n / 10, width - 1);
    }
  }

  lemma U64FitsWidth()
    ensures U64_MAX < Pow10(WIDTH)
  {
    assert Pow10(10) == 10_000_000_000 by {
      assert Pow10(5) == 100_000;
    }
    assert Pow10(15) == 1_000_000_000_000_000 by {
      assert Pow10(12) == 1_000_000_000_000;
    }
    assert Pow10(20) == 100_000_000_000_000_000_000 by {
      assert Pow10(18) == 1_000_000_000_000_000_000;
    }
  }
}
