/** isqrt: the integer square root of a 32-bit number, computed digit by
    digit in base 2. */
module IMath {
  import opened Bytes
  import opened Bits

  /** c is the integer square root of n. */
  predicate IsRoot(n: nat, c: nat)
  {
    c * c <= n < (c + 1) * (c + 1)
  }

  /** There is only one integer square root. */
  lemma RootUnique(n: nat, a: nat, b: nat)
    requires IsRoot(n, a) && IsRoot(n, b)
    ensures a == b
  {
    if a < b {
      MulLe(a + 1, b, a + 1);
      MulLe(a + 1, b, b);
    } else if b < a {
      MulLe(b + 1, a, b + 1);
      MulLe(b + 1, a, a);
    }
  }

  /** The state of the digit loop: t = 2^k is the weight of the next root
      bit, d = t^2 / 4 its test value, s the root bits found so far, c and
      x the source's running values: c = s t^2 and x = n - (s t)^2, with
      (s t)^2 <= n < ((s + 1) t)^2. */
  ghost predicate Digit(n: nat, x: nat, c: nat, d: nat, s: nat, t: nat, k: nat)
  {
    t == Pow2(k) && d == t * t / 4 &&
    c == s * (t * t) && x + (s * t) * (s * t) == n &&
    n < ((s + 1) * t) * ((s + 1) * t)
  }

  /** The starting power of four: 1 << 30, divided by four until it is no
      larger than n. */
  method StartDigit(n: u32) returns (d: u32, ghost t: nat, ghost k: nat)
    ensures Digit(n, n, 0, d, 0, t, k) && k <= 16
    ensures d <= n && (d == 0 ==> n == 0) && (d > 0 ==> n < 4 * d)
  {
    d := 0x4000_0000;
    t, k := 0x1_0000, 16;
    Pow2Of16();
    while d > n
      invariant t == Pow2(k) && d == t * t / 4 && n < t * t && k <= 16
      decreases d
    {
      Quarter(t, k);
      d := d / 4;
      t, k := t / 2, k - 1;
    }
    assert Digit(n, n, 0, d, 0, t, k) by {
      Ring(0, t);
    }
    StartBound(n, d, t, k);
  }

  /** The starting test value is zero only for n = 0, and otherwise more
      than a quarter of n. */
  lemma StartBound(n: nat, d: nat, t: nat, k: nat)
    requires t == Pow2(k) && d == t * t / 4 && n < t * t
    ensures (d == 0 ==> n == 0) && (d > 0 ==> n < 4 * d)
  {
    if d > 0 {
      Quarter(t, k);
      Halve(k);
      var u := t / 2;
      assert t == 2 * u;
      Ring(0, u);
    } else {
      Last(t, k);
    }
  }

  /** The test value of a power of two t > 1 is the square of t / 2. */
  lemma Quarter(t: nat, k: nat)
    requires t == Pow2(k) && t * t / 4 > 0
    ensures k > 0 && t / 2 == Pow2(k - 1) && t * t / 4 == (t / 2) * (t / 2)
  {
    assert Pow2(0) == 1;
    Halve(k);
    Ring(0, t / 2);
  }

  /** Once the test value is zero, t is 1. */
  lemma Last(t: nat, k: nat)
    requires t == Pow2(k) && t * t / 4 == 0
    ensures t == 1
  {
    if k > 0 {
      Halve(k);
      Ring(0, t / 2);
      MulLe(1, t / 2, t / 2);
    }
  }

  lemma Halve(k: nat)
    requires k > 0
    ensures Pow2(k) == 2 * Pow2(k - 1) && Pow2(k) / 2 == Pow2(k - 1)
  {
  }

  /** One root bit: with u = t / 2 the test value is d = u^2, c + d is
      the growth (2 s u + u)^2 - (2 s u)^2 and does not wrap, and the bit
      is set exactly when x covers it. */
  lemma Step(n: nat, x: nat, c: nat, d: nat, s: nat, t: nat, k: nat)
    requires Digit(n, x, c, d, s, t, k) && 0 < k <= 16 && n < U32Mod
    ensures var u := t / 2;
      d == u * u && c + d < U32Mod &&
      (x >= c + d ==> Digit(n, x - (c + d), c / 2 + d, d / 4, 2 * s + 1, u, k - 1)) &&
      (x < c + d ==> Digit(n, x, c / 2, d / 4, 2 * s, u, k - 1))
  {
    Halve(k);
    var u := t / 2;
    assert t == 2 * u;
    var D := u * u;
    var Q := s * D;
    var P := s * Q;
    Ring(s, u);
    assert d == D;
    assert c == 4 * Q;
    SumFits(n, s, t, k);
  }

  /** The products the root step needs, in terms of D = u^2, Q = s D and
      P = s Q. */
  lemma Ring(s: nat, u: nat)
    ensures (2 * u) * (2 * u) == 4 * (u * u)
    ensures (s * (2 * u)) * (s * (2 * u)) == 4 * (s * (s * (u * u)))
    ensures s * ((2 * u) * (2 * u)) == 4 * (s * (u * u))
    ensures ((s + 1) * (2 * u)) * ((s + 1) * (2 * u)) == 4 * (s * (s * (u * u))) + 8 * (s * (u * u)) + 4 * (u * u)
    ensures ((2 * s + 1) * u) * ((2 * s + 1) * u) == 4 * (s * (s * (u * u))) + 4 * (s * (u * u)) + u * u
    ensures ((2 * s) * u) * ((2 * s) * u) == 4 * (s * (s * (u * u)))
    ensures ((2 * s + 1 + 1) * u) * ((2 * s + 1 + 1) * u) == ((s + 1) * (2 * u)) * ((s + 1) * (2 * u))
    ensures (2 * s + 1) * (u * u) == 2 * (s * (u * u)) + u * u
    ensures (2 * s) * (u * u) == 2 * (s * (u * u))
  {
  }

  /** c + d does not wrap in 32 bits: (s t)^2 <= n < 2^32 keeps s t below
      2^16, and t is at most 2^15 once s is positive. */
  lemma SumFits(n: nat, s: nat, t: nat, k: nat)
    requires t == Pow2(k) && 0 < k <= 16 && (s * t) * (s * t) <= n < U32Mod
    ensures s * (t * t) + t * t / 4 < U32Mod
  {
    var p := s * t;
    if p >= 0x1_0000 {
      MulLe(0x1_0000, p, 0x1_0000);
      MulLe(0x1_0000, p, p);
      MulComm(p, 0x1_0000);
    }
    Pow2Of16();
    Pow2Monotone(k, 16);
    if s == 0 {
      MulLe(t, 0x1_0000, t);
      MulLe(t, 0x1_0000, 0x1_0000);
      MulComm(t, 0x1_0000);
    } else {
      MulLe(1, s, t);
      Halve(16);
      assert k != 16;
      Pow2Monotone(k, 15);
      assert t <= 0x8000;
      MulAssoc(s, t, t);
      MulLe(p, 0xffff, t);
      MulLe(t, 0x8000, 0xffff);
      MulComm(t, 0xffff);
      MulLe(t, 0x8000, t);
      MulLe(t, 0x8000, 0x8000);
      MulComm(t, 0x8000);
    }
  }

  /** One pass of the digit loop: test the next root bit and shift the
      running values down by one bit position. */
  method RootBit(n: u32, x: u32, c: u32, d: u32, ghost s: nat, ghost t: nat, ghost k: nat)
    returns (x': u32, c': u32, d': u32, ghost s': nat, ghost t': nat, ghost k': nat)
    requires Digit(n, x, c, d, s, t, k) && k <= 16 && d != 0
    ensures Digit(n, x', c', d', s', t', k') && k' < k
    ensures d' == d / 4 && x' <= x
  {
    Quarter(t, k);
    Step(n, x, c, d, s, t, k);
    if x >= c + d {
      x' := x - (c + d);
      c' := c / 2 + d;
      s' := 2 * s + 1;
    } else {
      x' := x;
      c' := c / 2;
      s' := 2 * s;
    }
    d' := d / 4;
    t', k' := t / 2, k - 1;
  }

  /** When the test value reaches zero, c is the root. */
  lemma Finish(n: nat, x: nat, c: nat, s: nat, t: nat, k: nat)
    requires Digit(n, x, c, 0, s, t, k)
    ensures IsRoot(n, c)
  {
    Last(t, k);
    assert c == s * (1 * 1) && x + (s * 1) * (s * 1) == n;
  }

  /** isqrt: the integer square root of n. */
  method ISqrt(n: u32) returns (c: u32)
    ensures IsRoot(n, c)
  {
    var x: u32 := n;
    c := 0;
    var d: u32;
    ghost var t: nat, k: nat;
    d, t, k := StartDigit(n);
    ghost var s: nat := 0;
    while d != 0
      invariant Digit(n, x, c, d, s, t, k) && k <= 16
      decreases k
    {
      x, c, d, s, t, k := RootBit(n, x, c, d, s, t, k);
    }
    Finish(n, x, c, s, t, k);
  }
}
