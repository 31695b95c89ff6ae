/** Big-endian bit strings and the shift-register arithmetic the codecs
    (Base32, BIP-0039) are built on. A bit string is read most significant
    bit first; `Pack` and `Unpack` convert between a sequence of w-bit
    groups and the bit string they concatenate to. */
module Bits {

  type bit = b: nat | b < 2

  function Pow2(n: nat): (r: nat)
    ensures r > 0
  {
    if n == 0 then 1 else 2 * Pow2(n - 1)
  }

  lemma {:induction false} Pow2Add(a: nat, b: nat)
    ensures Pow2(a + b) == Pow2(a) * Pow2(b)
  {
    if b > 0 {
      Pow2Add(a, b - 1);
      assert Pow2(a + b) == 2 * Pow2(a + b - 1);
    }
  }

  /** The powers of two the codecs use, each proved once. */
  lemma {:induction false} Pow2Of5()
    ensures Pow2(5) == 32
  {
    assert Pow2(5) == 2 * Pow2(4);
  }

  lemma {:induction false} Pow2Of8()
    ensures Pow2(8) == 256
  {
    Pow2Of5();
    Pow2Add(5, 3);
  }

  lemma {:induction false} Pow2Of11()
    ensures Pow2(11) == 2048
  {
    Pow2Of8();
    Pow2Add(8, 3);
  }

  lemma {:induction false} Pow2Of16()
    ensures Pow2(16) == 0x1_0000
  {
    Pow2Of8();
    Pow2Add(8, 8);
  }

  lemma {:induction false} Pow2Of32()
    ensures Pow2(32) == 0x1_0000_0000
  {
    Pow2Of16();
    Pow2Add(16, 16);
  }

  lemma {:induction false} Pow2Monotone(a: nat, b: nat)
    requires a <= b
    ensures Pow2(a) <= Pow2(b)
  {
    if a < b {
      Pow2Monotone(a, b - 1);
    }
  }

  /** The n-bit string of zeros. */
  function ZeroBits(n: nat): (r: seq<bit>)
    ensures |r| == n
    ensures forall i :: 0 <= i < n ==> r[i] == 0
  {
    seq(n, _ => 0)
  }

  /** The value of a bit string, most significant bit first. */
  function FromBits(s: seq<bit>): (r: nat)
    ensures r < Pow2(|s|)
  {
    if |s| == 0 then 0 else 2 * FromBits(s[..|s| - 1]) + s[|s| - 1]
  }

  /** The w low bits of v, most significant first. */
  function ToBits(v: nat, w: nat): (r: seq<bit>)
    ensures |r| == w
  {
    if w == 0 then [] else ToBits(v / 2, w - 1) + [v % 2]
  }

  lemma {:induction false} FromBitsAppend(a: seq<bit>, b: seq<bit>)
    ensures FromBits(a + b) == FromBits(a) * Pow2(|b|) + FromBits(b)
  {
    if |b| == 0 {
      assert a + b == a;
    } else {
      var b' := b[..|b| - 1];
      var last := b[|b| - 1];
      assert (a + b)[..|a + b| - 1] == a + b';
      assert FromBits(a + b) == 2 * FromBits(a + b') + last;
      assert FromBits(b) == 2 * FromBits(b') + last;
      assert Pow2(|b|) == 2 * Pow2(|b'|);
      FromBitsAppend(a, b');
      DoubleStep(FromBits(a), Pow2(|b'|), FromBits(b'), last);
    }
  }

  lemma {:induction false} DoubleStep(A: int, P: int, B: int, l: int)
    ensures 2 * (A * P + B) + l == A * (2 * P) + (2 * B + l)
  {
  }

  lemma {:induction false} FromBitsZeros(n: nat)
    ensures FromBits(ZeroBits(n)) == 0
  {
    if n > 0 {
      assert ZeroBits(n)[..n - 1] == ZeroBits(n - 1);
      FromBitsZeros(n - 1);
    }
  }

  /** A value that fits in w bits survives the trip through its bits. */
  lemma {:induction false} FromToBits(v: nat, w: nat)
    requires v < Pow2(w)
    ensures FromBits(ToBits(v, w)) == v
  {
    if w > 0 {
      var s := ToBits(v, w);
      assert s[..w - 1] == ToBits(v / 2, w - 1);
      FromToBits(v / 2, w - 1);
    }
  }

  /** ... and so does every bit string through its value. */
  lemma {:induction false} ToFromBits(s: seq<bit>)
    ensures ToBits(FromBits(s), |s|) == s
  {
    if |s| > 0 {
      var s' := s[..|s| - 1];
      ToFromBits(s');
      assert (2 * FromBits(s') + s[|s| - 1]) / 2 == FromBits(s');
      assert s == s' + [s[|s| - 1]];
    }
  }

  /** Bit strings of one length are equal exactly when their values are. */
  lemma {:induction false} FromBitsInjective(a: seq<bit>, b: seq<bit>)
    requires |a| == |b| && FromBits(a) == FromBits(b)
    ensures a == b
  {
    ToFromBits(a);
    ToFromBits(b);
  }

  // ---------------------------------------------------------------------
  // Division and remainder by powers of two.

  lemma {:induction false} MulLe(a: int, b: int, c: int)
    requires a <= b && c >= 0
    ensures a * c <= b * c
  {
  }

  lemma {:induction false} MulSub(a: int, b: int, c: int)
    ensures a * c - b * c == (a - b) * c
  {
  }

  lemma {:induction false} MulAssoc(a: int, b: int, c: int)
    ensures a * (b * c) == (a * b) * c
  {
  }

  lemma {:induction false} MulComm(a: int, b: int)
    ensures a * b == b * a
  {
  }

  lemma {:induction false} MulAdd(a: int, b: int, c: int)
    ensures (a + b) * c == a * c + b * c
  {
  }

  lemma {:induction false} DivModUnique(x: int, d: int, q: int, r: int)
    requires d > 0 && 0 <= r < d && x == q * d + r
    ensures x / d == q && x % d == r
  {
    var q0, r0 := x / d, x % d;
    assert x == q0 * d + r0;
    MulSub(q, q0, d);
    if q > q0 {
      MulLe(1, q - q0, d);
    } else if q < q0 {
      MulLe(1, q0 - q, d);
      MulSub(q0, q, d);
    }
  }

  /** Taking one whole group off n leaves one group fewer and the same
      remainder. */
  lemma {:induction false} DivModStep(n: nat, w: nat)
    requires 0 < w <= n
    ensures n / w == 1 + (n - w) / w && n % w == (n - w) % w
  {
    var q, r := (n - w) / w, (n - w) % w;
    assert n - w == q * w + r;
    MulAdd(1, q, w);
    DivModUnique(n, w, 1 + q, r);
  }

  lemma {:induction false} SplitProduct(x: int, P: int, Q: int, A: int, B: int)
    requires P > 0 && Q > 0 && 0 <= A < P && 0 <= B < Q
    requires x % (P * Q) == A * Q + B
    ensures (x / Q) % P == A && x % Q == B
  {
    var hi := x / (P * Q);
    assert x == hi * (P * Q) + (A * Q + B);
    MulAssoc(hi, P, Q);
    MulAdd(hi * P, A, Q);
    assert x == (hi * P + A) * Q + B;
    DivModUnique(x, Q, hi * P + A, B);
    DivModUnique(hi * P + A, P, hi, A);
  }

  lemma {:induction false} ShiftProduct(x: int, v: int, K: int, M: int)
    requires x >= 0 && K > 0 && M > 0 && 0 <= v < M
    ensures (x * M + v) % (K * M) == (x % K) * M + v
  {
    var h, l := x / K, x % K;
    assert x == h * K + l;
    MulAdd(h * K, l, M);
    MulAssoc(h, K, M);
    assert x * M + v == h * (K * M) + (l * M + v);
    MulLe(l, K - 1, M);
    MulSub(K, 1, M);
    DivModUnique(x * M + v, K * M, h, l * M + v);
  }

  lemma {:induction false} ModProduct(x: int, K: int, L: int)
    requires K > 0 && L > 0
    ensures (x % (K * L)) % K == x % K
  {
    var h, r := x / (K * L), x % (K * L);
    assert x == h * (K * L) + r;
    assert r == (r / K) * K + r % K;
    MulAssoc(h, L, K);
    MulComm(K, L);
    MulAdd(h * L, r / K, K);
    assert x == (h * L + r / K) * K + r % K;
    DivModUnique(x, K, h * L + r / K, r % K);
  }

  lemma {:induction false} SplitPow(x: nat, n: nat, m: nat, A: nat, B: nat, AB: nat)
    requires A < Pow2(n) && B < Pow2(m)
    requires AB == A * Pow2(m) + B && x % Pow2(n + m) == AB
    ensures (x / Pow2(m)) % Pow2(n) == A && x % Pow2(m) == B
  {
    Pow2Add(n, m);
    SplitProduct(x, Pow2(n), Pow2(m), A, B);
  }

  /** When x's low |a|+|b| bits read as a then b, dividing by 2^|b| and
      reducing mod 2^|a| isolates a, and reducing mod 2^|b| isolates b. */
  lemma {:induction false} Split(x: nat, a: seq<bit>, b: seq<bit>)
    requires x % Pow2(|a| + |b|) == FromBits(a + b)
    ensures (x / Pow2(|b|)) % Pow2(|a|) == FromBits(a)
    ensures x % Pow2(|b|) == FromBits(b)
  {
    FromBitsAppend(a, b);
    SplitPow(x, |a|, |b|, FromBits(a), FromBits(b), FromBits(a + b));
  }

  /** Shifting x left by m bits and or-ing in v (< 2^m), then keeping
      n = k+m bits, keeps k bits of x followed by v. */
  lemma {:induction false} ShiftIn(x: nat, v: nat, k: nat, m: nat, n: nat)
    requires v < Pow2(m) && n == k + m
    ensures (x * Pow2(m) + v) % Pow2(n) == (x % Pow2(k)) * Pow2(m) + v
  {
    Pow2Add(k, m);
    ShiftProduct(x, v, Pow2(k), Pow2(m));
  }

  /** Keeping k bits of x mod 2^n, with k <= n, keeps k bits of x. */
  lemma {:induction false} ModMod(x: nat, k: nat, n: nat)
    requires k <= n
    ensures (x % Pow2(n)) % Pow2(k) == x % Pow2(k)
  {
    Pow2Add(k, n - k);
    ModProduct(x, Pow2(k), Pow2(n - k));
  }

  // ---------------------------------------------------------------------
  // The C shift and mask operators on unsigned values, defined bit by bit
  // and shown equal to multiplication, division and remainder by powers of
  // two.

  /** x << k */
  function Shl(x: nat, k: nat): nat
  {
    if k == 0 then x else 2 * Shl(x, k - 1)
  }

  /** x >> k */
  function Shr(x: nat, k: nat): nat
  {
    if k == 0 then x else Shr(x / 2, k - 1)
  }

  /** x & (2^k - 1): the k low bits of x. */
  function Low(x: nat, k: nat): nat
  {
    if k == 0 then 0 else 2 * Low(x / 2, k - 1) + x % 2
  }

  lemma {:induction false} ShlIsMul(x: nat, k: nat)
    ensures Shl(x, k) == x * Pow2(k)
  {
    if k > 0 {
      ShlIsMul(x, k - 1);
      MulAssoc(x, 2, Pow2(k - 1));
      MulComm(x, 2);
      MulAssoc(2, x, Pow2(k - 1));
    }
  }

  lemma {:induction false} DivDiv(x: nat, a: nat, b: nat)
    requires a > 0 && b > 0
    ensures (x / a) / b == x / (a * b)
  {
    var q, r1 := x / a, x % a;
    var q2, r2 := q / b, q % b;
    assert x == q * a + r1;
    assert q == q2 * b + r2;
    MulAdd(q2 * b, r2, a);
    MulAssoc(q2, b, a);
    MulComm(b, a);
    assert x == q2 * (a * b) + (r2 * a + r1);
    MulLe(r2, b - 1, a);
    MulSub(b, 1, a);
    MulComm(b, a);
    DivModUnique(x, a * b, q2, r2 * a + r1);
  }

  lemma {:induction false} ShrIsDiv(x: nat, k: nat)
    ensures Shr(x, k) == x / Pow2(k)
  {
    if k > 0 {
      ShrIsDiv(x / 2, k - 1);
      DivDiv(x, 2, Pow2(k - 1));
    }
  }

  lemma {:induction false} LowIsMod(x: nat, k: nat)
    ensures Low(x, k) == x % Pow2(k)
  {
    if k > 0 {
      LowIsMod(x / 2, k - 1);
      var P := Pow2(k - 1);
      var q, m := (x / 2) / P, (x / 2) % P;
      assert x / 2 == q * P + m;
      assert x == 2 * (x / 2) + x % 2;
      MulAssoc(2, q, P);
      MulComm(2, q);
      MulAssoc(q, 2, P);
      assert x == q * (2 * P) + (2 * m + x % 2);
      DivModUnique(x, 2 * P, q, 2 * m + x % 2);
    }
  }

  /** x | y */
  function Or(x: nat, y: nat): nat
    decreases x + y
  {
    if x == 0 then y
    else if y == 0 then x
    else 2 * Or(x / 2, y / 2) + (if x % 2 == 1 || y % 2 == 1 then 1 else 0)
  }

  /** Or-ing a value into the zeroed low bits of a left shift adds it. */
  lemma {:induction false} OrShl(x: nat, v: nat, k: nat)
    requires v < Pow2(k)
    ensures Or(Shl(x, k), v) == Shl(x, k) + v
  {
    if k > 0 && Shl(x, k) != 0 && v != 0 {
      var a := Shl(x, k - 1);
      assert (2 * a) / 2 == a && (2 * a) % 2 == 0;
      OrShl(x, v / 2, k - 1);
    }
  }

  /** Or-ing two k-bit values gives a k-bit value. */
  lemma {:induction false} OrBound(x: nat, y: nat, k: nat)
    requires x < Pow2(k) && y < Pow2(k)
    ensures Or(x, y) < Pow2(k)
  {
    if x != 0 && y != 0 {
      OrBound(x / 2, y / 2, k - 1);
    }
  }

  /** A value of fewer than k bits is its own k low bits. */
  lemma {:induction false} LowSmall(x: nat, k: nat)
    requires x < Pow2(k)
    ensures Low(x, k) == x
  {
    LowIsMod(x, k);
    DivModUnique(x, Pow2(k), 0, x);
  }

  /** Shifting an n-bit value right by k leaves n - k bits. */
  lemma {:induction false} ShrBound(x: nat, n: nat, k: nat)
    requires x < Pow2(n) && k <= n
    ensures Shr(x, k) < Pow2(n - k)
  {
    if k > 0 {
      ShrBound(x / 2, n - 1, k - 1);
    }
  }

  // ---------------------------------------------------------------------
  // A shift register of `width` bits whose low `got` bits hold `pending`.

  predicate Holds(buf: nat, got: nat, pending: seq<bit>, width: nat)
  {
    got == |pending| && buf < Pow2(width) && Low(buf, got) == FromBits(pending)
  }

  /** Shifting w bits of v in and truncating to the register's width keeps
      the pending bits, followed by v's, as long as they all fit. */
  lemma {:induction false} RegShift(buf: nat, got: nat, pending: seq<bit>, v: nat, w: nat, width: nat)
    requires Holds(buf, got, pending, width) && v < Pow2(w) && got + w <= width
    ensures Holds(Low(Shl(buf, w) + v, width), got + w, pending + ToBits(v, w), width)
  {
    var x := Shl(buf, w) + v;
    var pw, pn := Pow2(w), Pow2(got + w);
    ShlIsMul(buf, w);
    assert x == buf * pw + v;
    var y := x % Pow2(width);
    LowIsMod(x, width);
    LowIsMod(y, got + w);
    ModMod(x, got + w, width);
    assert Low(y, got + w) == x % pn;
    ShiftIn(buf, v, got, w, got + w);
    LowIsMod(buf, got);
    var f := FromBits(pending);
    assert x % pn == f * pw + v;
    var t := ToBits(v, w);
    FromBitsAppend(pending, t);
    FromToBits(v, w);
    assert FromBits(pending + t) == f * pw + v;
  }

  /** RegShift as the C writes it: the value Or-ed into the shifted register
      is the number the bit string `bits` spells. */
  lemma {:induction false} RegShiftOr(buf: nat, got: nat, pending: seq<bit>, v: nat,
                                      bits: seq<bit>, width: nat)
    requires Holds(buf, got, pending, width) && FromBits(bits) == v
    requires got + |bits| <= width
    ensures Holds(Low(Or(Shl(buf, |bits|), v), width), got + |bits|, pending + bits, width)
  {
    var w := |bits|;
    OrShl(buf, v, w);
    ToFromBits(bits);
    RegShift(buf, got, pending, v, w, width);
  }

  /** RegShiftOr for bits read from a stream s: the register holds
      s[start..at + from] and takes the want bits of the chunk t, which
      sits at position at of s, from its bit `from` on. */
  lemma {:induction false} RegShiftSlice(buf: nat, got: nat, s: seq<bit>, start: nat, at: nat,
                                         t: seq<bit>, from: nat, want: nat, v: nat, width: nat,
                                         n: nat, stop: nat)
    requires at + |t| <= |s| && s[at..at + |t|] == t
    requires from + want <= |t| && start <= at + from
    requires Holds(buf, got, s[start..at + from], width) && got + want <= width
    requires v == FromBits(t[from..from + want])
    requires n == got + want && stop == at + from + want
    ensures Holds(Low(Or(Shl(buf, want), v), width), n, s[start..stop], width)
  {
    var g := t[from..from + want];
    SubSlice(s, at, t, from, from + want);
    RegShiftOr(buf, got, s[start..at + from], v, g, width);
    assert s[start..at + from] + g == s[start..stop];
  }

  /** A prefix of s followed by the next slice is a longer prefix. */
  lemma {:induction false} PrefixExtend<T>(s: seq<T>, k: nat, j: nat)
    requires k <= j <= |s|
    ensures s[..k] + s[k..j] == s[..j]
  {
  }

  /** A chunk t found at position at of s: its slices are slices of s. */
  lemma {:induction false} SubSlice<T>(s: seq<T>, at: nat, t: seq<T>, from: nat, to: nat)
    requires at + |t| <= |s| && s[at..at + |t|] == t && from <= to <= |t|
    ensures s[at + from..at + to] == t[from..to]
  {
    forall k | 0 <= k < to - from
      ensures s[at + from..at + to][k] == t[from..to][k]
    {
      assert t[from + k] == s[at..at + |t|][from + k];
    }
  }

  /** The k oldest pending bits are the register shifted right by the rest;
      the rest stay pending. */
  lemma {:induction false} RegTake(buf: nat, got: nat, pending: seq<bit>, k: nat, width: nat)
    requires Holds(buf, got, pending, width) && k <= got
    ensures Low(Shr(buf, got - k), k) == FromBits(pending[..k]) < Pow2(k)
    ensures Holds(buf, got - k, pending[k..], width)
  {
    assert pending == pending[..k] + pending[k..];
    LowIsMod(buf, got);
    LowIsMod(buf, got - k);
    ShrIsDiv(buf, got - k);
    LowIsMod(buf / Pow2(got - k), k);
    Split(buf, pending[..k], pending[k..]);
  }

  /** Shifting the pending bits left to fill a k-bit group appends zeros. */
  lemma {:induction false} RegFill(buf: nat, got: nat, pending: seq<bit>, k: nat, width: nat)
    requires Holds(buf, got, pending, width) && got <= k
    ensures Low(Shl(buf, k - got), k) == FromBits(pending + ZeroBits(k - got)) < Pow2(k)
  {
    var m := k - got;
    var zeros := ZeroBits(m);
    ShlIsMul(buf, m);
    LowIsMod(buf, got);
    LowIsMod(buf * Pow2(m), k);
    ShiftIn(buf, 0, got, m, k);
    FromBitsAppend(pending, zeros);
    FromBitsZeros(m);
    assert FromBits(pending + zeros) == FromBits(pending) * Pow2(m);
  }

  // ---------------------------------------------------------------------
  // Groups of w bits.

  /** The concatenated w-bit representations of vs. */
  function Pack(vs: seq<nat>, w: nat): (r: seq<bit>)
  {
    if |vs| == 0 then [] else ToBits(vs[0], w) + Pack(vs[1..], w)
  }

  /** The values of the whole w-bit groups of s, a trailing partial group
      being dropped. */
  function Unpack(s: seq<bit>, w: nat): (r: seq<nat>)
    requires w > 0
    ensures forall i :: 0 <= i < |r| ==> r[i] < Pow2(w)
  {
    if |s| < w then [] else [FromBits(s[..w])] + Unpack(s[w..], w)
  }

  lemma {:induction false} PackLength(vs: seq<nat>, w: nat)
    ensures |Pack(vs, w)| == |vs| * w
  {
    if |vs| > 0 {
      PackLength(vs[1..], w);
      MulAdd(1, |vs| - 1, w);
    }
  }

  lemma {:induction false} UnpackLength(s: seq<bit>, w: nat)
    requires w > 0
    ensures |Unpack(s, w)| == |s| / w
  {
    if |s| < w {
      DivModUnique(|s|, w, 0, |s|);
    } else {
      DivModStep(|s|, w);
      UnpackLength(s[w..], w);
    }
  }

  predicate Fits(vs: seq<nat>, w: nat)
  {
    forall i :: 0 <= i < |vs| ==> vs[i] < Pow2(w)
  }

  lemma {:induction false} PackAppend(a: seq<nat>, b: seq<nat>, w: nat)
    ensures Pack(a + b, w) == Pack(a, w) + Pack(b, w)
  {
    if |a| == 0 {
      assert a + b == b;
    } else {
      assert (a + b)[1..] == a[1..] + b;
      PackAppend(a[1..], b, w);
    }
  }

  /** A single value packs to its own w bits. */
  lemma {:induction false} PackOne(v: nat, w: nat)
    ensures Pack([v], w) == ToBits(v, w)
  {
    assert [v][1..] == [];
  }

  /** Packing one more element of vs appends its bits. */
  lemma {:induction false} PackSnoc(vs: seq<nat>, k: nat, w: nat)
    requires k < |vs|
    ensures Pack(vs[..k + 1], w) == Pack(vs[..k], w) + ToBits(vs[k], w)
  {
    assert vs[..k + 1] == vs[..k] + [vs[k]];
    PackAppend(vs[..k], [vs[k]], w);
  }

  lemma {:induction false} UnpackAppend(a: seq<bit>, b: seq<bit>, w: nat)
    requires w > 0 && |a| % w == 0
    ensures Unpack(a + b, w) == Unpack(a, w) + Unpack(b, w)
  {
    if |a| == 0 {
      assert a + b == b;
    } else {
      assert (a + b)[..w] == a[..w];
      assert (a + b)[w..] == a[w..] + b;
      DivModStep(|a|, w);
      UnpackAppend(a[w..], b, w);
    }
  }

  lemma {:induction false} UnpackOne(s: seq<bit>, w: nat)
    requires w > 0 && |s| == w
    ensures Unpack(s, w) == [FromBits(s)]
  {
    assert s[..w] == s;
    assert Unpack(s[w..], w) == [];
  }

  /** Unpacking after appending one whole group appends its value. */
  lemma {:induction false} UnpackSnoc(done: seq<bit>, g: seq<bit>, w: nat)
    requires w > 0 && |done| % w == 0 && |g| == w
    ensures Unpack(done + g, w) == Unpack(done, w) + [FromBits(g)]
  {
    UnpackAppend(done, g, w);
    UnpackOne(g, w);
  }

  /** Whole groups survive unpacking and repacking. */
  lemma {:induction false} PackUnpack(s: seq<bit>, w: nat)
    requires w > 0 && |s| % w == 0
    ensures Pack(Unpack(s, w), w) == s
  {
    if |s| > 0 {
      var u := Unpack(s, w);
      assert u[1..] == Unpack(s[w..], w);
      DivModStep(|s|, w);
      PackUnpack(s[w..], w);
      ToFromBits(s[..w]);
      assert s == s[..w] + s[w..];
    }
  }

  /** Values that fit in w bits survive packing and unpacking, whatever
      short tail (fewer than w bits) follows them. */
  lemma {:induction false} UnpackPack(vs: seq<nat>, t: seq<bit>, w: nat)
    requires w > 0 && |t| < w && Fits(vs, w)
    ensures Unpack(Pack(vs, w) + t, w) == vs
  {
    if |vs| > 0 {
      var s := Pack(vs, w) + t;
      assert s[..w] == ToBits(vs[0], w);
      assert s[w..] == Pack(vs[1..], w) + t;
      FromToBits(vs[0], w);
      UnpackPack(vs[1..], t, w);
    }
  }
}
