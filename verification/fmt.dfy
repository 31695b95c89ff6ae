/** print_number: an unsigned number written in base 2 to 16, zero-padded
    on the left to a minimum width, into a NUL-terminated buffer. */
module Fmt {
  import opened Bytes
  import opened Bits
  import opened Results

  type u64 = x: nat | x < 0x1_0000_0000_0000_0000

  const Alphabet: string := "0123456789abcdef"

  predicate IsBase(base: nat)
  {
    2 <= base <= |Alphabet|
  }

  function Max(a: nat, b: nat): nat
  {
    if a >= b then a else b
  }

  /** How often v can be divided by base before it reaches zero. */
  function Count(v: nat, base: nat): nat
    requires IsBase(base)
  {
    if v == 0 then 0 else 1 + Count(v / base, base)
  }

  /** The number of digits print_number writes for v: zero has one. */
  function NumDigits(v: nat, base: nat): nat
    requires IsBase(base)
  {
    if v == 0 then 1 else Count(v, base)
  }

  /** v in the given base, most significant digit first, with no leading
      zero: the reference the printed digits are compared with. */
  function Render(v: nat, base: nat): string
    requires IsBase(base)
  {
    if v < base then [Alphabet[v]] else Render(v / base, base) + [Alphabet[v % base]]
  }

  /** The n low digits of v, most significant first, in the order the
      printing loop stores them from the right. */
  function Fixed(v: nat, n: nat, base: nat): (r: string)
    requires IsBase(base)
    ensures |r| == n
  {
    if n == 0 then [] else Fixed(v / base, n - 1, base) + [Alphabet[v % base]]
  }

  /** The value of a digit of the alphabet that is below base. */
  function DigitValue(c: char, base: nat): (r: Option<nat>)
    requires IsBase(base)
    ensures r.Some? ==> r.value < base && Alphabet[r.value] == c
  {
    var d := if '0' <= c <= '9' then c as int - '0' as int
             else if 'a' <= c <= 'f' then c as int - 'a' as int + 10
             else -1;
    if 0 <= d < base then Some(d) else None
  }

  /** The value of a string of digits, most significant first; None if a
      character is not a digit of the base. */
  function Parse(s: string, base: nat): Option<nat>
    requires IsBase(base)
  {
    if s == [] then Some(0)
    else match (Parse(s[..|s| - 1], base), DigitValue(s[|s| - 1], base))
      case (Some(p), Some(d)) => Some(p * base + d)
      case _ => None
  }

  // ---------------------------------------------------------------------
  // Lemmas about the reference.

  /** Every digit of the alphabet below base reads back as its index. */
  lemma DigitRoundTrip(d: nat, base: nat)
    requires IsBase(base) && d < base
    ensures DigitValue(Alphabet[d], base) == Some(d)
  {
  }

  /** Division by the base: a one-digit number leaves no quotient, a
      longer one a smaller, positive quotient. */
  lemma DivBase(v: nat, base: nat)
    requires IsBase(base)
    ensures v == v / base * base + v % base && v % base < base
    ensures v < base ==> v / base == 0 && v % base == v
    ensures v >= base ==> 0 < v / base < v
  {
    if v < base {
      DivModUnique(v, base, 0, v);
    }
  }

  /** The fixed-width digits of v in exactly as many places as v has
      digits are its rendering. */
  lemma {:induction false} FixedRender(v: nat, base: nat)
    requires IsBase(base)
    ensures Fixed(v, NumDigits(v, base), base) == Render(v, base)
  {
    DivBase(v, base);
    var q, d := v / base, Alphabet[v % base];
    if v >= base {
      assert NumDigits(v, base) == 1 + NumDigits(q, base);
      FixedRender(q, base);
      assert Fixed(v, 1 + NumDigits(q, base), base) == Fixed(q, NumDigits(q, base), base) + [d];
      assert Render(v, base) == Render(q, base) + [d];
    } else {
      if v > 0 {
        assert Count(v, base) == 1 + Count(q, base);
      }
      assert NumDigits(v, base) == 1;
      assert Fixed(v, 1, base) == Fixed(q, 0, base) + [d];
    }
  }

  /** Rendered digits read back as the number. */
  lemma {:induction false} ParseRender(v: nat, base: nat)
    requires IsBase(base)
    ensures Parse(Render(v, base), base) == Some(v)
  {
    DivBase(v, base);
    var q, m := v / base, v % base;
    if v >= base {
      ParseRender(q, base);
      ParseDigit(Render(q, base), q, m, base);
      assert Render(v, base) == Render(q, base) + [Alphabet[m]];
    } else {
      ParseDigit([], 0, v, base);
      assert Render(v, base) == [] + [Alphabet[v]];
    }
  }

  /** Appending the digit m to digits worth p gives p * base + m. */
  lemma ParseDigit(t: string, p: nat, m: nat, base: nat)
    requires IsBase(base) && Parse(t, base) == Some(p) && m < base
    ensures Parse(t + [Alphabet[m]], base) == Some(p * base + m)
  {
    DigitRoundTrip(m, base);
    ParseSnoc(t, Alphabet[m], base);
  }

  /** Parsing one more digit multiplies by the base and adds it. */
  lemma ParseSnoc(t: string, c: char, base: nat)
    requires IsBase(base)
    ensures Parse(t + [c], base) ==
      if Parse(t, base).Some? && DigitValue(c, base).Some?
      then Some(Parse(t, base).value * base + DigitValue(c, base).value) else None
  {
    assert (t + [c])[..|t|] == t;
  }

  function Zeros0(n: nat): (r: string)
    ensures |r| == n && forall i :: 0 <= i < n ==> r[i] == '0'
  {
    seq(n, _ => '0')
  }

  /** Leading zeros do not change the value. */
  lemma {:induction false} ParsePad(k: nat, t: string, base: nat)
    requires IsBase(base)
    ensures Parse(Zeros0(k) + t, base) == Parse(t, base)
  {
    if t == [] {
      assert Zeros0(k) + t == Zeros0(k);
      ParseZeros(k, base);
    } else {
      var t' := t[..|t| - 1];
      assert (Zeros0(k) + t)[..|Zeros0(k) + t| - 1] == Zeros0(k) + t';
      ParsePad(k, t', base);
    }
  }

  lemma {:induction false} ParseZeros(k: nat, base: nat)
    requires IsBase(base)
    ensures Parse(Zeros0(k), base) == Some(0)
  {
    if k > 0 {
      assert Zeros0(k)[..k - 1] == Zeros0(k - 1);
      ParseZeros(k - 1, base);
    }
  }

  /** A rendering has exactly NumDigits characters, and v needs all of
      them: it is below base^n and, unless zero, at least base^(n-1). */
  lemma {:induction false} RenderLength(v: nat, base: nat)
    requires IsBase(base)
    ensures var n := |Render(v, base)|;
      n == NumDigits(v, base) && v < Power(base, n) && (v == 0 || Power(base, n - 1) <= v)
  {
    FixedRender(v, base);
    DivBase(v, base);
    if v >= base {
      var q, m := v / base, v % base;
      RenderLength(q, base);
      var n := |Render(q, base)|;
      assert |Render(v, base)| == n + 1;
      assert Power(base, n + 1) == base * Power(base, n);
      ScaleBounds(q, m, base, Power(base, n - 1), Power(base, n));
      MulComm(base, Power(base, n));
      MulComm(base, Power(base, n - 1));
    }
  }

  /** If lo <= q < hi then lo * b <= q * b + m < hi * b, for a digit m. */
  lemma ScaleBounds(q: nat, m: nat, b: nat, lo: nat, hi: nat)
    requires m < b && lo <= q < hi
    ensures lo * b <= q * b + m < hi * b
  {
    MulLe(lo, q, b);
    MulLe(q + 1, hi, b);
  }

  function Power(b: nat, n: nat): (r: nat)
    requires b >= 1
    ensures r >= 1
  {
    if n == 0 then 1 else b * Power(b, n - 1)
  }

  /** A 64-bit number has at most 64 digits, so the count fits a byte. */
  lemma {:induction false} CountBound(v: nat, base: nat, k: nat)
    requires IsBase(base) && v < Pow2(k)
    ensures Count(v, base) <= k
  {
    if v > 0 {
      DivBase(v, base);
      var q := v / base;
      MulLe(2, base, q);
      assert q * 2 <= v;
      CountBound(q, base, k - 1);
    }
  }

  lemma Pow2Of64()
    ensures Pow2(64) == 0x1_0000_0000_0000_0000
  {
    Pow2Of32();
    Pow2Add(32, 32);
  }

  // ---------------------------------------------------------------------
  // print_number.

  /** The digit-counting loop of do_print_number. */
  method CountDigits(v: u64, base: nat) returns (digits: byte)
    requires IsBase(base)
    ensures digits == NumDigits(v, base) <= 64
  {
    Pow2Of64();
    CountBound(v, base, 64);
    var n: nat := 0;
    if v == 0 {
      n := 1;
    } else {
      var tmp: nat := v;
      while tmp != 0
        invariant n + Count(tmp, base) == Count(v, base)
        decreases tmp
      {
        DivBase(tmp, base);
        n := n + 1;
        tmp := tmp / base;
      }
    }
    digits := n;
  }

  /** The padding loop: a '0' for each place len exceeds digits. */
  method Pad(len: byte, digits: byte) returns (s: string)
    ensures s == Zeros0(if len > digits then len - digits else 0)
  {
    s := [];
    var left: nat := len;
    while left > digits
      invariant left <= len && s == Zeros0(len - left)
      invariant left == len || left >= digits
    {
      s := s + ['0'];
      left := left - 1;
    }
    assert left == if len > digits then digits else len;
  }

  /** The digit loop: from the right, each place gets the digit of the
      current remainder, and the number is divided by the base. */
  method FillDigits(v: u64, digits: byte, base: nat) returns (buf: string)
    requires IsBase(base)
    ensures buf == Fixed(v, digits, base)
  {
    buf := Zeros0(digits);
    var i: nat := digits;
    var cur: nat := v;
    while i > 0
      invariant i <= digits && |buf| == digits
      invariant Fixed(v, digits, base) == Fixed(cur, i, base) + buf[i..]
    {
      var next := buf[i - 1 := Alphabet[cur % base]];
      assert next[i - 1..] == [Alphabet[cur % base]] + buf[i..];
      buf := next;
      cur := cur / base;
      i := i - 1;
    }
  }

  /** print_number: the buffer written, up to and including its NUL, and
      the number of characters before the NUL. */
  method PrintNumber(v: u64, len: byte, base: nat) returns (s: string, res: byte)
    requires IsBase(base)
    ensures res == Max(len, NumDigits(v, base))
    ensures |s| == res + 1 && s[res] == '\0'
    ensures s[..res] == Zeros0(res - NumDigits(v, base)) + Render(v, base)
    ensures Parse(s[..res], base) == Some(v)
  {
    var digits := CountDigits(v, base);
    res := if digits > len then digits else len;
    var pad := Pad(len, digits);
    var buf := FillDigits(v, digits, base);
    FixedRender(v, base);
    ParseRender(v, base);
    ParsePad(res - digits, Render(v, base), base);
    s := pad + buf + ['\0'];
    assert s[..res] == pad + buf;
  }
}
