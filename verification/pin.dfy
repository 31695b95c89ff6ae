/** The PIN guard: the keypad entry is packed into a 32-bit code, compared
    with the secret PIN, and every failure from the third on imposes a
    cooldown that grows with the number of failures. */
module Pin {
  import opened Bytes
  import opened Bits
  import opened Results

  /** The secret PIN before one is set: the code of "1234". */
  const DummyPin: u32 := 0xffff1234
  const MaxPinLen: nat := 8
  const PinFreeAttempts: nat := 3
  const PinWaitMinS: nat := 60
  const PinWaitMaxS: nat := 3600
  const PinWaitLog2: nat := 6
  /** The longest wait PIN_WAIT_S gives as written: PinWaitMinS << PinWaitLog2. */
  const PinWaitLongest: nat := 3840

  /** The code of the empty entry: every nibble is padding. */
  const Blank: u32 := 0xffff_ffff

  function Pow16(n: nat): (r: nat)
    ensures r > 0
  {
    if n == 0 then 1 else 16 * Pow16(n - 1)
  }

  lemma {:induction false} Pow16Monotone(a: nat, b: nat)
    requires a <= b
    ensures Pow16(a) <= Pow16(b)
  {
    if a < b {
      Pow16Monotone(a, b - 1);
    }
  }

  lemma Pow16Of8()
    ensures Pow16(8) == U32Mod
  {
    assert Pow16(4) == 0x1_0000;
  }

  // ---------------------------------------------------------------------
  // pin_encode.

  /** A character minus '0', converted to uint32 for the OR. */
  function Nibble(c: byte): u32
  {
    (c - '0' as int) % U32Mod
  }

  /** One step of pin_encode: pin << 4 | (c - '0'), in 32 bits. */
  function Shift(pin: u32, c: byte): u32
  {
    var high := Shl(pin, 4) % U32Mod;
    Pow2Of32();
    OrBound(high, Nibble(c), 32);
    Or(high, Nibble(c))
  }

  /** pin_encode: the characters, first to last, shifted into an all-ones
      word; the bytes are the C string without its NUL. */
  function PinEncode(s: seq<byte>): u32
    decreases |s|
  {
    if s == [] then Blank else Shift(PinEncode(s[..|s| - 1]), s[|s| - 1])
  }

  predicate IsDigit(c: byte)
  {
    '0' as int <= c <= '9' as int
  }

  predicate Digits(s: seq<byte>)
  {
    forall i :: 0 <= i < |s| ==> IsDigit(s[i])
  }

  /** The digits read as a hexadecimal number, most significant first. */
  function Hex(s: seq<byte>): (r: nat)
    requires Digits(s)
    ensures r < Pow16(|s|)
  {
    if s == [] then 0 else 16 * Hex(s[..|s| - 1]) + (s[|s| - 1] - '0' as int)
  }

  /** Shifting in a digit multiplies by 16, drops what leaves the word and
      adds the digit. */
  lemma ShiftDigit(pin: u32, c: byte)
    requires IsDigit(c)
    ensures Shift(pin, c) == (pin * 16) % U32Mod + (c - '0' as int)
  {
    var q := pin % 0x1000_0000;
    var d := c - '0' as int;
    Pow2Of4();
    ShlIsMul(pin, 4);
    ShlIsMul(q, 4);
    DropTop(pin);
    assert Shl(pin, 4) % U32Mod == Shl(q, 4);
    assert Nibble(c) == d;
    OrShl(q, d, 4);
    assert Shift(pin, c) == Or(Shl(q, 4), d);
  }

  lemma Pow2Of4()
    ensures Pow2(4) == 16
  {
    assert Pow2(2) == 4;
  }

  /** Multiplying by 16 in 32 bits drops the top nibble. */
  lemma DropTop(pin: u32)
    ensures (pin * 16) % U32Mod == (pin % 0x1000_0000) * 16
  {
    DivModUnique(pin * 16, U32Mod, pin / 0x1000_0000, (pin % 0x1000_0000) * 16);
  }

  /** A digit string of at most eight digits is encoded as its digits in
      the low nibbles under all-ones padding. */
  lemma {:induction false} PinEncodeDigits(s: seq<byte>)
    requires Digits(s) && |s| <= MaxPinLen
    ensures PinEncode(s) == U32Mod - Pow16(|s|) + Hex(s)
  {
    if s != [] {
      var n := |s|;
      var s' := s[..n - 1];
      var d := s[n - 1] - '0' as int;
      assert Digits(s');
      PinEncodeDigits(s');
      var P := Pow16(n - 1);
      var H := Hex(s');
      ShiftDigit(PinEncode(s'), s[n - 1]);
      Pow16Monotone(n, 8);
      Pow16Of8();
      var low := U32Mod - 16 * P + 16 * H;
      assert (U32Mod - P + H) * 16 == 15 * U32Mod + low;
      DivModUnique((U32Mod - P + H) * 16, U32Mod, 15, low);
    }
  }

  /** The digit string a code of k nibbles stands for: the nibbles below
      the all-ones padding, each of which must be a decimal digit. */
  function Unshift(p: nat, k: nat): (r: Option<seq<byte>>)
    ensures r.Some? ==> |r.value| <= k && Digits(r.value)
  {
    if p == Pow16(k) - 1 then Some([])
    else if k == 0 || p % 16 > 9 then None
    else match Unshift(p / 16, k - 1)
      case None => None
      case Some(ds) => Some(ds + [p % 16 + '0' as int])
  }

  /** The PIN a 32-bit code stands for, if any. */
  function PinDecode(p: u32): Option<seq<byte>>
  {
    Unshift(p, MaxPinLen)
  }

  lemma {:induction false} UnshiftDigits(s: seq<byte>, k: nat, p: nat)
    requires Digits(s) && |s| <= k && p == Pow16(k) - Pow16(|s|) + Hex(s)
    ensures Unshift(p, k) == Some(s)
  {
    if s != [] {
      var n := |s|;
      var s' := s[..n - 1];
      var d := s[n - 1] - '0' as int;
      assert Digits(s');
      Pow16Monotone(n - 1, k - 1);
      var q := Pow16(k - 1) - Pow16(n - 1) + Hex(s');
      assert p == q * 16 + d;
      DivModUnique(p, 16, q, d);
      UnshiftDigits(s', k - 1, q);
      assert s' + [d + '0' as int] == s;
    }
  }

  lemma {:induction false} UnshiftSound(p: nat, k: nat)
    requires p < Pow16(k) && Unshift(p, k).Some?
    ensures var ds := Unshift(p, k).value;
      p == Pow16(k) - Pow16(|ds|) + Hex(ds)
  {
    if p != Pow16(k) - 1 {
      var ds' := Unshift(p / 16, k - 1).value;
      UnshiftSound(p / 16, k - 1);
      var ds := ds' + [p % 16 + '0' as int];
      assert ds[..|ds| - 1] == ds';
      assert Hex(ds) == 16 * Hex(ds') + p % 16;
    }
  }

  /** Decoding undoes pin_encode on PINs of up to eight digits. */
  lemma PinDecodeEncode(s: seq<byte>)
    requires Digits(s) && |s| <= MaxPinLen
    ensures PinDecode(PinEncode(s)) == Some(s)
  {
    PinEncodeDigits(s);
    Pow16Of8();
    UnshiftDigits(s, MaxPinLen, PinEncode(s));
  }

  /** Every code that decodes is the encoding of the PIN it decodes to. */
  lemma PinEncodeDecode(p: u32)
    requires PinDecode(p).Some?
    ensures PinEncode(PinDecode(p).value) == p
  {
    Pow16Of8();
    UnshiftSound(p, MaxPinLen);
    PinEncodeDigits(PinDecode(p).value);
  }

  /** Different PINs of up to eight digits get different codes. */
  lemma PinEncodeInjective(s: seq<byte>, t: seq<byte>)
    requires Digits(s) && |s| <= MaxPinLen && Digits(t) && |t| <= MaxPinLen
    requires s != t
    ensures PinEncode(s) != PinEncode(t)
  {
    PinDecodeEncode(s);
    PinDecodeEncode(t);
  }

  /** The default secret is the code of "1234". */
  lemma DummyPinIs1234()
    ensures PinEncode(['1' as int, '2' as int, '3' as int, '4' as int]) == DummyPin
  {
    var s: seq<byte> := ['1' as int, '2' as int, '3' as int, '4' as int];
    assert Digits(s);
    PinEncodeDigits(s);
    var s1, s2, s3 := s[..1], s[..2], s[..3];
    assert s1[..0] == [] && s2[..1] == s1 && s3[..2] == s2 && s[..3] == s3;
    assert Hex(s1) == 1;
    assert Hex(s2) == 0x12;
    assert Hex(s3) == 0x123;
    assert Hex(s) == 0x1234;
    assert Pow16(4) == 0x1_0000;
  }

  // ---------------------------------------------------------------------
  // The cooldown.

  function Min(a: nat, b: nat): nat
  {
    if a <= b then a else b
  }

  /** PIN_WAIT_S as written: no wait for the free attempts, then 60 << (a -
      3) seconds up to a = 3 + PinWaitLog2, then PinWaitMaxS. */
  function PinWaitAsWritten(attempts: u32): nat
  {
    if attempts < PinFreeAttempts then 0
    else if attempts > PinFreeAttempts + PinWaitLog2 then PinWaitMaxS
    else Shl(PinWaitMinS, attempts - PinFreeAttempts)
  }

  /** PIN_WAIT_S as written waits 3840 s after the ninth failure, longer
      than PinWaitMaxS and longer than after the tenth. */
  lemma PinWaitAsWrittenExample()
    ensures PinWaitAsWritten(9) == 3840 > PinWaitMaxS
    ensures PinWaitAsWritten(10) < PinWaitAsWritten(9)
  {
    ShlIsMul(PinWaitMinS, 6);
    assert Pow2(6) == 64 by {
      assert Pow2(3) == 8;
    }
  }

  /** PIN_WAIT_S as written is zero exactly for the free attempts and
      never exceeds PinWaitLongest. */
  lemma PinWaitAsWrittenBounded(a: u32)
    ensures PinWaitAsWritten(a) == 0 <==> a < PinFreeAttempts
    ensures PinWaitAsWritten(a) <= PinWaitLongest
  {
    if PinFreeAttempts <= a <= PinFreeAttempts + PinWaitLog2 {
      var k := a - PinFreeAttempts;
      ShlIsMul(PinWaitMinS, k);
      Pow2Monotone(k, PinWaitLog2);
      Pow2Monotone(0, k);
      assert Pow2(6) == 64 by {
        assert Pow2(3) == 8;
      }
      MulLe(Pow2(k), 64, PinWaitMinS);
    }
  }

  /** The wait doubled from PinWaitMinS and capped at PinWaitMaxS. */
  function PinWait(attempts: u32): nat
  {
    if attempts < PinFreeAttempts then 0
    else if attempts > PinFreeAttempts + PinWaitLog2 then PinWaitMaxS
    else Min(Shl(PinWaitMinS, attempts - PinFreeAttempts), PinWaitMaxS)
  }

  /** The wait is zero exactly for the free attempts, PinWaitMinS at the
      first paid one, and doubles from one failure to the next until it
      reaches PinWaitMaxS. */
  lemma PinWaitSteps(a: u32)
    ensures PinWait(a) == 0 <==> a < PinFreeAttempts
    ensures a == PinFreeAttempts ==> PinWait(a) == PinWaitMinS
    ensures PinFreeAttempts <= a < U32Mod - 1 ==> PinWait(a + 1) == Min(2 * PinWait(a), PinWaitMaxS)
  {
    if PinFreeAttempts <= a < U32Mod - 1 {
      if a + 1 <= PinFreeAttempts + PinWaitLog2 {
        assert Shl(PinWaitMinS, a + 1 - PinFreeAttempts) == 2 * Shl(PinWaitMinS, a - PinFreeAttempts);
      } else if a <= PinFreeAttempts + PinWaitLog2 {
        ShlIsMul(PinWaitMinS, a - PinFreeAttempts);
        Pow2Monotone(5, a - PinFreeAttempts);
        assert Pow2(5) == 32;
      }
    }
  }

  /** The wait never exceeds PinWaitMaxS. */
  lemma PinWaitBounded(a: u32)
    ensures PinWait(a) <= PinWaitMaxS
  {
  }

  /** More failures never mean a shorter wait. */
  lemma {:induction false} PinWaitMonotone(a: u32, b: u32)
    requires a <= b
    ensures PinWait(a) <= PinWait(b)
  {
    if a < b {
      PinWaitMonotone(a, b - 1);
      PinWaitSteps(b - 1);
    }
  }

  // ---------------------------------------------------------------------
  // The PIN state: pin_revalidate, pin_cooldown_ms, pin_change.

  /** secret_pin, pin_cooldown (the time in ms the cooldown ends) and
      pin_attempts (the failures since the last success). */
  datatype PinState = PinState(secret: u32, cooldown: u32, attempts: u32)

  const Boot: PinState := PinState(DummyPin, 0, 0)

  /** Whether the call succeeded, and the state after it. */
  datatype Outcome = Outcome(ok: bool, after: PinState)

  /** Which wait a failure imposes: PIN_WAIT_S as written, or the wait
      capped at PinWaitMaxS that its limits describe. */
  datatype Wait = WaitAsWritten | WaitCapped

  function WaitS(rule: Wait, attempts: u32): nat
  {
    if rule == WaitAsWritten then PinWaitAsWritten(attempts) else PinWait(attempts)
  }

  /** pin_revalidate at time now (ms), with the wait rule: WaitAsWritten is
      the code. */
  function Revalidate(st: PinState, now: u32, pin: u32, rule: Wait): (r: Outcome)
    ensures r.ok <==> pin == st.secret
    ensures r.after.secret == st.secret
    ensures r.ok ==> r.after.attempts == 0 && r.after.cooldown == 0
    ensures !r.ok ==> r.after.attempts == (st.attempts + 1) % U32Mod
    ensures !r.ok && r.after.attempts < PinFreeAttempts ==> r.after.cooldown == st.cooldown
  {
    if pin == st.secret then Outcome(true, st.(attempts := 0, cooldown := 0))
    else
      var attempts := (st.attempts + 1) % U32Mod;
      var cooldown := if attempts >= PinFreeAttempts then (now + WaitS(rule, attempts) * 1000) % U32Mod
                      else st.cooldown;
      Outcome(false, PinState(st.secret, cooldown, attempts))
  }

  /** pin_cooldown_ms: how long until the cooldown ends, or 0 if it has. */
  function CooldownMs(st: PinState, now: u32): (r: u32)
    ensures r == 0 <==> st.cooldown <= now
    ensures r > 0 ==> now + r == st.cooldown
  {
    if st.cooldown <= now then 0 else st.cooldown - now
  }

  /** After a correct PIN there is no cooldown, whatever the time. */
  lemma RevalidateClears(st: PinState, now: u32, t: u32, rule: Wait)
    requires Revalidate(st, now, st.secret, rule).ok
    ensures CooldownMs(Revalidate(st, now, st.secret, rule).after, t) == 0
  {
  }

  /** After a failure from the third on, the cooldown runs exactly the
      wait of the rule for that many failures from now, unless the clock
      would wrap. */
  lemma RevalidateLocks(st: PinState, now: u32, pin: u32, rule: Wait)
    requires pin != st.secret && PinFreeAttempts <= st.attempts + 1 < U32Mod
    requires now + PinWaitLongest * 1000 < U32Mod
    ensures var after := Revalidate(st, now, pin, rule).after;
      var wait := WaitS(rule, after.attempts) * 1000;
      CooldownMs(after, now) == wait > 0 &&
      forall t: u32 :: now <= t ==> (CooldownMs(after, t) == 0 <==> now + wait <= t)
  {
    PinWaitSteps(st.attempts + 1);
    PinWaitBounded(st.attempts + 1);
    PinWaitAsWrittenBounded(st.attempts + 1);
  }

  /** The ninth failure in a row locks pin_revalidate for 3840 s, where
      the capped wait gives PinWaitMaxS. */
  lemma RevalidateAsWrittenExample(secret: u32, pin: u32)
    requires pin != secret
    ensures Revalidate(PinState(secret, 0, 8), 0, pin, WaitAsWritten).after.cooldown == 3_840_000
    ensures Revalidate(PinState(secret, 0, 8), 0, pin, WaitCapped).after.cooldown == 3_600_000
  {
    PinWaitAsWrittenExample();
  }

  /** pin_change: the old PIN is checked (counting a failure if wrong), and
      the new one replaces it unless it is the same. */
  function Change(st: PinState, now: u32, oldPin: u32, newPin: u32, rule: Wait): (r: Outcome)
    ensures r.ok <==> oldPin == st.secret && newPin != oldPin
    ensures r.after.secret == if r.ok then newPin else st.secret
    ensures r.after.(secret := st.secret) == Revalidate(st, now, oldPin, rule).after
  {
    var v := Revalidate(st, now, oldPin, rule);
    if !v.ok then Outcome(false, v.after)
    else if oldPin == newPin then Outcome(false, v.after)
    else Outcome(true, v.after.(secret := newPin))
  }

  /** After a change the new PIN is accepted and the old one refused. */
  lemma ChangeThenValidate(st: PinState, now: u32, oldPin: u32, newPin: u32, t: u32, rule: Wait)
    requires Change(st, now, oldPin, newPin, rule).ok
    ensures var after := Change(st, now, oldPin, newPin, rule).after;
      Revalidate(after, t, newPin, rule).ok && !Revalidate(after, t, oldPin, rule).ok
  {
  }
}
