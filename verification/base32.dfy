/** Base32 as in RFC 4648 (crypto/base32.c): the reference encoding, the
    two C shift-register loops as methods tied to it, and the round trip. */
module Base32 {
  import opened Bits
  import opened Bytes
  import opened Results

  /** The alphabet "ABCDEFGHIJKLMNOPQRSTUVWXYZ234567": symbol v is the v-th
      letter for v < 26 and the digit v - 24 above. */
  function SymbolChar(v: nat): char
    requires v < 32
  {
    if v < 26 then ('A' as int + v) as char else ('2' as int + v - 26) as char
  }

  /** Characters the decoder skips wherever they appear. */
  const Ignored: seq<char> := "\r\n="

  /** The value of an alphabet character; None for any other character. */
  function CharValue(c: char): (r: Option<nat>)
    ensures r.Some? ==> r.value < 32 && SymbolChar(r.value) == c
  {
    if 'A' <= c <= 'Z' then Some(c as nat - 'A' as nat)
    else if '2' <= c <= '7' then Some(c as nat - '2' as nat + 26)
    else None
  }

  /** The alphabet has no repeated characters, and nothing else in it. */
  lemma {:induction false} CharValueOfSymbol(v: nat)
    requires v < 32
    ensures CharValue(SymbolChar(v)) == Some(v) && SymbolChar(v) !in Ignored
  {
  }

  /** The characters the decoder accepts without undefined behaviour. */
  predicate ValidText(s: seq<char>)
  {
    forall i :: 0 <= i < |s| ==> CharValue(s[i]).Some? || s[i] in Ignored
  }

  // ---------------------------------------------------------------------
  // Reference encoding.

  /** Zero bits appended so that the bit string fills whole symbols. */
  function PadBits(n: nat): nat
  {
    (5 - (8 * n) % 5) % 5
  }

  /** The 5-bit symbol values of data, the last one zero-filled. */
  function Symbols(data: seq<byte>): (r: seq<nat>)
    ensures Fits(r, 5)
  {
    Unpack(Pack(data, 8) + ZeroBits(PadBits(|data|)), 5)
  }

  function SymbolChars(vs: seq<nat>): (r: seq<char>)
    requires Fits(vs, 5)
    ensures |r| == |vs|
  {
    Pow2Of5();
    seq(|vs|, i requires 0 <= i < |vs| => SymbolChar(vs[i]))
  }

  /** '=' characters completing a group of eight. */
  function Fill(k: nat): nat
  {
    (8 - k % 8) % 8
  }

  /** The encoding of data, without the terminating NUL. */
  function EncodeText(data: seq<byte>): (r: seq<char>)
  {
    var syms := Symbols(data);
    SymbolChars(syms) + seq(Fill(|syms|), _ => '=')
  }

  /** Size of the result buffer, NUL included, that base32_encode needs. */
  function EncodeSize(n: nat): nat
  {
    (n + 4) / 5 * 8 + 1
  }

  /** One residue class of SymbolCount: 8n = 5(8q + a) + b, the padding
      tops b up to a multiple of five, and the symbols number 8q + c. */
  lemma {:induction false} SymbolCountCase(n: nat, q: nat, rem: nat, a: nat, b: nat, c: nat)
    requires n == q * 5 + rem && rem < 5 && b < 5 && c < 8
    requires 8 * rem == a * 5 + b && a * 5 + b + (5 - b) % 5 == c * 5
    requires (rem == 0) == (c == 0)
    ensures var k := (8 * n + PadBits(n)) / 5; k + Fill(k) == (n + 4) / 5 * 8
  {
    var m := 8 * n;
    assert m == (8 * q + a) * 5 + b;
    DivModUnique(m, 5, 8 * q + a, b);
    var k := (m + PadBits(n)) / 5;
    assert m + PadBits(n) == (8 * q + c) * 5;
    DivModUnique(m + PadBits(n), 5, 8 * q + c, 0);
    DivModUnique(k, 8, q, c);
    if rem == 0 {
      DivModUnique(n + 4, 5, q, 4);
    } else {
      DivModUnique(n + 4, 5, q + 1, rem - 1);
    }
  }

  /** The '='-filled encoding has eight characters per started five bytes. */
  lemma {:induction false} SymbolCount(n: nat)
    ensures var k := (8 * n + PadBits(n)) / 5; k + Fill(k) == (n + 4) / 5 * 8
  {
    var q, rem := n / 5, n % 5;
    if rem == 0 {
      SymbolCountCase(n, q, rem, 0, 0, 0);
    } else if rem == 1 {
      SymbolCountCase(n, q, rem, 1, 3, 2);
    } else if rem == 2 {
      SymbolCountCase(n, q, rem, 3, 1, 4);
    } else if rem == 3 {
      SymbolCountCase(n, q, rem, 4, 4, 5);
    } else {
      SymbolCountCase(n, q, rem, 6, 2, 7);
    }
  }

  /** Padding completes the last symbol and is shorter than a byte. */
  lemma {:induction false} PadFits(n: nat)
    ensures (8 * n + PadBits(n)) % 5 == 0 && PadBits(n) < 5
    ensures (8 * n + PadBits(n)) / 8 * 8 == 8 * n
  {
    var q, r := n / 5, n % 5;
    assert n == 5 * q + r;
  }

  /** The encoding is exactly one byte shorter than EncodeSize says. */
  lemma {:induction false} EncodeSizeExact(data: seq<byte>)
    ensures |EncodeText(data)| + 1 == EncodeSize(|data|)
  {
    var n := |data|;
    PackLength(data, 8);
    UnpackLength(Pack(data, 8) + ZeroBits(PadBits(n)), 5);
    SymbolCount(n);
  }

  // ---------------------------------------------------------------------
  // Reference decoding.

  /** The values of the alphabet characters of s, ignored characters
      skipped. */
  function Digits(s: seq<char>): (r: seq<nat>)
    requires ValidText(s)
    ensures Fits(r, 5)
  {
    if |s| == 0 then []
    else
      var c := s[|s| - 1];
      Digits(s[..|s| - 1]) + (if c in Ignored then [] else [CharValue(c).value])
  }

  function DecodedBits(s: seq<char>): (r: seq<bit>)
    requires ValidText(s)
  {
    Pack(Digits(s), 5)
  }

  /** The bytes s decodes to: every whole byte of its bit string. */
  function DecodedBytes(s: seq<char>): (r: seq<nat>)
    requires ValidText(s)
  {
    Unpack(DecodedBits(s), 8)
  }

  /** The bits left over after the last whole byte. */
  function TailBits(bits: seq<bit>): seq<bit>
  {
    bits[|bits| / 8 * 8..]
  }

  /** Decoding accepts s only when the left-over bits are all zero. */
  predicate Canonical(s: seq<char>)
    requires ValidText(s)
  {
    FromBits(TailBits(DecodedBits(s))) == 0
  }

  lemma {:induction false} DigitsOfSymbolChars(vs: seq<nat>)
    requires Fits(vs, 5)
    ensures ValidText(SymbolChars(vs)) && Digits(SymbolChars(vs)) == vs
  {
    if |vs| > 0 {
      var vs', v := vs[..|vs| - 1], vs[|vs| - 1];
      var t := SymbolChars(vs);
      assert t[..|t| - 1] == SymbolChars(vs');
      DigitsOfSymbolChars(vs');
      Pow2Of5();
      CharValueOfSymbol(v);
      assert t[|t| - 1] == SymbolChar(v);
      assert ValidText(t);
      assert Digits(t) == Digits(SymbolChars(vs')) + [v];
      assert vs == vs' + [v];
    }
  }

  lemma {:induction false} DigitsOfFill(t: seq<char>, k: nat)
    requires ValidText(t)
    ensures ValidText(t + seq(k, _ => '=')) && Digits(t + seq(k, _ => '=')) == Digits(t)
  {
    if k > 0 {
      var u := t + seq(k, _ => '=');
      assert u[..|u| - 1] == t + seq(k - 1, _ => '=');
      DigitsOfFill(t, k - 1);
    } else {
      assert t + seq(k, _ => '=') == t;
    }
  }

  /** Decoding the encoding of any byte string gives it back, and the
      encoding is canonical. */
  lemma {:induction false} RoundTrip(data: seq<byte>)
    ensures ValidText(EncodeText(data))
    ensures DecodedBytes(EncodeText(data)) == data
    ensures Canonical(EncodeText(data))
  {
    var syms := Symbols(data);
    var pad := ZeroBits(PadBits(|data|));
    var bits := Pack(data, 8) + pad;
    DigitsOfSymbolChars(syms);
    DigitsOfFill(SymbolChars(syms), Fill(|syms|));
    PackLength(data, 8);
    PadFits(|data|);
    PackUnpack(bits, 5);
    assert DecodedBits(EncodeText(data)) == bits;
    Pow2Of8();
    assert Fits(data, 8);
    UnpackPack(data, pad, 8);
    assert |bits| / 8 * 8 == |Pack(data, 8)|;
    assert bits[|Pack(data, 8)|..] == pad;
    FromBitsZeros(PadBits(|data|));
  }

  // ---------------------------------------------------------------------
  // The C loops.

  lemma {:induction false} PackStep(data: seq<byte>, i: nat)
    requires i < |data|
    ensures Pack(data[i..], 8) == ToBits(data[i], 8) + Pack(data[i + 1..], 8)
  {
    assert data[i..][1..] == data[i + 1..];
  }

  /** The symbols produced from the whole groups of a prefix of the padded
      bit string are a prefix of the encoding. */
  lemma {:induction false} EmittedPrefix(data: seq<byte>, done: seq<bit>, rest: seq<bit>)
    requires |done| % 5 == 0
    requires done + rest == Pack(data, 8) + ZeroBits(PadBits(|data|))
    ensures |done| / 5 <= |EncodeText(data)|
    ensures SymbolChars(Unpack(done, 5)) == EncodeText(data)[..|done| / 5]
  {
    UnpackAppend(done, rest, 5);
    UnpackLength(done, 5);
    assert Symbols(data) == Unpack(done, 5) + Unpack(rest, 5);
  }

  /** The number of zero bits padding the last symbol is what the shift
      register still holds, topped up to five. */
  lemma {:induction false} PadOfPending(n: nat, d: nat, got: nat)
    requires d + got == 8 * n && d % 5 == 0 && got < 5
    ensures PadBits(n) == if got == 0 then 0 else 5 - got
  {
  }

  /** The '=' fill ends exactly on a multiple of eight. */
  lemma {:induction false} FillEnds(k: nat, m: nat)
    requires k <= m <= k + Fill(k)
    ensures m % 8 == 0 <==> m == k + Fill(k)
  {
  }

  /** A failed write leaves the part of the output that fitted. */
  lemma {:induction false} FailedPrefix(data: seq<byte>, res: seq<char>, resSize: nat)
    requires |res| == resSize <= |EncodeText(data)|
    requires res == EncodeText(data)[..|res|]
    ensures res == (EncodeText(data) + ['\0'])[..resSize]
  {
    var text := EncodeText(data);
    assert (text + ['\0'])[..resSize] == text[..resSize];
  }

  /** The bits of data[..i] split into those already turned into symbols
      (done, whole symbols) and those still in the register (pending). */
  ghost predicate EncRead(data: seq<byte>, i: nat, done: seq<bit>, pending: seq<bit>)
  {
    i <= |data| && done + pending + Pack(data[i..], 8) == Pack(data, 8) && |done| % 5 == 0
  }

  /** res holds the symbols of the done bits. */
  ghost predicate EncOut(done: seq<bit>, res: seq<char>)
  {
    Fits(Unpack(done, 5), 5) && res == SymbolChars(Unpack(done, 5))
  }

  /** The encoder's loop state after reading data[..i]: the 16-bit
      register's low got bits hold the pending bits. */
  ghost predicate Encoder(data: seq<byte>, i: nat, buf: nat, got: nat,
                          done: seq<bit>, pending: seq<bit>, res: seq<char>)
  {
    Holds(buf, got, pending, 16) && EncRead(data, i, done, pending) && EncOut(done, res)
  }

  lemma {:induction false} ReadByte(data: seq<byte>, i: nat, done: seq<bit>, pending: seq<bit>)
    requires EncRead(data, i, done, pending) && i < |data|
    ensures EncRead(data, i + 1, done, pending + ToBits(data[i], 8))
  {
    PackStep(data, i);
  }

  lemma {:induction false} ReadSymbol(data: seq<byte>, i: nat, done: seq<bit>, pending: seq<bit>)
    requires EncRead(data, i, done, pending) && |pending| >= 5
    ensures EncRead(data, i, done + pending[..5], pending[5..])
  {
    assert done + pending == (done + pending[..5]) + pending[5..];
  }

  lemma {:induction false} EmitSymbol(done: seq<bit>, g: seq<bit>, res: seq<char>)
    requires EncOut(done, res) && |done| % 5 == 0 && |g| == 5
    ensures FromBits(g) < 32
    ensures EncOut(done + g, res + [SymbolChar(FromBits(g))])
  {
    Pow2Of5();
    UnpackSnoc(done, g, 5);
  }

  lemma {:induction false} LoadByte(data: seq<byte>, i: nat, buf: nat, got: nat,
                 done: seq<bit>, pending: seq<bit>, res: seq<char>)
    requires Encoder(data, i, buf, got, done, pending, res)
    requires i < |data| && got < 5
    ensures Encoder(data, i + 1, Low(Or(Shl(buf, 8), data[i]), 16), got + 8,
                    done, pending + ToBits(data[i], 8), res)
  {
    Pow2Of8();
    OrShl(buf, data[i], 8);
    RegShift(buf, got, pending, data[i], 8, 16);
    ReadByte(data, i, done, pending);
  }

  lemma {:induction false} EmitOne(data: seq<byte>, i: nat, buf: nat, got: nat,
                done: seq<bit>, pending: seq<bit>, res: seq<char>)
    requires Encoder(data, i, buf, got, done, pending, res)
    requires got >= 5
    ensures Low(Shr(buf, got - 5), 5) < 32
    ensures Encoder(data, i, buf, got - 5, done + pending[..5], pending[5..],
                    res + [SymbolChar(Low(Shr(buf, got - 5), 5))])
  {
    RegTake(buf, got, pending, 5, 16);
    ReadSymbol(data, i, done, pending);
    EmitSymbol(done, pending[..5], res);
  }

  /** Whatever the encoder has written so far starts the encoding. */
  lemma {:induction false} EncoderPrefix(data: seq<byte>, i: nat, buf: nat, got: nat,
                      done: seq<bit>, pending: seq<bit>, res: seq<char>)
    requires Encoder(data, i, buf, got, done, pending, res)
    ensures |res| <= |EncodeText(data)| && res == EncodeText(data)[..|res|]
  {
    EmittedPrefix(data, done, pending + Pack(data[i..], 8) + ZeroBits(PadBits(|data|)));
  }

  /** At the end of the data, the last, zero-filled symbol completes the
      symbols. */
  lemma {:induction false} LastSymbol(data: seq<byte>, buf: nat, got: nat,
                   done: seq<bit>, pending: seq<bit>, res: seq<char>)
    requires Encoder(data, |data|, buf, got, done, pending, res) && got < 5
    ensures Low(Shl(buf, 5 - got), 5) < 32
    ensures var last := if got > 0 then [SymbolChar(Low(Shl(buf, 5 - got), 5))] else [];
      res + last == SymbolChars(Symbols(data))
  {
    Pow2Of5();
    assert data[|data|..] == [];
    assert done + pending == Pack(data, 8);
    PackLength(data, 8);
    PadOfPending(|data|, |done|, got);
    var pad := ZeroBits(PadBits(|data|));
    RegFill(buf, got, pending, 5, 16);
    if got > 0 {
      var zeros := ZeroBits(5 - got);
      EmitSymbol(done, pending + zeros, res);
      assert Pack(data, 8) + pad == done + (pending + zeros);
    } else {
      assert Pack(data, 8) + pad == done;
    }
  }

  /** The symbol loop of base32_encode: fills res with the symbols of data,
      stopping when res holds resSize characters with more still to come
      (full). */
  method EncodeSymbols(data: seq<byte>, resSize: nat) returns (full: bool, res: seq<char>)
    ensures full ==> |res| == resSize < |EncodeText(data)| + 1
    ensures full ==> res == (EncodeText(data) + ['\0'])[..resSize]
    ensures !full ==> res == SymbolChars(Symbols(data)) && |res| <= resSize
  {
    var buf: nat := 0;
    var got: nat := 0;
    var i := 0;
    res := [];
    ghost var done: seq<bit> := [];
    ghost var pending: seq<bit> := [];
    while i < |data|
      invariant Encoder(data, i, buf, got, done, pending, res)
      invariant got < 5 && |res| <= resSize
    {
      if got < 5 {
        LoadByte(data, i, buf, got, done, pending, res);
        buf := Low(Or(Shl(buf, 8), data[i]), 16);
        got := got + 8;
        pending := pending + ToBits(data[i], 8);
        i := i + 1;
      }
      while got >= 5
        invariant Encoder(data, i, buf, got, done, pending, res)
        invariant |res| <= resSize
      {
        if |res| == resSize {
          EncoderPrefix(data, i, buf, got, done, pending, res);
          FailedPrefix(data, res, resSize);
          return true, res;
        }
        EmitOne(data, i, buf, got, done, pending, res);
        res := res + [SymbolChar(Low(Shr(buf, got - 5), 5))];
        done, pending := done + pending[..5], pending[5..];
        got := got - 5;
      }
    }
    EncoderPrefix(data, i, buf, got, done, pending, res);
    if |res| == resSize {
      FailedPrefix(data, res, resSize);
      return true, res;
    }
    LastSymbol(data, buf, got, done, pending, res);
    if got > 0 {
      res := res + [SymbolChar(Low(Shl(buf, 5 - got), 5))];
    }
    full := false;
  }

  /** base32_encode: writes the encoding of data and a NUL into a buffer of
      resSize characters and returns the encoding's length, or -1 when the
      buffer is too small, having written as much as fitted. */
  method Encode(data: seq<byte>, resSize: nat) returns (r: int, res: seq<char>)
    ensures r == -1 <==> resSize < |EncodeText(data)| + 1
    ensures r == -1 <==> resSize < EncodeSize(|data|)
    ensures r == -1 ==> res == (EncodeText(data) + ['\0'])[..resSize]
    ensures r != -1 ==> r == |EncodeText(data)| && res == EncodeText(data) + ['\0']
  {
    EncodeSizeExact(data);
    var full;
    full, res := EncodeSymbols(data, resSize);
    if full {
      return -1, res;
    }
    ghost var text := EncodeText(data);
    ghost var k := |Symbols(data)|;
    assert res == text[..k];
    while |res| % 8 != 0
      invariant k <= |res| <= k + Fill(k) == |text|
      invariant res == text[..|res|]
      invariant |res| <= resSize
      decreases k + Fill(k) - |res|
    {
      FillEnds(k, |res|);
      if |res| == resSize {
        FailedPrefix(data, res, resSize);
        return -1, res;
      }
      res := res + ['='];
    }
    FillEnds(k, |res|);
    if |res| == resSize {
      FailedPrefix(data, res, resSize);
      return -1, res;
    }
    r := |res|;
    res := res + ['\0'];
  }

  lemma {:induction false} DigitsAppend(s: seq<char>, t: seq<char>)
    requires ValidText(s) && ValidText(t)
    ensures ValidText(s + t) && Digits(s + t) == Digits(s) + Digits(t)
  {
    if |t| > 0 {
      var t' := t[..|t| - 1];
      assert (s + t)[..|s + t| - 1] == s + t';
      DigitsAppend(s, t');
    } else {
      assert s + t == s;
    }
  }

  /** The bits of a prefix of the text are a prefix of the text's bits. */
  lemma {:induction false} DecodedBitsPrefix(s: seq<char>, i: nat)
    requires ValidText(s) && i <= |s|
    ensures DecodedBits(s) == DecodedBits(s[..i]) + Pack(Digits(s[i..]), 5)
  {
    assert s == s[..i] + s[i..];
    DigitsAppend(s[..i], s[i..]);
    PackAppend(Digits(s[..i]), Digits(s[i..]), 5);
  }

  /** The bits of s[..i] split into whole bytes already taken (done) and
      the bits still in the register (pending). */
  ghost predicate DecRead(s: seq<char>, i: nat, done: seq<bit>, pending: seq<bit>)
    requires ValidText(s)
  {
    i <= |s| && done + pending == DecodedBits(s[..i]) && |done| % 8 == 0
  }

  /** count bytes taken; with a buffer (sized) res holds them. */
  ghost predicate DecOut(done: seq<bit>, count: nat, res: seq<byte>, sized: bool)
  {
    count == |Unpack(done, 8)| && (if sized then res == Unpack(done, 8) else res == [])
  }

  /** The decoder's loop state after reading s[..i]: the register's low got
      bits hold the pending bits. */
  ghost predicate Decoder(s: seq<char>, i: nat, buf: nat, got: nat,
                          done: seq<bit>, pending: seq<bit>, count: nat,
                          res: seq<byte>, sized: bool)
  {
    ValidText(s) && Holds(buf, got, pending, 16) && DecRead(s, i, done, pending)
    && DecOut(done, count, res, sized)
  }

  /** Reading one more character appends its five bits, or nothing. */
  lemma {:induction false} DecodedBitsSnoc(s: seq<char>, i: nat)
    requires ValidText(s) && i < |s|
    ensures s[i] !in Ignored ==> CharValue(s[i]).Some?
    ensures DecodedBits(s[..i + 1]) == DecodedBits(s[..i]) +
      (if s[i] in Ignored then [] else ToBits(CharValue(s[i]).value, 5))
  {
    var c := s[i];
    assert s[..i + 1][..i] == s[..i];
    if c in Ignored {
      assert Digits(s[..i + 1]) == Digits(s[..i]);
    } else {
      var v := CharValue(c).value;
      assert Digits(s[..i + 1]) == Digits(s[..i]) + [v];
      PackAppend(Digits(s[..i]), [v], 5);
      assert Pack([v], 5) == ToBits(v, 5);
    }
  }

  lemma {:induction false} DecoderStart(s: seq<char>, sized: bool)
    requires ValidText(s)
    ensures Decoder(s, 0, 0, 0, [], [], 0, [], sized)
  {
    assert s[..0] == [];
  }

  lemma {:induction false} SkipChar(s: seq<char>, i: nat, buf: nat, got: nat, done: seq<bit>,
                 pending: seq<bit>, count: nat, res: seq<byte>, sized: bool)
    requires Decoder(s, i, buf, got, done, pending, count, res, sized)
    requires i < |s| && s[i] in Ignored
    ensures Decoder(s, i + 1, buf, got, done, pending, count, res, sized)
  {
    DecodedBitsSnoc(s, i);
  }

  lemma {:induction false} ReadChar(s: seq<char>, i: nat, v: nat, done: seq<bit>, pending: seq<bit>)
    requires ValidText(s) && DecRead(s, i, done, pending)
    requires i < |s| && CharValue(s[i]) == Some(v)
    ensures DecRead(s, i + 1, done, pending + ToBits(v, 5))
  {
    DecodedBitsSnoc(s, i);
  }

  lemma {:induction false} ShiftChar(s: seq<char>, i: nat, v: nat, buf: nat, got: nat,
                  done: seq<bit>, pending: seq<bit>, count: nat, res: seq<byte>, sized: bool)
    requires Decoder(s, i, buf, got, done, pending, count, res, sized)
    requires i < |s| && CharValue(s[i]) == Some(v) && got < 8
    ensures Decoder(s, i + 1, Low(Or(Shl(buf, 5), v), 16), got + 5, done,
                    pending + ToBits(v, 5), count, res, sized)
  {
    Pow2Of5();
    OrShl(buf, v, 5);
    RegShift(buf, got, pending, v, 5, 16);
    ReadChar(s, i, v, done, pending);
  }

  lemma {:induction false} ReadByteBits(s: seq<char>, i: nat, done: seq<bit>, pending: seq<bit>)
    requires ValidText(s) && DecRead(s, i, done, pending) && |pending| >= 8
    ensures DecRead(s, i, done + pending[..8], pending[8..])
  {
    assert done + pending == (done + pending[..8]) + pending[8..];
  }

  lemma {:induction false} OutByte(done: seq<bit>, g: seq<bit>, count: nat, res: seq<byte>, sized: bool)
    requires DecOut(done, count, res, sized) && |done| % 8 == 0 && |g| == 8
    ensures FromBits(g) < 256
    ensures DecOut(done + g, count + 1, if sized then res + [FromBits(g)] else res, sized)
  {
    Pow2Of8();
    UnpackSnoc(done, g, 8);
  }

  lemma {:induction false} TakeByte(s: seq<char>, i: nat, buf: nat, got: nat, done: seq<bit>,
                 pending: seq<bit>, count: nat, res: seq<byte>, sized: bool)
    requires Decoder(s, i, buf, got, done, pending, count, res, sized)
    requires got >= 8
    ensures Low(Shr(buf, got - 8), 8) < 256
    ensures Decoder(s, i, buf, got - 8, done + pending[..8], pending[8..], count + 1,
                    if sized then res + [Low(Shr(buf, got - 8), 8)] else res, sized)
  {
    RegTake(buf, got, pending, 8, 16);
    ReadByteBits(s, i, done, pending);
    OutByte(done, pending[..8], count, res, sized);
  }

  /** A whole pending byte means the text decodes to more than count bytes,
      the first count of them already taken. */
  /** Whole bytes taken from a prefix of the bits start the bytes of all
      of them, and a whole pending byte means one more. */
  lemma {:induction false} BytesAhead(all: seq<bit>, done: seq<bit>, pending: seq<bit>, tail: seq<bit>)
    requires all == (done + pending) + tail
    requires |done| % 8 == 0 && |pending| >= 8
    ensures |Unpack(all, 8)| > |Unpack(done, 8)|
    ensures Unpack(all, 8)[..|Unpack(done, 8)|] == Unpack(done, 8)
  {
    var rest := pending + tail;
    assert all == done + rest;
    UnpackAppend(done, rest, 8);
    UnpackLength(rest, 8);
  }

  lemma {:induction false} ByteAhead(s: seq<char>, i: nat, done: seq<bit>, pending: seq<bit>)
    requires ValidText(s) && DecRead(s, i, done, pending) && |pending| >= 8
    ensures |DecodedBytes(s)| > |Unpack(done, 8)|
    ensures DecodedBytes(s)[..|Unpack(done, 8)|] == Unpack(done, 8)
  {
    DecodedBitsPrefix(s, i);
    BytesAhead(DecodedBits(s), done, pending, Pack(Digits(s[i..]), 5));
  }

  lemma {:induction false} Finish(s: seq<char>, buf: nat, got: nat, done: seq<bit>,
               pending: seq<bit>, count: nat, res: seq<byte>, sized: bool)
    requires Decoder(s, |s|, buf, got, done, pending, count, res, sized)
    requires got < 8
    ensures DecodedBytes(s) == Unpack(done, 8)
    ensures Canonical(s) <==> !(got != 0 && Low(buf, got) != 0)
  {
    assert s[..|s|] == s;
    UnpackAppend(done, pending, 8);
    UnpackLength(done, 8);
    UnpackLength(done + pending, 8);
    assert |done + pending| / 8 * 8 == |done|;
    assert TailBits(DecodedBits(s)) == pending;
  }

  /** One character of base32_decode's loop: skips an ignored character,
      otherwise shifts its five bits in and takes out a byte once eight are
      pending, unless the buffer is full (full). */
  method DecodeChar(s: seq<char>, i: nat, resSize: Option<nat>, buf: nat, got: nat,
                    count: nat, res: seq<byte>, ghost done: seq<bit>, ghost pending: seq<bit>)
    returns (full: bool, buf': nat, got': nat, count': nat, res': seq<byte>,
             ghost done': seq<bit>, ghost pending': seq<bit>)
    requires Decoder(s, i, buf, got, done, pending, count, res, resSize.Some?)
    requires i < |s| && got < 8
    requires resSize.Some? ==> count <= resSize.value
    ensures full ==> resSize.Some? && |DecodedBytes(s)| > resSize.value
    ensures full ==> res' == DecodedBytes(s)[..resSize.value]
    ensures !full ==> Decoder(s, i + 1, buf', got', done', pending', count', res', resSize.Some?)
    ensures !full ==> got' < 8 && (resSize.Some? ==> count' <= resSize.value)
  {
    full, buf', got', count', res', done', pending' := false, buf, got, count, res, done, pending;
    var ch := s[i];
    if ch in Ignored {
      SkipChar(s, i, buf, got, done, pending, count, res, resSize.Some?);
      return;
    }
    var v := CharValue(ch).value;
    ShiftChar(s, i, v, buf, got, done, pending, count, res, resSize.Some?);
    buf' := Low(Or(Shl(buf, 5), v), 16);
    got' := got + 5;
    pending' := pending + ToBits(v, 5);
    if got' > 7 {
      TakeByte(s, i + 1, buf', got', done, pending', count, res, resSize.Some?);
      if resSize.Some? {
        if count == resSize.value {
          ByteAhead(s, i + 1, done, pending');
          return true, buf', got', count', res', done', pending';
        }
        res' := res + [Low(Shr(buf', got' - 8), 8)];
      }
      count' := count + 1;
      done', pending' := done + pending'[..8], pending'[8..];
      got' := got' - 8;
    }
  }

  /** The character loop of base32_decode: stops early (full) when a byte
      is due and the buffer is full; otherwise leaves in the register the
      bits that do not make a whole byte. */
  method DecodeBytes(s: seq<char>, resSize: Option<nat>)
    returns (full: bool, buf: nat, got: nat, count: nat, res: seq<byte>)
    requires ValidText(s)
    ensures full ==> resSize.Some? && |DecodedBytes(s)| > resSize.value
    ensures full ==> res == DecodedBytes(s)[..resSize.value]
    ensures !full ==> count == |DecodedBytes(s)|
    ensures !full && resSize.Some? ==> res == DecodedBytes(s) && count <= resSize.value
    ensures resSize.None? ==> res == []
    ensures !full ==> (Canonical(s) <==> !(got != 0 && Low(buf, got) != 0))
  {
    buf, got, count := 0, 0, 0;
    var i := 0;
    res := [];
    ghost var done: seq<bit> := [];
    ghost var pending: seq<bit> := [];
    DecoderStart(s, resSize.Some?);
    while i < |s|
      invariant Decoder(s, i, buf, got, done, pending, count, res, resSize.Some?)
      invariant got < 8
      invariant resSize.Some? ==> count <= resSize.value
    {
      full, buf, got, count, res, done, pending :=
        DecodeChar(s, i, resSize, buf, got, count, res, done, pending);
      if full {
        return;
      }
      i := i + 1;
    }
    Finish(s, buf, got, done, pending, count, res, resSize.Some?);
    full := false;
  }

  /** base32_decode: decodes s into a buffer of the given size, or only
      counts the bytes when there is no buffer (None, the NULL of
      base32_decode_size). Fails with -1 when the buffer is too small or the
      bits after the last whole byte are not all zero. */
  method Decode(s: seq<char>, resSize: Option<nat>) returns (r: int, res: seq<byte>)
    requires ValidText(s)
    ensures r == -1 <==>
      (resSize.Some? && |DecodedBytes(s)| > resSize.value) || !Canonical(s)
    ensures r != -1 ==> r == |DecodedBytes(s)|
    ensures resSize.Some? && r != -1 ==> res == DecodedBytes(s)
    ensures resSize.Some? && |DecodedBytes(s)| > resSize.value ==>
      res == DecodedBytes(s)[..resSize.value]
    ensures resSize.None? ==> res == []
  {
    var full, buf, got, count;
    full, buf, got, count, res := DecodeBytes(s, resSize);
    if full || (got != 0 && Low(buf, got) != 0) {
      return -1, res;
    }
    return count, res;
  }
}
