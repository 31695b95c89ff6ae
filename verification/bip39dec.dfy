/** bip39_decode (lib/bip39/bip39dec.c): word indices back to entropy
    through a 32-bit shift register, with the checksum test. */
module Bip39Dec {
  import opened Bits
  import opened Bytes
  import opened Bip39

  /** The word indices of words[..k] split into bits already written as
      bytes (done) and bits still in the register (held). */
  ghost predicate DecRead(words: seq<nat>, k: nat, done: seq<bit>, held: seq<bit>)
  {
    k <= |words| && done + held == Pack(words[..k], WordBits)
  }

  ghost predicate DecOut(done: seq<bit>, buf: seq<byte>)
  {
    |done| == 8 * |buf| && buf == Unpack(done, 8)
  }

  /** Shifting a word index into the 32-bit register appends its 11 bits. */
  lemma {:induction false} ShiftWord(pending: nat, bits: nat, held: seq<bit>, w: nat)
    requires Holds(pending, bits, held, 32) && w < WordCount && bits + WordBits <= 32
    ensures Holds(Low(Or(Shl(pending, WordBits), w), 32), bits + WordBits,
                  held + ToBits(w, WordBits), 32)
  {
    Pow2Of11();
    FromToBits(w, WordBits);
    RegShiftOr(pending, bits, held, w, ToBits(w, WordBits), 32);
  }

  lemma {:induction false} ReadWord(words: seq<nat>, k: nat, done: seq<bit>, held: seq<bit>)
    requires DecRead(words, k, done, held) && k < |words|
    ensures DecRead(words, k + 1, done, held + ToBits(words[k], WordBits))
  {
    PackSnoc(words, k, WordBits);
    assert done + (held + ToBits(words[k], WordBits)) == (done + held) + ToBits(words[k], WordBits);
  }

  /** Writing out the register's eight oldest bits as a byte. */
  lemma {:induction false} TakeWordByte(words: seq<nat>, k: nat, pending: nat, bits: nat,
                     done: seq<bit>, held: seq<bit>, buf: seq<byte>)
    requires Holds(pending, bits, held, 32) && DecRead(words, k, done, held)
    requires DecOut(done, buf) && bits >= 8
    ensures Low(Shr(pending, bits - 8), 8) < 256
    ensures Holds(pending, bits - 8, held[8..], 32)
    ensures DecRead(words, k, done + held[..8], held[8..])
    ensures DecOut(done + held[..8], buf + [Low(Shr(pending, bits - 8), 8)])
  {
    Pow2Of8();
    RegTake(pending, bits, held, 8, 32);
    assert done + held == (done + held[..8]) + held[8..];
    UnpackSnoc(done, held[..8], 8);
  }

  /** After the last word: the bytes written are the entropy, the register
      holds the checksum bits, and the C comparison decides ChecksumOk. */
  lemma {:induction false} DecodeEnd(words: seq<nat>, pending: nat, done: seq<bit>,
                  held: seq<bit>, buf: seq<byte>, sha0: seq<byte> -> byte)
    requires ValidCount(|words|)
    requires Holds(pending, Cs(|words|), held, 32) && DecRead(words, |words|, done, held)
    requires DecOut(done, buf) && 8 * |buf| == Ent(|words|)
    ensures buf == Entropy(words)
    ensures (Low(pending, Cs(|words|)) == Shr(sha0(buf), 8 - Cs(|words|))) <==>
      ChecksumOk(words, sha0)
  {
    var n := |words|;
    EntShape(n);
    assert words[..n] == words;
    var all := Pack(words, WordBits);
    assert done == all[..Ent(n)] && held == all[Ent(n)..];
    HashTop(sha0(buf), Cs(n));
    var hb := HashBits(sha0(buf), Cs(n));
    if FromBits(held) == FromBits(hb) {
      FromBitsInjective(held, hb);
    }
  }

  /** The inner loop of bip39_decode: writes out whole bytes while the
      register holds eight bits and the entropy is not complete. */
  method FlushBytes(words: seq<nat>, k: nat, ent: nat, pending: nat, bits: nat, buf: seq<byte>,
                    ghost done: seq<bit>, ghost held: seq<bit>)
    returns (bits': nat, buf': seq<byte>, ghost done': seq<bit>, ghost held': seq<bit>)
    requires Holds(pending, bits, held, 32) && DecRead(words, k, done, held)
    requires DecOut(done, buf) && ent % 8 == 0 && 8 * |buf| <= ent
    ensures Holds(pending, bits', held', 32) && DecRead(words, k, done', held')
    ensures DecOut(done', buf') && 8 * |buf'| <= ent
    ensures 8 * |buf'| + bits' == 8 * |buf| + bits
    ensures bits' < 8 || 8 * |buf'| == ent
  {
    bits', buf', done', held' := bits, buf, done, held;
    while bits' >= 8 && |buf'| != ent / 8
      invariant Holds(pending, bits', held', 32) && DecRead(words, k, done', held')
      invariant DecOut(done', buf') && 8 * |buf'| <= ent
      invariant 8 * |buf'| + bits' == 8 * |buf| + bits
    {
      TakeWordByte(words, k, pending, bits', done', held', buf');
      buf' := buf' + [Low(Shr(pending, bits' - 8), 8)];
      done', held' := done' + held'[..8], held'[8..];
      bits' := bits' - 8;
    }
  }

  /** The word loop of bip39_decode: afterwards the buffer holds the ent/8
      entropy bytes and the register the cs checksum bits. */
  method DecodeWords(words: seq<nat>, ent: nat)
    returns (pending: nat, bits: nat, buf: seq<byte>, ghost done: seq<bit>, ghost held: seq<bit>)
    requires ValidCount(|words|) && ent == Ent(|words|) && Fits(words, WordBits)
    ensures Holds(pending, Cs(|words|), held, 32) && DecRead(words, |words|, done, held)
    ensures bits == Cs(|words|) && DecOut(done, buf) && 8 * |buf| == ent
  {
    var n := |words|;
    EntShape(n);
    pending, bits, buf, done, held := 0, 0, [], [], [];
    var k := 0;
    assert words[..0] == [];
    while k < n
      invariant Holds(pending, bits, held, 32) && DecRead(words, k, done, held)
      invariant DecOut(done, buf)
      invariant 8 * |buf| + bits == 11 * k && 8 * |buf| <= ent
      invariant 8 * |buf| < ent ==> bits < 8
    {
      Pow2Of11();
      ShiftWord(pending, bits, held, words[k]);
      ReadWord(words, k, done, held);
      pending := Low(Or(Shl(pending, WordBits), words[k]), 32);
      bits := bits + WordBits;
      held := held + ToBits(words[k], WordBits);
      k := k + 1;
      bits, buf, done, held := FlushBytes(words, k, ent, pending, bits, buf, done, held);
    }
  }

  /** bip39_decode: converts word indices back into entropy bytes in a
      buffer of `bytes` bytes. The size test multiplies in 32 bits. */
  method Decode(bytes: nat, words: seq<nat>, sha0: seq<byte> -> byte)
    returns (r: int, buf: seq<byte>)
    requires bytes < 0x1_0000_0000
    requires Fits(words, WordBits)
    ensures r == Unrecognized <==> !ValidCount(|words|)
    ensures r == Overflow <==>
      ValidCount(|words|) && (8 * bytes) % 0x1_0000_0000 < Ent(|words|)
    ensures r == Unrecognized || r == Overflow ==> buf == []
    ensures r != Unrecognized && r != Overflow ==>
      ValidCount(|words|) && buf == Entropy(words) &&
      (if ChecksumOk(words, sha0) then r == |buf| == Ent(|words|) / 8 else r == ChecksumError)
  {
    var n := |words|;
    if !(n == 12 || n == 15 || n == 18 || n == 21 || n == 24) {
      return Unrecognized, [];
    }
    var cs := n / 3;
    var ent := 10 * n + 2 * cs;
    if (bytes * 8) % 0x1_0000_0000 < ent {
      return Overflow, [];
    }
    var pending, bits;
    ghost var done, held;
    pending, bits, buf, done, held := DecodeWords(words, ent);
    DecodeEnd(words, pending, done, held, buf, sha0);
    if Low(pending, cs) == Shr(sha0(buf), 8 - cs) {
      return |buf|, buf;
    }
    return ChecksumError, buf;
  }
}
