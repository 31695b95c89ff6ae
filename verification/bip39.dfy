/** BIP-0039 mnemonics (lib/bip39): entropy and its checksum cut into 11-bit
    word indices, the decoder's 32-bit shift-register loop, the encoder's
    word-by-word extraction, and the keypad word matcher. */
module Bip39 {
  import opened Bits
  import opened Bytes
  import opened Results

  /** Bits per word index; the word list has 2^11 words. */
  const WordBits: nat := 11
  const WordCount: nat := 2048

  /** bip39_decode's error codes. */
  const Unrecognized: int := -1
  const Overflow: int := -2
  const ChecksumError: int := -3

  /** The mnemonic lengths of the BIP-0039 table. */
  predicate ValidCount(n: nat)
  {
    n == 12 || n == 15 || n == 18 || n == 21 || n == 24
  }

  /** Checksum bits (cs) and entropy bits (ent) of an n-word mnemonic. */
  function Cs(n: nat): nat
  {
    n / 3
  }

  function Ent(n: nat): nat
  {
    10 * n + 2 * Cs(n)
  }

  /** The table's shape: whole bytes of entropy, cs = ent / 32, and the
      words hold exactly ent + cs bits. */
  lemma {:induction false} EntShape(n: nat)
    requires ValidCount(n)
    ensures Ent(n) % 8 == 0 && Ent(n) == 32 * Cs(n)
    ensures Ent(n) + Cs(n) == 11 * n && 4 <= Cs(n) <= 8
  {
  }

  // ---------------------------------------------------------------------
  // Reference: a mnemonic is the bit string of its word indices.

  /** The first k bits of the hash byte h. */
  function HashBits(h: byte, k: nat): (r: seq<bit>)
    requires k <= 8
    ensures |r| == k
  {
    ToBits(h, 8)[..k]
  }

  /** The top k bits of a byte, as the C computes them (h >> (8 - k)). */
  lemma {:induction false} HashTop(h: byte, k: nat)
    requires k <= 8
    ensures Shr(h, 8 - k) == FromBits(HashBits(h, k))
  {
    var t := ToBits(h, 8);
    Pow2Of8();
    LowSmall(h, 8);
    FromToBits(h, 8);
    RegTake(h, 8, t, k, 8);
    ShrBound(h, 8, 8 - k);
    LowSmall(Shr(h, 8 - k), k);
  }

  /** The entropy a mnemonic carries: its first ent bits as bytes. */
  function Entropy(words: seq<nat>): (r: seq<byte>)
    requires ValidCount(|words|)
  {
    PackLength(words, WordBits);
    EntShape(|words|);
    Pow2Of8();
    Unpack(Pack(words, WordBits)[..Ent(|words|)], 8)
  }

  /** The mnemonic's last cs bits. */
  function ChecksumBits(words: seq<nat>): (r: seq<bit>)
    requires ValidCount(|words|)
  {
    PackLength(words, WordBits);
    EntShape(|words|);
    Pack(words, WordBits)[Ent(|words|)..]
  }

  /** The checksum is the first cs bits of the entropy's SHA-256 hash; the
      hash is a parameter, of which only the first byte matters. */
  predicate ChecksumOk(words: seq<nat>, sha0: seq<byte> -> byte)
    requires ValidCount(|words|)
  {
    EntShape(|words|);
    ChecksumBits(words) == HashBits(sha0(Entropy(words)), Cs(|words|))
  }

  /** The bits the encoder reads: the data, then the hash byte. */
  function Stream(data: seq<byte>, sha: byte): (r: seq<bit>)
    ensures |r| == 8 * |data| + 8
  {
    PackLength(data, 8);
    Pack(data, 8) + ToBits(sha, 8)
  }

  /** Checksum bits that complete the last word of an n-byte input. */
  function ChecksumLen(n: nat): nat
  {
    (11 - (8 * n) % 11) % 11
  }

  /** The mnemonic of data whose SHA-256 hash starts with the byte sha:
      its bits and the checksum bits cut into 11-bit word indices. */
  function MnemonicOf(data: seq<byte>, sha: byte): (r: seq<nat>)
    requires ChecksumLen(|data|) <= 8
  {
    Unpack(Pack(data, 8) + HashBits(sha, ChecksumLen(|data|)), WordBits)
  }

  // ---------------------------------------------------------------------
  // Round trips between entropy and mnemonic.

  /** The entropy lengths of the BIP-0039 table, in bytes. */
  predicate EntropyBytes(n: nat)
  {
    n == 16 || n == 20 || n == 24 || n == 28 || n == 32
  }

  /** The table row of n bytes of entropy: n/4 checksum bits complete the
      last word, and the 3n/4 words have a valid count with ent = 8n. */
  lemma {:induction false} MnemonicShape(n: nat)
    requires EntropyBytes(n)
    ensures ChecksumLen(n) == n / 4 && (8 * n + n / 4) % 11 == 0
    ensures ValidCount((8 * n + n / 4) / 11) && Ent((8 * n + n / 4) / 11) == 8 * n
    ensures Cs((8 * n + n / 4) / 11) == n / 4
  {
  }

  /** Bytes fit in 8 bits. */
  lemma {:induction false} BytesFit(data: seq<byte>)
    ensures Fits(data, 8)
  {
    Pow2Of8();
  }

  /** The mnemonic of valid entropy has a valid word count, gives the
      entropy back, and passes the checksum test. */
  lemma {:induction false} MnemonicEntropy(data: seq<byte>, sha0: seq<byte> -> byte)
    requires EntropyBytes(|data|)
    ensures ChecksumLen(|data|) <= 8
    ensures var words := MnemonicOf(data, sha0(data));
      ValidCount(|words|) && Fits(words, WordBits) && Entropy(words) == data &&
      ChecksumOk(words, sha0)
  {
    var n := |data|;
    MnemonicShape(n);
    var cs := n / 4;
    var x := Pack(data, 8) + HashBits(sha0(data), cs);
    PackLength(data, 8);
    var words := Unpack(x, WordBits);
    UnpackLength(x, WordBits);
    PackUnpack(x, WordBits);
    assert Pack(words, WordBits) == x;
    EntShape(|words|);
    assert Pack(words, WordBits)[..Ent(|words|)] == Pack(data, 8);
    BytesFit(data);
    UnpackPack(data, [], 8);
    assert Pack(data, 8) + [] == Pack(data, 8);
    assert Entropy(words) == data;
    assert ChecksumBits(words) == HashBits(sha0(data), cs);
  }

  /** A mnemonic passes the checksum test exactly when it is the mnemonic
      of the entropy it carries. */
  lemma {:induction false} EntropyMnemonic(words: seq<nat>, sha0: seq<byte> -> byte)
    requires ValidCount(|words|) && Fits(words, WordBits)
    ensures EntropyBytes(|Entropy(words)|) && ChecksumLen(|Entropy(words)|) <= 8
    ensures ChecksumOk(words, sha0) <==> words == MnemonicOf(Entropy(words), sha0(Entropy(words)))
  {
    var m := |words|;
    EntShape(m);
    var p := Pack(words, WordBits);
    PackLength(words, WordBits);
    var data := Entropy(words);
    UnpackLength(p[..Ent(m)], 8);
    PackUnpack(p[..Ent(m)], 8);
    assert Pack(data, 8) == p[..Ent(m)];
    assert |data| == Ent(m) / 8;
    MnemonicShape(|data|);
    assert (8 * |data| + |data| / 4) / 11 == m;
    if ChecksumOk(words, sha0) {
      assert Pack(data, 8) + HashBits(sha0(data), Cs(m)) == p;
      UnpackPack(words, [], WordBits);
      assert p + [] == p;
    } else if words == MnemonicOf(data, sha0(data)) {
      MnemonicEntropy(data, sha0);
      assert false;
    }
  }
}
