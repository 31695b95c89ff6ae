/** bip39_encode and bip39_next_word (lib/bip39/bip39enc.c): the encoder
    state, the word-at-a-time extraction of 11-bit groups from the data and
    then from the top of the hash byte, and the whole word sequence. */
module Bip39Enc {
  import opened Bits
  import opened Bytes
  import opened Bip39

  /** struct bip39enc: the data (p runs up to end), the bit position pos,
      and the first byte of the data's hash. */
  datatype Enc = Enc(data: seq<byte>, pos: nat, p: nat, sha: byte)

  /** The last word needs at most eight checksum bits: otherwise the C
      would shift the hash byte by a negative amount. */
  predicate ChecksumCovers(n: nat)
  {
    (8 * n) % 11 != 1 && (8 * n) % 11 != 2
  }

  /** The table's entropy lengths never need more than the hash byte, and
      their mnemonics take exactly ChecksumLen(n) = n / 4 of its bits. */
  lemma {:induction false} TableCovered(n: nat)
    requires EntropyBytes(n)
    ensures ChecksumCovers(n) && ChecksumLen(n) == n / 4
  {
    MnemonicShape(n);
  }

  /** ChecksumCovers is the precondition of the reference mnemonic. */
  lemma {:induction false} CoversLen(n: nat)
    ensures ChecksumCovers(n) <==> ChecksumLen(n) <= 8
  {
    var r := (8 * n) % 11;
    assert ChecksumLen(n) == (11 - r) % 11;
  }

  /** Between calls: pos counts the data bits consumed, a whole number of
      words until the data runs out, and p is the byte pos lies in. */
  predicate Valid(e: Enc)
  {
    e.pos <= 8 * |e.data| && e.p == e.pos / 8 &&
    (e.pos % 11 == 0 || e.pos == 8 * |e.data|) && ChecksumCovers(|e.data|)
  }

  /** bip39_encode: starts at the first bit, with the hash's first byte. */
  function Begin(data: seq<byte>, sha0: seq<byte> -> byte): (e: Enc)
    requires ChecksumCovers(|data|)
    ensures Valid(e) && e.data == data && e.pos == 0 && e.sha == sha0(data)
  {
    Enc(data, 0, 0, sha0(data))
  }

  /** A word started before the end of the data ends within the hash byte. */
  lemma {:induction false} RoomForWord(e: Enc)
    requires Valid(e) && e.pos < 8 * |e.data|
    ensures e.pos + 11 <= 8 * |e.data| + 8
  {
    var n8 := 8 * |e.data|;
    if e.pos + 11 > n8 + 8 {
      DivModUnique(n8, 11, e.pos / 11, n8 - e.pos);
      assert false;
    }
  }

  /** Byte p of the data is bits 8p to 8p + 8 of the stream. */
  lemma {:induction false} StreamByte(data: seq<byte>, sha: byte, p: nat)
    requires p < |data|
    ensures Stream(data, sha)[8 * p..8 * p + 8] == ToBits(data[p], 8)
  {
    assert data == data[..p] + [data[p]] + data[p + 1..];
    PackAppend(data[..p] + [data[p]], data[p + 1..], 8);
    PackAppend(data[..p], [data[p]], 8);
    PackLength(data[..p], 8);
  }

  /** Bits from to to of a byte, as the C shifts and masks them out. */
  lemma {:induction false} ByteBits(b: byte, from: nat, to: nat)
    requires from <= to <= 8
    ensures Low(Shr(b, 8 - to), to - from) == FromBits(ToBits(b, 8)[from..to])
  {
    var t := ToBits(b, 8);
    Pow2Of8();
    LowSmall(b, 8);
    FromToBits(b, 8);
    RegTake(b, 8, t, from, 8);
    RegTake(b, 8 - from, t[from..], to - from, 8);
    assert t[from..][..to - from] == t[from..to];
  }

  /** The state of bip39_next_word's loop: got bits of the word gathered
      into the 16-bit buf, read from bit e.pos up to pos. */
  ghost predicate Gathering(e: Enc, buf: nat, got: nat, pos: nat, p: nat)
  {
    GatherPos(e.pos, got, pos, p, |e.data|) && GatherReg(e, buf, got, pos)
  }

  /** The positions: pos is got bits past the word's start and lies in
      byte p; after the first chunk it is on a byte boundary. */
  predicate GatherPos(start: nat, got: nat, pos: nat, p: nat, n: nat)
  {
    pos == start + got && p == pos / 8 && pos <= 8 * n &&
    start + 11 <= 8 * n + 8 && got <= 11 && (got > 0 ==> pos % 8 == 0)
  }

  /** The register: it holds the bits read so far, and nothing before the
      first chunk. */
  ghost predicate GatherReg(e: Enc, buf: nat, got: nat, pos: nat)
  {
    e.pos <= pos <= 8 * |e.data| + 8 &&
    Holds(buf, got, Stream(e.data, e.sha)[e.pos..pos], 16) && (got == 0 ==> buf == 0)
  }

  /** The hash byte follows the data in the stream. */
  lemma {:induction false} StreamHash(data: seq<byte>, sha: byte)
    ensures Stream(data, sha)[8 * |data|..8 * |data| + 8] == ToBits(sha, 8)
  {
    PackLength(data, 8);
  }

  /** Positions when the data runs out: the word is at least three bits
      in, so its rest fits in the hash byte. */
  lemma {:induction false} ChecksumPos(start: nat, got: nat, pos: nat, p: nat, n: nat)
    requires pos == start + got && p == pos / 8 && pos <= 8 * n && start + 11 <= 8 * n + 8
    requires got < 11 && p == n && (got > 0 ==> pos % 8 == 0)
    ensures 11 - got <= 8 && pos == 8 * n
  {
  }

  /** Positions after the rest of byte p is taken: the next byte starts. */
  lemma {:induction false} NextBytePos(pos: nat, p: nat)
    requires p == pos / 8
    ensures pos + (8 - pos % 8) == 8 * (p + 1) && (pos + (8 - pos % 8)) / 8 == p + 1
    ensures (pos + (8 - pos % 8)) % 8 == 0
  {
  }

  /** The data is exhausted: the rest of the word is the top of the hash. */
  lemma {:induction false} TakeChecksum(e: Enc, buf: nat, got: nat, pos: nat, p: nat, want: nat)
    requires Gathering(e, buf, got, pos, p) && got < 11 && p == |e.data| && want == 11 - got
    ensures want <= 8 && Gathered(e, Low(Or(Shl(buf, want), Shr(e.sha, 8 - want)), 16), pos, p)
  {
    var t := ToBits(e.sha, 8);
    ChecksumPos(e.pos, got, pos, p, |e.data|);
    HashTop(e.sha, want);
    assert HashBits(e.sha, want) == t[0..want];
    StreamHash(e.data, e.sha);
    RegShiftSlice(buf, got, Stream(e.data, e.sha), e.pos, pos, t, 0, want,
                  Shr(e.sha, 8 - want), 16, 11, e.pos + 11);
  }

  /** The word ends inside the current byte: take want bits from it. */
  lemma {:induction false} TakePart(e: Enc, buf: nat, got: nat, pos: nat, p: nat,
                                    left: nat, want: nat)
    requires Gathering(e, buf, got, pos, p) && got < 11 && p < |e.data|
    requires left == 8 - pos % 8 && want == 11 - got && left > want
    ensures Gathered(e, Low(Or(Shl(buf, want), Low(Shr(e.data[p], left - want), want)), 16),
                     pos + want, p)
  {
    var from := pos % 8;
    StreamByte(e.data, e.sha, p);
    ByteBits(e.data[p], from, from + want);
    RegShiftSlice(buf, got, Stream(e.data, e.sha), e.pos, 8 * p, ToBits(e.data[p], 8), from, want,
                  Low(Shr(e.data[p], left - want), want), 16, 11, e.pos + 11);
  }

  /** The first chunk of a word: the whole byte lands in the empty
      register, the bits already consumed above the `left` new ones. */
  lemma {:induction false} FirstChunk(buf: nat, b: byte, left: nat, want: nat, g: seq<bit>)
    requires buf == 0 && 0 < left <= 8 <= want && |g| == left && Low(b, left) == FromBits(g)
    ensures Holds(Low(Or(Shl(buf, left), Low(b, want)), 16), left, g, 16)
  {
    ShlIsMul(0, left);
    Pow2Of8();
    Pow2Monotone(8, want);
    LowSmall(b, want);
    assert Or(0, b) == b;
    Pow2Monotone(8, 16);
    LowSmall(b, 16);
  }

  /** The rest of the current byte goes into the word. */
  lemma {:induction false} TakeRest(e: Enc, buf: nat, got: nat, pos: nat, p: nat,
                                    left: nat, want: nat)
    requires Gathering(e, buf, got, pos, p) && got < 11 && p < |e.data|
    requires left == 8 - pos % 8 && want == 11 - got && left <= want
    ensures Gathering(e, Low(Or(Shl(buf, left), Low(e.data[p], want)), 16), got + left,
                      pos + left, p + 1)
  {
    NextBytePos(pos, p);
    assert GatherPos(e.pos, got + left, pos + left, p + 1, |e.data|);
    if got == 0 {
      TakeFirst(e, buf, pos, p, left, want);
    } else {
      TakeByte(e, buf, got, pos, p, left, want);
    }
  }

  /** The first chunk: the rest of byte p, the consumed bits above it. */
  lemma {:induction false} TakeFirst(e: Enc, buf: nat, pos: nat, p: nat, left: nat, want: nat)
    requires GatherReg(e, buf, 0, pos) && p < |e.data| && p == pos / 8
    requires left == 8 - pos % 8 && want == 11
    ensures GatherReg(e, Low(Or(Shl(buf, left), Low(e.data[p], want)), 16), left, pos + left)
  {
    var s := Stream(e.data, e.sha);
    var b := e.data[p];
    var from := pos % 8;
    var t := ToBits(b, 8);
    assert pos == e.pos == 8 * p + from && pos + left == 8 * p + 8;
    StreamByte(e.data, e.sha, p);
    SubSlice(s, 8 * p, t, from, 8);
    ByteBits(b, from, 8);
    assert Shr(b, 0) == b;
    FirstChunk(buf, b, left, want, s[e.pos..pos + left]);
  }

  /** A later chunk: the whole of byte p. */
  lemma {:induction false} TakeByte(e: Enc, buf: nat, got: nat, pos: nat, p: nat,
                                    left: nat, want: nat)
    requires GatherReg(e, buf, got, pos) && p < |e.data| && pos == 8 * p
    requires 0 < got && left == 8 && want == 11 - got && left <= want
    ensures GatherReg(e, Low(Or(Shl(buf, left), Low(e.data[p], want)), 16), got + left, pos + left)
  {
    var b := e.data[p];
    var t := ToBits(b, 8);
    StreamByte(e.data, e.sha, p);
    Pow2Of8();
    Pow2Monotone(8, want);
    LowSmall(b, want);
    FromToBits(b, 8);
    assert t[0..8] == t;
    RegShiftSlice(buf, got, Stream(e.data, e.sha), e.pos, 8 * p, t, 0, left, b, 16, got + left,
                  pos + left);
  }

  /** The loop is done: buf holds the word's 11 bits, and pos and p are
      past it, or at the end of the data when the word ran into the hash. */
  ghost predicate Gathered(e: Enc, buf: nat, pos: nat, p: nat)
  {
    e.pos + 11 <= 8 * |e.data| + 8 &&
    Holds(buf, 11, Stream(e.data, e.sha)[e.pos..e.pos + 11], 16) &&
    pos == (if e.pos + 11 <= 8 * |e.data| then e.pos + 11 else 8 * |e.data|) && p == pos / 8
  }

  /** The loop ran out with got == 11: the last chunk ended the word. */
  lemma {:induction false} FullWord(e: Enc, buf: nat, pos: nat, p: nat)
    requires Gathering(e, buf, 11, pos, p)
    ensures Gathered(e, buf, pos, p)
  {
  }

  /** One pass of bip39_next_word's loop. */
  method GatherStep(e: Enc, buf: nat, got: nat, pos: nat, p: nat)
    returns (fin: bool, buf': nat, got': nat, pos': nat, p': nat)
    requires Gathering(e, buf, got, pos, p) && got < 11
    ensures fin ==> Gathered(e, buf', pos', p') && got' == got
    ensures !fin ==> Gathering(e, buf', got', pos', p') && got < got'
  {
    var left := 8 - pos % 8;
    var want := 11 - got;
    if p == |e.data| {
      TakeChecksum(e, buf, got, pos, p, want);
      return true, Low(Or(Shl(buf, want), Shr(e.sha, 8 - want)), 16), got, pos, p;
    }
    if left > want {
      TakePart(e, buf, got, pos, p, left, want);
      return true, Low(Or(Shl(buf, want), Low(Shr(e.data[p], left - want), want)), 16), got,
        pos + want, p;
    }
    TakeRest(e, buf, got, pos, p, left, want);
    return false, Low(Or(Shl(buf, left), Low(e.data[p], want)), 16), got + left, pos + left, p + 1;
  }

  /** A word read between calls leaves a valid state behind. */
  lemma {:induction false} NextValid(e: Enc, pos: nat)
    requires Valid(e) && e.pos + 11 <= 8 * |e.data| + 8
    requires pos == (if e.pos + 11 <= 8 * |e.data| then e.pos + 11 else 8 * |e.data|)
    ensures Valid(e.(pos := pos, p := pos / 8))
  {
  }

  /** bip39_next_word: the next 11-bit group of the data followed by the
      hash byte, or -1 once the data is used up. */
  method NextWord(e: Enc) returns (e': Enc, r: int)
    requires Valid(e)
    ensures e.p == |e.data| ==> r == -1 && e' == e
    ensures e.p < |e.data| ==> e.pos + 11 <= 8 * |e.data| + 8
    ensures e.p < |e.data| ==>
      0 <= r < WordCount && r == FromBits(Stream(e.data, e.sha)[e.pos..e.pos + 11])
    ensures e.p < |e.data| ==>
      Valid(e') && e'.data == e.data && e'.sha == e.sha &&
      e'.pos == (if e.pos + 11 <= 8 * |e.data| then e.pos + 11 else 8 * |e.data|)
  {
    if e.p == |e.data| {
      return e, -1;
    }
    RoomForWord(e);
    var buf: nat, got: nat, pos: nat, p: nat := 0, 0, e.pos, e.p;
    var fin := false;
    assert Stream(e.data, e.sha)[e.pos..pos] == [];
    while !fin && got < 11
      invariant fin ==> Gathered(e, buf, pos, p)
      invariant !fin ==> Gathering(e, buf, got, pos, p)
      decreases 11 - got, if fin then 0 else 1
    {
      fin, buf, got, pos, p := GatherStep(e, buf, got, pos, p);
    }
    if !fin {
      FullWord(e, buf, pos, p);
    }
    NextValid(e, pos);
    e' := e.(pos := pos, p := p);
    Pow2Of11();
    r := Low(buf, 11);
  }

  // ---------------------------------------------------------------------
  // The whole mnemonic: bip39_next_word called until it returns -1.

  /** The words read so far are the stream's first 11 |words| bits, and
      pos is there or, once the hash was reached, at the data's end. */
  ghost predicate Progress(e: Enc, data: seq<byte>, sha: byte, words: seq<nat>)
  {
    Valid(e) && e.data == data && e.sha == sha && Fits(words, WordBits) &&
    11 * |words| <= 8 * |data| + 10 &&
    Pack(words, WordBits) == Stream(data, sha)[..11 * |words|] &&
    e.pos == (if 11 * |words| <= 8 * |data| then 11 * |words| else 8 * |data|)
  }

  /** One more word keeps Progress. */
  lemma {:induction false} ProgressStep(e: Enc, e': Enc, data: seq<byte>, sha: byte,
                                        words: seq<nat>, r: nat)
    requires Progress(e, data, sha, words) && e.p < |data|
    requires e.pos + 11 <= 8 * |data| + 8 && r < WordCount
    requires r == FromBits(Stream(data, sha)[e.pos..e.pos + 11])
    requires Valid(e') && e'.data == data && e'.sha == sha
    requires e'.pos == (if e.pos + 11 <= 8 * |data| then e.pos + 11 else 8 * |data|)
    ensures Progress(e', data, sha, words + [r])
  {
    assert e.pos == 11 * |words|;
    PackExtend(words, Stream(data, sha), r);
    Pow2Of11();
    assert Fits(words + [r], WordBits) by {
      assert forall i :: 0 <= i < |words| ==> (words + [r])[i] == words[i];
    }
  }

  /** The packed words grow by the next 11 bits of s. */
  lemma {:induction false} PackExtend(words: seq<nat>, s: seq<bit>, r: nat)
    requires 11 * |words| + 11 <= |s| && Pack(words, WordBits) == s[..11 * |words|]
    requires r == FromBits(s[11 * |words|..11 * |words| + 11])
    ensures Pack(words + [r], WordBits) == s[..11 * |words| + 11]
  {
    var k := 11 * |words|;
    PackAppend(words, [r], WordBits);
    PackOne(r, WordBits);
    ToFromBits(s[k..k + 11]);
    PrefixExtend(s, k, k + 11);
  }

  /** At the end the words cover the data and ChecksumLen hash bits. */
  lemma {:induction false} ProgressEnd(e: Enc, data: seq<byte>, sha: byte, words: seq<nat>)
    requires Progress(e, data, sha, words) && e.p == |data|
    ensures words == MnemonicOf(data, sha)
  {
    WordsCover(|data|, |words|);
    StreamPrefix(data, sha, ChecksumLen(|data|));
    UnpackPack(words, [], WordBits);
    assert Pack(words, WordBits) + [] == Pack(words, WordBits);
  }

  /** The whole words that reach past 8n bits, by fewer than 11, end
      ChecksumLen(n) bits past them. */
  lemma {:induction false} WordsCover(n: nat, m: nat)
    requires 8 * n <= 11 * m <= 8 * n + 10
    ensures 11 * m == 8 * n + ChecksumLen(n)
  {
    var q, r := (8 * n) / 11, (8 * n) % 11;
    assert 8 * n == 11 * q + r;
    if r == 0 {
      assert ChecksumLen(n) == 0;
      assert m == q;
    } else {
      assert ChecksumLen(n) == 11 - r;
      assert m == q + 1;
    }
  }

  /** The stream's first 8n + k bits: the data and k bits of the hash. */
  lemma {:induction false} StreamPrefix(data: seq<byte>, sha: byte, k: nat)
    requires k <= 8
    ensures Stream(data, sha)[..8 * |data| + k] == Pack(data, 8) + HashBits(sha, k)
  {
    PackLength(data, 8);
  }

  /** The caller's loop: the words of bip39_next_word until it returns -1
      are the mnemonic of the data and the hash's first byte. */
  method Mnemonic(data: seq<byte>, sha0: seq<byte> -> byte) returns (words: seq<nat>)
    requires ChecksumCovers(|data|)
    ensures words == MnemonicOf(data, sha0(data))
  {
    var e := Begin(data, sha0);
    words := [];
    assert Stream(data, e.sha)[..0] == [];
    while e.p < |data|
      invariant Progress(e, data, e.sha, words) && e.sha == sha0(data)
      decreases 8 * |data| - e.pos
    {
      var e', r := NextWord(e);
      ProgressStep(e, e', data, e.sha, words, r);
      words, e := words + [r], e';
    }
    var _, last := NextWord(e);
    assert last == -1;
    ProgressEnd(e, data, e.sha, words);
  }
}
