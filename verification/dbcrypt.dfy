/** db/dbcrypt.c: the envelope that encrypts one storage block for a list
    of readers. The block holds the writer's public key, a nonce, the
    number of readers, for each reader its public key and the record key
    wrapped with the key it shares with the writer, and then the content
    sealed with the record key. The NaCl primitives are parameters, with
    the properties the layout relies on stated as a predicate. */
module DbCrypt {
  import opened Bytes
  import opened Results

  /** STORAGE_BLOCK_SIZE. */
  const BlockSize: nat := 1024
  /** crypto_box_PUBLICKEYBYTES. */
  const PkBytes: nat := 32
  /** crypto_secretbox_NONCEBYTES. */
  const NonceBytes: nat := 24
  /** crypto_secretbox_KEYBYTES. */
  const KeyBytes: nat := 32
  /** BOX_OVERHEAD: crypto_secretbox_ZEROBYTES less
      crypto_secretbox_BOXZEROBYTES, the authenticator. */
  const BoxOverhead: nat := 16
  /** One reader entry: public key and wrapped record key. */
  const EntryBytes: nat := PkBytes + KeyBytes

  /** Offsets: the nonce follows the writer's public key, the reader count
      the nonce, the entries the count. */
  const NonceAt: nat := PkBytes
  const CountAt: nat := NonceAt + NonceBytes
  const ListAt: nat := CountAt + 1

  /** Where entry i starts; with i the reader count, where the sealed
      content starts. */
  function EntryAt(i: nat): nat
  {
    ListAt + i * EntryBytes
  }

  /** The NaCl functions: crypto_scalarmult_base, crypto_box_beforenm (on
      a public and a secret key), crypto_stream_xor, crypto_secretbox and
      crypto_secretbox_open, all on the bytes past their zero padding. */
  datatype NaCl = NaCl(
    publicKey: seq<byte> -> seq<byte>,
    beforenm: (seq<byte>, seq<byte>) -> seq<byte>,
    streamXor: (seq<byte>, seq<byte>, seq<byte>) -> seq<byte>,
    secretbox: (seq<byte>, seq<byte>, seq<byte>) -> seq<byte>,
    secretboxOpen: (seq<byte>, seq<byte>, seq<byte>) -> Option<seq<byte>>)

  /** What the envelope relies on: both sides of a key exchange get the
      same shared key, the stream cipher undoes itself and keeps lengths,
      and a sealed box opens with its key and nonce to what was sealed and
      adds the authenticator. */
  ghost predicate Sound(c: NaCl)
  {
    (forall a, b :: c.beforenm(c.publicKey(a), b) == c.beforenm(c.publicKey(b), a)) &&
    (forall m, n, k :: |c.streamXor(m, n, k)| == |m|) &&
    (forall m, n, k :: c.streamXor(c.streamXor(m, n, k), n, k) == m) &&
    (forall m, n, k :: |c.secretbox(m, n, k)| == |m| + BoxOverhead) &&
    (forall m, n, k :: c.secretboxOpen(c.secretbox(m, n, k), n, k) == Some(m))
  }

  // ---------------------------------------------------------------------
  // The context.

  /** A reader: the key shared with it, and its public key. */
  datatype Peer = Peer(k: seq<byte>, pk: seq<byte>)

  /** struct dbcrypt: our secret and public key, and the readers. */
  datatype Ctx = Ctx(sk: seq<byte>, pk: seq<byte>, readers: seq<Peer>)

  /** Public keys of the right size. */
  predicate Valid(ctx: Ctx)
  {
    |ctx.pk| == PkBytes && forall i :: 0 <= i < |ctx.readers| ==> |ctx.readers[i].pk| == PkBytes
  }

  /** The keys of the context are what init and add_reader derive: our
      public key from our secret key, each shared key from the reader's
      public key and our secret key. */
  ghost predicate Keyed(c: NaCl, ctx: Ctx)
  {
    ctx.pk == c.publicKey(ctx.sk) &&
    forall i :: 0 <= i < |ctx.readers| ==> ctx.readers[i].k == c.beforenm(ctx.readers[i].pk, ctx.sk)
  }

  /** dbcrypt_init: we are our own first reader. */
  function Init(c: NaCl, sk: seq<byte>): (ctx: Ctx)
    requires |sk| == KeyBytes && |c.publicKey(sk)| == PkBytes
    ensures Valid(ctx) && Keyed(c, ctx)
    ensures ctx.readers == [Peer(c.beforenm(ctx.pk, sk), ctx.pk)]
  {
    var pk := c.publicKey(sk);
    Ctx(sk, pk, [Peer(c.beforenm(pk, sk), pk)])
  }

  /** dbcrypt_add_reader: the reader goes at the end of the list. */
  function AddReader(c: NaCl, ctx: Ctx, pk: seq<byte>): (r: Ctx)
    requires |pk| == PkBytes
    ensures Valid(ctx) ==> Valid(r)
    ensures Keyed(c, ctx) ==> Keyed(c, r)
    ensures r.sk == ctx.sk && r.pk == ctx.pk
    ensures |r.readers| == |ctx.readers| + 1 && r.readers[..|ctx.readers|] == ctx.readers
    ensures r.readers[|ctx.readers|].pk == pk
  {
    ctx.(readers := ctx.readers + [Peer(c.beforenm(pk, ctx.sk), pk)])
  }

  // ---------------------------------------------------------------------
  // db_encrypt.

  /** The layout db_encrypt asserts: at least one reader, and the content
      with the authenticator fits after the reader list. */
  predicate Fits(readers: nat, length: nat)
  {
    1 <= readers && EntryAt(readers) + length + BoxOverhead <= BlockSize
  }

  /** A layout that fits has fewer readers than the count byte could
      count. */
  lemma FitsCount(readers: nat, length: nat)
    requires Fits(readers, length)
    ensures readers <= 14
  {
  }

  /** The reader entries: each reader's public key and the record key
      wrapped with the key shared with it. */
  function Entries(c: NaCl, readers: seq<Peer>, nonce: seq<byte>, rk: seq<byte>): (r: seq<byte>)
  {
    if readers == [] then []
    else readers[0].pk + c.streamXor(rk, nonce, readers[0].k) + Entries(c, readers[1..], nonce, rk)
  }

  /** db_encrypt, with the nonce and the record key drawn by the caller: the
      content is zero-padded so that the sealed part ends at the block end. */
  function Encrypt(c: NaCl, ctx: Ctx, content: seq<byte>, nonce: seq<byte>, rk: seq<byte>): (block: seq<byte>)
    requires Sound(c) && Valid(ctx) && Fits(|ctx.readers|, |content|)
    requires |nonce| == NonceBytes && |rk| == KeyBytes
    ensures |block| == BlockSize
  {
    var n := |ctx.readers|;
    FitsCount(n, |content|);
    EntriesLayout(c, ctx.readers, nonce, rk);
    var room := BlockSize - EntryAt(n);
    ctx.pk + nonce + [n] + Entries(c, ctx.readers, nonce, rk) +
    c.secretbox(content + Zeros(room - BoxOverhead - |content|), nonce, rk)
  }

  /** Slicing past a prefix. */
  lemma AppendSlice(a: seq<byte>, b: seq<byte>, x: nat, y: nat)
    requires x <= y <= |b|
    ensures (a + b)[|a| + x..|a| + y] == b[x..y]
  {
  }

  /** The entries take one EntryBytes slot per reader. */
  lemma {:induction false} EntriesLength(c: NaCl, readers: seq<Peer>, nonce: seq<byte>, rk: seq<byte>)
    requires Sound(c) && |rk| == KeyBytes
    requires forall i :: 0 <= i < |readers| ==> |readers[i].pk| == PkBytes
    ensures |Entries(c, readers, nonce, rk)| == |readers| * EntryBytes
  {
    if readers != [] {
      EntriesLength(c, readers[1..], nonce, rk);
    }
  }

  /** Slot i of the entries holds reader i's public key, then the record
      key wrapped for it. */
  lemma {:induction false} EntrySlot(c: NaCl, readers: seq<Peer>, nonce: seq<byte>, rk: seq<byte>, i: nat)
    requires Sound(c) && |rk| == KeyBytes
    requires forall i :: 0 <= i < |readers| ==> |readers[i].pk| == PkBytes
    requires i < |readers|
    ensures |Entries(c, readers, nonce, rk)| == |readers| * EntryBytes
    ensures Entries(c, readers, nonce, rk)[i * EntryBytes..i * EntryBytes + PkBytes] == readers[i].pk
    ensures Entries(c, readers, nonce, rk)[i * EntryBytes + PkBytes..(i + 1) * EntryBytes] == c.streamXor(rk, nonce, readers[i].k)
  {
    EntriesLength(c, readers, nonce, rk);
    var head := readers[0].pk + c.streamXor(rk, nonce, readers[0].k);
    var tail := Entries(c, readers[1..], nonce, rk);
    assert Entries(c, readers, nonce, rk) == head + tail;
    assert |head| == EntryBytes;
    if i == 0 {
      assert (head + tail)[..PkBytes] == head[..PkBytes];
      assert (head + tail)[PkBytes..EntryBytes] == head[PkBytes..];
    } else {
      EntrySlot(c, readers[1..], nonce, rk, i - 1);
      assert readers[1..][i - 1] == readers[i];
      AppendSlice(head, tail, (i - 1) * EntryBytes, (i - 1) * EntryBytes + PkBytes);
      AppendSlice(head, tail, (i - 1) * EntryBytes + PkBytes, i * EntryBytes);
    }
  }

  /** The entries take one EntryBytes slot per reader; slot i holds reader
      i's public key, then the record key wrapped for it. */
  lemma EntriesLayout(c: NaCl, readers: seq<Peer>, nonce: seq<byte>, rk: seq<byte>)
    requires Sound(c) && |rk| == KeyBytes
    requires forall i :: 0 <= i < |readers| ==> |readers[i].pk| == PkBytes
    ensures |Entries(c, readers, nonce, rk)| == |readers| * EntryBytes
    ensures forall i :: 0 <= i < |readers| ==>
      Entries(c, readers, nonce, rk)[i * EntryBytes..i * EntryBytes + PkBytes] == readers[i].pk
    ensures forall i :: 0 <= i < |readers| ==>
      Entries(c, readers, nonce, rk)[i * EntryBytes + PkBytes..(i + 1) * EntryBytes] == c.streamXor(rk, nonce, readers[i].k)
  {
    EntriesLength(c, readers, nonce, rk);
    forall i | 0 <= i < |readers|
      ensures Entries(c, readers, nonce, rk)[i * EntryBytes..i * EntryBytes + PkBytes] == readers[i].pk
      ensures Entries(c, readers, nonce, rk)[i * EntryBytes + PkBytes..(i + 1) * EntryBytes] == c.streamXor(rk, nonce, readers[i].k)
    {
      EntrySlot(c, readers, nonce, rk, i);
    }
  }

  /** The encrypted block: exactly BlockSize bytes, the writer's public key
      at 0, the nonce at 32, the reader count at 56, the entries from 57,
      and the sealed content from the end of the entries to the block end. */
  lemma {:induction false} EncryptLayout(c: NaCl, ctx: Ctx, content: seq<byte>, nonce: seq<byte>, rk: seq<byte>)
    requires Sound(c) && Valid(ctx) && Fits(|ctx.readers|, |content|)
    requires |nonce| == NonceBytes && |rk| == KeyBytes
    ensures var b := Encrypt(c, ctx, content, nonce, rk);
      var n := |ctx.readers|;
      |b| == BlockSize &&
      b[..NonceAt] == ctx.pk &&
      b[NonceAt..CountAt] == nonce &&
      b[CountAt] == n &&
      b[ListAt..EntryAt(n)] == Entries(c, ctx.readers, nonce, rk) &&
      b[EntryAt(n)..] == c.secretbox(content + Zeros(BlockSize - EntryAt(n) - BoxOverhead - |content|), nonce, rk)
  {
    var n := |ctx.readers|;
    EntriesLayout(c, ctx.readers, nonce, rk);
    var es := Entries(c, ctx.readers, nonce, rk);
    var room := BlockSize - EntryAt(n);
    var sealed := c.secretbox(content + Zeros(room - BoxOverhead - |content|), nonce, rk);
    var b := ctx.pk + nonce + [n] + es + sealed;
    assert b == ((ctx.pk + nonce) + [n]) + es + sealed;
    assert |ctx.pk + nonce + [n]| == ListAt;
  }

  // ---------------------------------------------------------------------
  // db_decrypt.

  /** The public key in entry i of the block. */
  function EntryPk(block: seq<byte>, i: nat): seq<byte>
    requires EntryAt(i + 1) <= |block|
  {
    block[EntryAt(i)..EntryAt(i) + PkBytes]
  }

  /** The first entry from i on, below n, whose public key is pk, or n. */
  function FindReader(block: seq<byte>, n: nat, pk: seq<byte>, i: nat): (r: nat)
    requires i <= n && EntryAt(n) <= |block|
    ensures i <= r <= n
    ensures r < n ==> EntryPk(block, r) == pk
    ensures forall j :: i <= j < r ==> EntryPk(block, j) != pk
    decreases n - i
  {
    if i == n then n
    else if EntryPk(block, i) == pk then i
    else FindReader(block, n, pk, i + 1)
  }

  /** How the shared key is derived: from the writer's public key at the
      start of the block, or (as db_decrypt does) from the public key in
      the reader entry. */
  datatype Peering = FromWriter | FromEntry

  /** db_decrypt: None where it returns -1, else the content. The reader
      list must end within the block and leave room for the
      authenticator, and our public key must be listed. */
  function DecryptUsing(c: NaCl, ctx: Ctx, block: seq<byte>, how: Peering): (r: Option<seq<byte>>)
    requires |block| == BlockSize
    ensures r.Some? ==> EntryAt(block[CountAt]) + BoxOverhead <= BlockSize
    ensures r.Some? ==> exists i :: 0 <= i < block[CountAt] && EntryPk(block, i) == ctx.pk
  {
    var n := block[CountAt];
    if EntryAt(n) > BlockSize then None
    else if BlockSize - EntryAt(n) < BoxOverhead then None
    else
      var i := FindReader(block, n, ctx.pk, 0);
      if i == n then None
      else
        var e := EntryAt(i);
        var nonce := block[NonceAt..CountAt];
        var peer := if how == FromWriter then block[..NonceAt] else EntryPk(block, i);
        var rk := c.streamXor(block[e + PkBytes..e + EntryBytes], nonce, c.beforenm(peer, ctx.sk));
        c.secretboxOpen(block[EntryAt(n)..], nonce, rk)
  }

  /** db_decrypt with the shared key taken from the writer's public key. */
  function Decrypt(c: NaCl, ctx: Ctx, block: seq<byte>): (r: Option<seq<byte>>)
    requires |block| == BlockSize
  {
    DecryptUsing(c, ctx, block, FromWriter)
  }

  /** db_decrypt as written: crypto_box_beforenm gets the public key of the
      reader entry, which is our own. */
  function DecryptAsWritten(c: NaCl, ctx: Ctx, block: seq<byte>): (r: Option<seq<byte>>)
    requires |block| == BlockSize
  {
    DecryptUsing(c, ctx, block, FromEntry)
  }

  /** Decrypting a block that lists our key: the record key of the first
      entry with our key, unwrapped with the shared key derived from peer,
      opens the sealed part. */
  lemma {:induction false} DecryptEncrypted(c: NaCl, w: Ctx, r: Ctx, content: seq<byte>, nonce: seq<byte>, rk: seq<byte>,
                                            how: Peering, i: nat)
    requires Sound(c) && Valid(w) && Fits(|w.readers|, |content|)
    requires |nonce| == NonceBytes && |rk| == KeyBytes
    requires i < |w.readers| && w.readers[i].pk == r.pk
    requires forall j :: 0 <= j < i ==> w.readers[j].pk != r.pk
    ensures var b := Encrypt(c, w, content, nonce, rk);
      var n := |w.readers|;
      var peer := if how == FromWriter then w.pk else r.pk;
      var pad := Zeros(BlockSize - EntryAt(n) - BoxOverhead - |content|);
      DecryptUsing(c, r, b, how) ==
        c.secretboxOpen(c.secretbox(content + pad, nonce, rk), nonce,
                        c.streamXor(c.streamXor(rk, nonce, w.readers[i].k), nonce, c.beforenm(peer, r.sk)))
  {
    var b := Encrypt(c, w, content, nonce, rk);
    var n := |w.readers|;
    EncryptLayout(c, w, content, nonce, rk);
    forall j | 0 <= j < n
      ensures EntryPk(b, j) == w.readers[j].pk
    {
      EncryptedEntry(c, w, content, nonce, rk, j);
    }
    EncryptedEntry(c, w, content, nonce, rk, i);
    assert FindReader(b, n, r.pk, 0) == i;
  }

  /** Entry j of an encrypted block: reader j's public key, then the
      record key wrapped for it. */
  lemma EncryptedEntry(c: NaCl, w: Ctx, content: seq<byte>, nonce: seq<byte>, rk: seq<byte>, j: nat)
    requires Sound(c) && Valid(w) && Fits(|w.readers|, |content|)
    requires |nonce| == NonceBytes && |rk| == KeyBytes
    requires j < |w.readers|
    ensures var b := Encrypt(c, w, content, nonce, rk);
      EntryPk(b, j) == w.readers[j].pk &&
      b[EntryAt(j) + PkBytes..EntryAt(j) + EntryBytes] == c.streamXor(rk, nonce, w.readers[j].k)
  {
    var b := Encrypt(c, w, content, nonce, rk);
    var n := |w.readers|;
    EncryptLayout(c, w, content, nonce, rk);
    EntrySlot(c, w.readers, nonce, rk, j);
    SlotOf(b, Entries(c, w.readers, nonce, rk), n, j);
  }

  /** Slot j of the entries list that starts at ListAt in the block is the
      block's entry j. */
  lemma SlotOf(b: seq<byte>, es: seq<byte>, n: nat, j: nat)
    requires EntryAt(n) <= |b| && j < n && b[ListAt..EntryAt(n)] == es
    ensures (j + 1) * EntryBytes <= |es|
    ensures EntryPk(b, j) == es[j * EntryBytes..j * EntryBytes + PkBytes]
    ensures b[EntryAt(j) + PkBytes..EntryAt(j) + EntryBytes] == es[j * EntryBytes + PkBytes..(j + 1) * EntryBytes]
  {
    var lo := j * EntryBytes;
    assert |es| == n * EntryBytes;
    assert EntryAt(j) == ListAt + lo && lo + EntryBytes <= |es|;
    SliceOfSlice(b, ListAt, EntryAt(n), lo, lo + PkBytes);
    SliceOfSlice(b, ListAt, EntryAt(n), lo + PkBytes, lo + EntryBytes);
  }

  /** A slice of a slice is a slice. */
  lemma SliceOfSlice(s: seq<byte>, lo: nat, hi: nat, x: nat, y: nat)
    requires lo <= hi <= |s| && x <= y <= hi - lo
    ensures s[lo..hi][x..y] == s[lo + x..lo + y]
  {
    var t := s[lo..hi][x..y];
    forall k | 0 <= k < |t|
      ensures t[k] == s[lo + x..lo + y][k]
    {
    }
  }

  /** Round trip: a reader whose key the writer listed decrypts the block to
      the content followed by the zero padding. */
  lemma {:induction false} DecryptEncrypt(c: NaCl, w: Ctx, r: Ctx, content: seq<byte>, nonce: seq<byte>, rk: seq<byte>)
    requires Sound(c) && Valid(w) && Keyed(c, w) && Keyed(c, r) && Fits(|w.readers|, |content|)
    requires |nonce| == NonceBytes && |rk| == KeyBytes
    requires exists i :: 0 <= i < |w.readers| && w.readers[i].pk == r.pk
    ensures Decrypt(c, r, Encrypt(c, w, content, nonce, rk)) ==
      Some(content + Zeros(BlockSize - EntryAt(|w.readers|) - BoxOverhead - |content|))
  {
    var i := FirstListed(w.readers, r.pk);
    DecryptEncrypted(c, w, r, content, nonce, rk, FromWriter, i);
    assert w.readers[i].k == c.beforenm(c.publicKey(r.sk), w.sk) == c.beforenm(c.publicKey(w.sk), r.sk);
  }

  /** The first reader with public key pk. */
  lemma FirstListed(readers: seq<Peer>, pk: seq<byte>) returns (i: nat)
    requires exists i :: 0 <= i < |readers| && readers[i].pk == pk
    ensures i < |readers| && readers[i].pk == pk
    ensures forall j :: 0 <= j < i ==> readers[j].pk != pk
  {
    var k :| 0 <= k < |readers| && readers[k].pk == pk;
    i := 0;
    while readers[i].pk != pk
      invariant i <= k && forall j :: 0 <= j < i ==> readers[j].pk != pk
      decreases k - i
    {
      i := i + 1;
    }
  }

  /** A writer reading its own block: the as-written derivation then uses
      the same public key, and the round trip holds. */
  lemma {:induction false} DecryptAsWrittenOwn(c: NaCl, w: Ctx, content: seq<byte>, nonce: seq<byte>, rk: seq<byte>)
    requires Sound(c) && Valid(w) && Keyed(c, w) && Fits(|w.readers|, |content|)
    requires |nonce| == NonceBytes && |rk| == KeyBytes
    requires exists i :: 0 <= i < |w.readers| && w.readers[i].pk == w.pk
    ensures DecryptAsWritten(c, w, Encrypt(c, w, content, nonce, rk)) ==
      Some(content + Zeros(BlockSize - EntryAt(|w.readers|) - BoxOverhead - |content|))
  {
    var i := FirstListed(w.readers, w.pk);
    DecryptEncrypted(c, w, w, content, nonce, rk, FromEntry, i);
  }

  // ---------------------------------------------------------------------
  // A stand-in for NaCl that shows the as-written derivation failing.

  function Head(s: seq<byte>): byte
  {
    if |s| == 0 then 0 else s[0]
  }

  /** Byte-wise k[0] - m[i] mod 256: a cipher that undoes itself. */
  function ToyXor(m: seq<byte>, k: seq<byte>): (r: seq<byte>)
    ensures |r| == |m|
  {
    seq(|m|, i requires 0 <= i < |m| => (Head(k) + 256 - m[i]) % 256)
  }

  /** A toy NaCl: the public key is the secret key, the shared key the sum
      of the first bytes, the box tags the content with the key's first
      byte. */
  function Toy(): NaCl
  {
    NaCl(
      sk => sk,
      (pk, sk) => [(Head(pk) + Head(sk)) % 256],
      (m, n, k) => ToyXor(m, k),
      (m, n, k) => [Head(k)] + Zeros(BoxOverhead - 1) + m,
      (x, n, k) => if |x| >= BoxOverhead && x[0] == Head(k) then Some(x[BoxOverhead..]) else None)
  }

  lemma ToyXorTwice(m: seq<byte>, k: seq<byte>)
    ensures ToyXor(ToyXor(m, k), k) == m
  {
    var once := ToyXor(m, k);
    forall i | 0 <= i < |m|
      ensures ToyXor(once, k)[i] == m[i]
    {
      ToyFlip(Head(k), m[i]);
    }
  }

  /** h - (h - x) == x, mod 256. */
  lemma ToyFlip(h: byte, x: byte)
    ensures (h + 256 - (h + 256 - x) % 256) % 256 == x
  {
    if h >= x {
      assert (h + 256 - x) % 256 == h - x;
    } else {
      assert (h + 256 - x) % 256 == h + 256 - x;
    }
  }

  lemma ToySound()
    ensures Sound(Toy())
  {
    var c := Toy();
    forall m, n, k
      ensures c.streamXor(c.streamXor(m, n, k), n, k) == m
    {
      ToyXorTwice(m, k);
    }
    forall m, n, k
      ensures c.secretboxOpen(c.secretbox(m, n, k), n, k) == Some(m)
    {
      var x := c.secretbox(m, n, k);
      assert x[BoxOverhead..] == m;
    }
  }

  /** A box sealed under one key does not open under a key with another
      first byte. */
  lemma ToyOpenFails(m: seq<byte>, n: seq<byte>, k: seq<byte>, k': seq<byte>)
    requires Head(k) != Head(k')
    ensures Toy().secretboxOpen(Toy().secretbox(m, n, k), n, k') == None
  {
    assert Toy().secretbox(m, n, k)[0] == Head(k);
  }

  /** The first byte of a record key of zeros, wrapped with shared key a
      and unwrapped with b. */
  lemma ToyUnwrap(rk: seq<byte>, a: byte, b: byte)
    requires |rk| > 0 && rk[0] == 0
    ensures Head(ToyXor(ToyXor(rk, [a]), [b])) == (b + 256 - a) % 256
  {
    assert Head([a]) == a && Head([b]) == b;
    var once := ToyXor(rk, [a]);
    assert once[0] == (a + 256 - rk[0]) % 256 == a;
    assert ToyXor(once, [b])[0] == (b + 256 - once[0]) % 256;
  }

  /** A writer with secret key starting 1 that lists itself and then a
      reader with secret key starting 2: the reader decrypts the block with
      the writer's public key, but not with its own as db_decrypt does. */
  lemma DecryptAsWrittenExample(skw: seq<byte>, skr: seq<byte>, content: seq<byte>, nonce: seq<byte>)
    requires |skw| == |skr| == KeyBytes && skw[0] == 1 && skr[0] == 2
    requires |nonce| == NonceBytes && EntryAt(2) + |content| + BoxOverhead <= BlockSize
    ensures Sound(Toy())
    ensures Sound(Toy()) && var c := Toy();
      var w := AddReader(c, Init(c, skw), skr);
      var r := Init(c, skr);
      var b := Encrypt(c, w, content, nonce, Zeros(KeyBytes));
      Decrypt(c, r, b).Some? && DecryptAsWritten(c, r, b) == None
  {
    var c := Toy();
    var w := AddReader(c, Init(c, skw), skr);
    var r := Init(c, skr);
    var rk := Zeros(KeyBytes);
    ToyKeys(skw, skr, nonce);
    ToyUnwrap(rk, 3, 4);
    var pad := Zeros(BlockSize - EntryAt(2) - BoxOverhead - |content|);
    ToyOpenFails(content + pad, nonce, rk, ToyXor(ToyXor(rk, [3]), [4]));
    ToySound();
    DecryptEncrypt(c, w, r, content, nonce, rk);
    DecryptEncrypted(c, w, r, content, nonce, rk, FromEntry, 1);
  }

  /** The keys of the example: the reader is listed second, its entry is
      wrapped with shared key 3, and it derives 4 from its own key. */
  lemma ToyKeys(skw: seq<byte>, skr: seq<byte>, nonce: seq<byte>)
    requires |skw| == |skr| == KeyBytes && skw[0] == 1 && skr[0] == 2
    ensures var c := Toy();
      var w := AddReader(c, Init(c, skw), skr);
      var r := Init(c, skr);
      |w.readers| == 2 && w.readers[1].pk == r.pk && w.readers[0].pk != r.pk &&
      w.readers[1].k == [3] && c.beforenm(r.pk, r.sk) == [4] &&
      c.streamXor(c.streamXor(Zeros(KeyBytes), nonce, w.readers[1].k), nonce, c.beforenm(r.pk, r.sk))
        == ToyXor(ToyXor(Zeros(KeyBytes), [3]), [4])
  {
  }
}
