/** HOTP as in RFC 4226: the moving factor as big-endian bytes, and the
    dynamic truncation (section 5.3 of RFC 4226) of the HMAC-SHA-1 value to
    a 31-bit number. HMAC-SHA-1 itself is a parameter. */
module Hotp {
  import opened Bytes
  import opened Bits

  const HmacSha1Bytes: nat := 20

  /** The value of a big-endian byte string. */
  function FromBE(s: seq<byte>): nat
  {
    if s == [] then 0 else FromBE(s[..|s| - 1]) * 256 + s[|s| - 1]
  }

  /** The truncation offset: the low nibble of the last hash byte. */
  function Offset(hash: seq<byte>): (i: nat)
    requires |hash| == HmacSha1Bytes
    ensures i + 4 <= |hash|
  {
    hash[HmacSha1Bytes - 1] % 16
  }

  /** hotp once hmac_sha1 has produced hash: the four bytes at the offset,
      the first with its top bit cleared, shifted into place and or-ed. */
  function Truncate(hash: seq<byte>): nat
    requires |hash| == HmacSha1Bytes
  {
    var i := Offset(hash);
    Or(Or(Or(Shl(hash[i] % 0x80, 24), Shl(hash[i + 1], 16)), Shl(hash[i + 2], 8)), hash[i + 3])
  }

  // ---------------------------------------------------------------------
  // Shifts and ors of disjoint bit fields.

  lemma {:induction false} ShlAdd(x: nat, a: nat, b: nat)
    ensures Shl(x, a + b) == Shl(Shl(x, a), b)
  {
    if b > 0 {
      ShlAdd(x, a, b - 1);
    }
  }

  lemma OrDouble(x: nat, y: nat)
    ensures Or(2 * x, 2 * y) == 2 * Or(x, y)
  {
    if x != 0 && y != 0 {
      assert (2 * x) / 2 == x && (2 * y) / 2 == y;
    }
  }

  /** Shifting both operands shifts the or. */
  lemma {:induction false} OrScale(x: nat, y: nat, k: nat)
    ensures Or(Shl(x, k), Shl(y, k)) == Shl(Or(x, y), k)
  {
    if k > 0 {
      OrScale(x, y, k - 1);
      OrDouble(Shl(x, k - 1), Shl(y, k - 1));
    }
  }

  /** (hi << 8 * (m + 1)) | (lo << 8 * m) == ((hi << 8) + lo) << 8 * m for a
      byte lo. */
  lemma Field(hi: nat, lo: byte, m: nat)
    ensures Or(Shl(hi, 8 * m + 8), Shl(lo, 8 * m)) == Shl(hi * 256 + lo, 8 * m)
  {
    ShlAdd(hi, 8, 8 * m);
    OrScale(Shl(hi, 8), lo, 8 * m);
    Pow2Of8();
    OrShl(hi, lo, 8);
    ShlIsMul(hi, 8);
  }

  /** The truncated value is the 31-bit big-endian number in the four
      bytes at the offset. */
  lemma TruncateValue(hash: seq<byte>)
    requires |hash| == HmacSha1Bytes
    ensures var i := Offset(hash);
      Truncate(hash) == FromBE(hash[i..i + 4]) % 0x8000_0000 < 0x8000_0000
  {
    var i := Offset(hash);
    var a: nat, b: byte, c: byte, d: byte := hash[i] % 0x80, hash[i + 1], hash[i + 2], hash[i + 3];
    Field(a, b, 2);
    Field(a * 256 + b, c, 1);
    Field((a * 256 + b) * 256 + c, d, 0);
    var v := ((a * 256 + b) * 256 + c) * 256 + d;
    assert Truncate(hash) == v;
    var s := hash[i..i + 4];
    FromBE4(s);
    assert FromBE(s) == hash[i] / 0x80 * 0x8000_0000 + v;
    DivModUnique(FromBE(s), 0x8000_0000, hash[i] / 0x80, v);
  }

  /** Four bytes, most significant first. */
  lemma FromBE4(s: seq<byte>)
    requires |s| == 4
    ensures FromBE(s) == ((s[0] as nat * 256 + s[1]) * 256 + s[2]) * 256 + s[3]
  {
    var s1, s2, s3 := s[..1], s[..2], s[..3];
    assert s1[..0] == [] && s2[..1] == s1 && s3[..2] == s2 && s[..3] == s3;
    assert FromBE(s1) == s[0];
    assert FromBE(s2) == s[0] as nat * 256 + s[1];
    assert FromBE(s3) == (s[0] as nat * 256 + s[1]) * 256 + s[2];
  }

  /** The example of section 5.4 of RFC 4226: offset 10, value
      0x50ef7f19. */
  lemma TruncateRfcExample(hash: seq<byte>)
    requires hash == [0x1f, 0x86, 0x98, 0x69, 0x0e, 0x02, 0xca, 0x16, 0x61, 0x85,
                      0x50, 0xef, 0x7f, 0x19, 0xda, 0x8e, 0x94, 0x5b, 0x55, 0x5a]
    ensures Offset(hash) == 10 && Truncate(hash) == 0x50ef7f19
  {
    assert hash[19] == 0x5a;
    assert Offset(hash) == 10;
    TruncateValue(hash);
    var s := hash[10..14];
    assert s == [0x50, 0xef, 0x7f, 0x19];
    FromBE4(s);
  }

  // ---------------------------------------------------------------------
  // hotp_n: the moving factor.

  type u64 = x: nat | x < 0x1_0000_0000_0000_0000

  /** Byte k of count from the low end: count >> 8 k, truncated to a byte. */
  function ByteOf(count: nat, k: nat): byte
  {
    Shr(count, 8 * k) % 256
  }

  /** hotp_n's counter bytes: c_bytes[i] = count >> 8 (bytes - i - 1). */
  function CounterBytes(count: u64, bytes: nat): (r: seq<byte>)
    requires bytes <= 8
    ensures |r| == bytes
  {
    seq(bytes, i requires 0 <= i < bytes => ByteOf(count, bytes - i - 1))
  }

  lemma ByteOfShift(count: nat, k: nat)
    requires k > 0
    ensures ByteOf(count, k) == ByteOf(count / 256, k - 1)
  {
    ShrIsDiv(count, 8 * k);
    ShrIsDiv(count / 256, 8 * (k - 1));
    Pow2Of8();
    Pow2Add(8, 8 * (k - 1));
    DivDiv(count, 256, Pow2(8 * (k - 1)));
  }

  /** The counter bytes are count mod 256^bytes, most significant first. */
  lemma {:induction false} CounterValue(count: u64, bytes: nat)
    requires bytes <= 8
    ensures FromBE(CounterBytes(count, bytes)) == count % Pow256(bytes)
  {
    var r := CounterBytes(count, bytes);
    if bytes > 0 {
      var q := count / 256;
      var head := CounterBytes(q, bytes - 1);
      forall i | 0 <= i < bytes - 1
        ensures r[i] == head[i]
      {
        ByteOfShift(count, bytes - i - 1);
      }
      assert r[..bytes - 1] == head;
      assert r[bytes - 1] == ByteOf(count, 0);
      assert ByteOf(count, 0) == count % 256 by {
        assert 8 * 0 == 0 && Shr(count, 0) == count;
      }
      CounterValue(q, bytes - 1);
      ShiftProduct(q, count % 256, Pow256(bytes - 1), 256);
      MulComm(Pow256(bytes - 1), 256);
    } else {
      assert count % 1 == 0;
    }
  }

  /** hotp64: the whole 64-bit counter is encoded. */
  lemma Counter64(count: u64)
    ensures FromBE(CounterBytes(count, 8)) == count
  {
    CounterValue(count, 8);
    assert Pow256(8) == 0x1_0000_0000_0000_0000 by {
      assert Pow256(4) == 0x1_0000_0000;
    }
  }

  /** hotp64 with mac standing for hmac_sha1 over the key and the eight
      counter bytes. */
  function Hotp64(mac: (seq<byte>, seq<byte>) -> seq<byte>, key: seq<byte>, count: u64): (r: nat)
    requires |mac(key, CounterBytes(count, 8))| == HmacSha1Bytes
  {
    Truncate(mac(key, CounterBytes(count, 8)))
  }

  /** hotp64 truncates the MAC of the eight big-endian bytes of the
      counter, and its value has 31 bits. */
  lemma Hotp64Value(mac: (seq<byte>, seq<byte>) -> seq<byte>, key: seq<byte>, count: u64)
    requires |mac(key, CounterBytes(count, 8))| == HmacSha1Bytes
    ensures var m := CounterBytes(count, 8);
      FromBE(m) == count &&
      var hash := mac(key, m); var i := Offset(hash);
      Hotp64(mac, key, count) == FromBE(hash[i..i + 4]) % 0x8000_0000 < 0x8000_0000
  {
    Counter64(count);
    TruncateValue(mac(key, CounterBytes(count, 8)));
  }
}
