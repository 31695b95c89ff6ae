/** tools/accenc.py: the host tool that turns a list of account records
    into a storage image. Each record becomes a type/length/value payload
    framed as one 1024-byte block, and 0xFF filler blocks complete the
    image. The Python library calls it makes (base64.b32decode, int() on a
    string, os.urandom) are parameters. */
module Accenc {
  import opened Bytes
  import opened Results
  import Db

  const BlockSize: nat := 1024
  const NonceSize: nat := 24
  const NoncePad: nat := 8
  const PayloadSize: nat := 956
  const HashSize: nat := 20
  const HashPad: nat := 12
  const StorageBlocks: nat := 2048

  /** The keys a record may hold, in the order they are written. The field
      code of a key is its position plus one. */
  const Keys: seq<string> := ["id", "prev", "user", "email", "pw", "hotp_secret", "hotp_counter",
                              "totp_secret", "comment"]

  /** A JSON value of a record: text or a number. */
  datatype Value = Text(s: string) | Number(n: int)

  /** A record: a JSON object. */
  type Record = map<string, Value>

  /** Why the script stops: encode's exception for a key it does not know,
      a value of the wrong kind or that the library refuses, a length the
      "B" format cannot hold, a counter the "<Q" format cannot hold. */
  datatype Error = UnknownKey(key: string) | BadValue(key: string) | TooLong(key: string) | OutOfRange(key: string)

  /** The library functions: base64.b32decode and int() on a string, None
      where they raise. */
  datatype Env = Env(b32decode: string -> Option<seq<byte>>, parseInt: string -> Option<int>)

  predicate TextKey(key: string)
  {
    key == "id" || key == "prev" || key == "user" || key == "email" || key == "pw" || key == "comment"
  }

  predicate SecretKey(key: string)
  {
    key == "hotp_secret" || key == "totp_secret"
  }

  // ---------------------------------------------------------------------
  // UTF-8, as str.encode() produces it.

  /** The UTF-8 bytes of one character. */
  function Utf8Char(c: char): (r: seq<byte>)
    ensures 1 <= |r| <= 4
    ensures |r| == 1 <==> c as int < 0x80
    ensures |r| == 1 ==> r[0] == c as int
  {
    var v := c as int;
    if v < 0x80 then [v]
    else if v < 0x800 then [0xC0 + v / 0x40, 0x80 + v % 0x40]
    else if v < 0x1_0000 then [0xE0 + v / 0x1000, 0x80 + v / 0x40 % 0x40, 0x80 + v % 0x40]
    else [0xF0 + v / 0x4_0000, 0x80 + v / 0x1000 % 0x40, 0x80 + v / 0x40 % 0x40, 0x80 + v % 0x40]
  }

  function Utf8(s: string): (r: seq<byte>)
  {
    if |s| == 0 then [] else Utf8Char(s[0]) + Utf8(s[1..])
  }

  predicate Ascii(s: string)
  {
    forall i :: 0 <= i < |s| ==> s[i] as int < 0x80
  }

  /** UTF-8 has at least one byte per character, and exactly one for each
      when the text is ASCII. */
  lemma {:induction false} Utf8Length(s: string)
    ensures |Utf8(s)| >= |s|
    ensures |Utf8(s)| == |s| <==> Ascii(s)
  {
    if |s| > 0 {
      Utf8Length(s[1..]);
      if Ascii(s) {
        assert Ascii(s[1..]) by {
          forall i | 0 <= i < |s| - 1
            ensures s[1..][i] as int < 0x80
          {
            assert s[1..][i] == s[i + 1];
          }
        }
      } else if s[0] as int < 0x80 {
        var i :| 0 <= i < |s| && s[i] as int >= 0x80;
        assert s[1..][i - 1] == s[i];
      }
    }
  }

  // ---------------------------------------------------------------------
  // encode.

  /** What a value of the key stands for on the device: the bytes of the
      field, or why there are none. */
  function FieldValue(env: Env, key: string, v: Value): (r: Result<seq<byte>, Error>)
  {
    if TextKey(key) then
      if !v.Text? then Err(BadValue(key)) else Ok(Utf8(v.s))
    else if SecretKey(key) then
      if !v.Text? then Err(BadValue(key))
      else match env.b32decode(v.s)
        case None => Err(BadValue(key))
        case Some(b) => Ok(b)
    else if key == "hotp_counter" then
      match Counter(env, v)
      case None => Err(BadValue(key))
      case Some(n) => if 0 <= n < Pow256(8) then Ok(LE(n, 8)) else Err(OutOfRange(key))
    else Err(UnknownKey(key))
  }

  /** int(v): a number as it is, a text as the library reads it. */
  function Counter(env: Env, v: Value): Option<int>
  {
    match v
    case Number(n) => Some(n)
    case Text(s) => env.parseInt(s)
  }

  /** encode, with the length byte counting the bytes written. */
  function Encode(env: Env, key: string, code: byte, v: Value): (r: Result<seq<byte>, Error>)
  {
    if TextKey(key) then
      if !v.Text? then Err(BadValue(key))
      else
        var b := Utf8(v.s);
        if |b| >= 256 then Err(TooLong(key)) else Ok([code, |b|] + b)
    else if SecretKey(key) then
      if !v.Text? then Err(BadValue(key))
      else match env.b32decode(v.s)
        case None => Err(BadValue(key))
        case Some(b) => if |b| >= 256 then Err(TooLong(key)) else Ok([code, |b|] + b)
    else if key == "hotp_counter" then
      match Counter(env, v)
      case None => Err(BadValue(key))
      case Some(n) => if 0 <= n < Pow256(8) then Ok([code, 8] + LE(n, 8)) else Err(OutOfRange(key))
    else Err(UnknownKey(key))
  }

  /** encode as written: the length byte of a text field is len(v), the
      number of characters, while the value is its UTF-8 bytes. */
  function EncodeAsWritten(env: Env, key: string, code: byte, v: Value): (r: Result<seq<byte>, Error>)
  {
    if TextKey(key) && v.Text? then
      if |v.s| >= 256 then Err(TooLong(key)) else Ok([code, |v.s|] + Utf8(v.s))
    else Encode(env, key, code, v)
  }

  /** How a text field's length byte is counted: the number of characters,
      as the script writes it, or the number of UTF-8 bytes, as the device
      reads it. */
  datatype Lengths = CharCount | ByteCount

  /** encode, with the length byte counted as `how` says. */
  function EncodeWith(how: Lengths, env: Env, key: string, code: byte, v: Value): (r: Result<seq<byte>, Error>)
  {
    if how == CharCount then EncodeAsWritten(env, key, code, v) else Encode(env, key, code, v)
  }

  /** Where every text is ASCII the two counts agree, so the script writes
      the device's record of the field. */
  lemma {:induction false} EncodeWithAscii(env: Env, key: string, code: byte, v: Value)
    requires TextKey(key) && v.Text? ==> Ascii(v.s)
    ensures EncodeWith(CharCount, env, key, code, v) == EncodeWith(ByteCount, env, key, code, v)
  {
    if TextKey(key) && v.Text? {
      Utf8Length(v.s);
    }
  }

  /** encode writes the device's record of the field: the code, then the
      length and bytes of the value; it fails exactly when the value has no
      bytes or more than a length byte can count. */
  lemma {:induction false} EncodeField(env: Env, key: string, code: byte, v: Value)
    ensures Encode(env, key, code, v).Ok? <==> FieldValue(env, key, v).Ok? && |FieldValue(env, key, v).value| < 256
    ensures Encode(env, key, code, v).Ok? ==>
      Encode(env, key, code, v).value == Db.Record(Db.Field(code, FieldValue(env, key, v).value))
    ensures FieldValue(env, key, v).Err? ==> Encode(env, key, code, v) == Err(FieldValue(env, key, v).error)
    ensures Encode(env, key, code, v).Err? <==> !Keyed(key) || FieldValue(env, key, v).Err? || |FieldValue(env, key, v).value| >= 256
  {
    if key == "hotp_counter" {
      match Counter(env, v)
      case None =>
      case Some(n) =>
        if 0 <= n < Pow256(8) {
          assert |LE(n, 8)| == 8;
        }
    }
  }

  /** A key of the tuple. */
  predicate Keyed(key: string)
  {
    TextKey(key) || SecretKey(key) || key == "hotp_counter"
  }

  /** The keys tuple holds exactly the keys encode knows. */
  lemma KeysKnown(key: string)
    ensures key in Keys <==> Keyed(key)
  {
  }

  /** A counter is written as eight little-endian bytes that read back as
      its value. */
  lemma {:induction false} CounterBytes(env: Env, code: byte, n: nat)
    requires n < Pow256(8)
    ensures Encode(env, "hotp_counter", code, Number(n)) == Ok([code, 8] + LE(n, 8))
    ensures FromLE(Encode(env, "hotp_counter", code, Number(n)).value[2..]) == n
  {
    assert ([code, 8] + LE(n, 8))[2..] == LE(n, 8);
    LERoundTrip(n, 8);
  }

  /** The as-written encoding agrees with the device's record exactly when
      the text is ASCII. */
  lemma {:induction false} EncodeAsWrittenAscii(env: Env, key: string, code: byte, s: string)
    requires TextKey(key) && |Utf8(s)| < 256
    ensures EncodeAsWritten(env, key, code, Text(s)) == Encode(env, key, code, Text(s)) <==> Ascii(s)
  {
    Utf8Length(s);
    var b := Utf8(s);
    if EncodeAsWritten(env, key, code, Text(s)) == Encode(env, key, code, Text(s)) {
      assert ([code, |s|] + b)[1] == ([code, |b|] + b)[1];
    }
  }

  /** A user name "é" (two UTF-8 bytes) is written with length byte 1, and
      the device reads back a one-byte name. */
  lemma EncodeAsWrittenExample(env: Env)
    ensures EncodeAsWritten(env, "user", 3, Text("é")) == Ok([3, 1, 0xC3, 0xA9])
    ensures Db.Items([3, 1, 0xC3, 0xA9]) == [Db.Field(3, [0xC3])]
    ensures Encode(env, "user", 3, Text("é")) == Ok([3, 2, 0xC3, 0xA9])
    ensures Db.Items([3, 2, 0xC3, 0xA9]) == [Db.Field(3, [0xC3, 0xA9])]
  {
    var e := "é";
    assert e[0] as int == 0xE9 && e[1..] == [];
    assert Utf8Char(e[0]) == [0xC3, 0xA9];
    assert Utf8(e) == [0xC3, 0xA9];
    assert TextKey("user") && |e| == 1;
    assert EncodeAsWritten(env, "user", 3, Text(e)) == Ok([3, |e|] + Utf8(e));
    assert Encode(env, "user", 3, Text(e)) == Ok([3, |Utf8(e)|] + Utf8(e));
    assert [3, |e|] + Utf8(e) == [3, 1, 0xC3, 0xA9];
    assert [3, |Utf8(e)|] + Utf8(e) == [3, 2, 0xC3, 0xA9];
    var s: seq<byte> := [3, 1, 0xC3, 0xA9];
    assert s[2..3] == [0xC3] && s[3..] == [0xA9];
    assert Db.TlvItem(s) == Some(Db.Tlv(3, [0xC3], 3));
    assert Db.Items(s[3..]) == [];
    var t: seq<byte> := [3, 2, 0xC3, 0xA9];
    assert t[2..4] == [0xC3, 0xA9] && t[4..] == [];
    assert Db.TlvItem(t) == Some(Db.Tlv(3, [0xC3, 0xA9], 4));
  }

  // ---------------------------------------------------------------------
  // The payload of one record.

  /** The payload from key i on: each key of the tuple the record holds,
      encoded with its code, in tuple order; the first failure stops. The
      script is `how == CharCount`. */
  function PayloadFrom(env: Env, e: Record, i: nat, how: Lengths): (r: Result<seq<byte>, Error>)
    requires i <= |Keys|
    decreases |Keys| - i
  {
    if i == |Keys| then Ok([])
    else
      var rest := PayloadFrom(env, e, i + 1, how);
      if Keys[i] !in e then rest
      else match EncodeWith(how, env, Keys[i], i + 1, e[Keys[i]])
        case Err(x) => Err(x)
        case Ok(b) => if rest.Err? then rest else Ok(b + rest.value)
  }

  function Payload(env: Env, e: Record, how: Lengths): Result<seq<byte>, Error>
  {
    PayloadFrom(env, e, 0, how)
  }

  /** Every text value of the record is ASCII. */
  predicate AsciiRecord(e: Record)
  {
    forall key :: key in e && TextKey(key) && e[key].Text? ==> Ascii(e[key].s)
  }

  /** A record whose texts are all ASCII gets the same payload from the
      script as from the byte-counting encoder. */
  lemma {:induction false} PayloadAscii(env: Env, e: Record, i: nat)
    requires i <= |Keys| && AsciiRecord(e)
    ensures PayloadFrom(env, e, i, CharCount) == PayloadFrom(env, e, i, ByteCount)
    decreases |Keys| - i
  {
    if i < |Keys| {
      PayloadAscii(env, e, i + 1);
      if Keys[i] in e {
        EncodeWithAscii(env, Keys[i], i + 1, e[Keys[i]]);
      }
    }
  }

  /** What the value of each key of the tuple stands for, None where the
      record lacks the key. */
  function Values(env: Env, e: Record): (vs: seq<Option<Result<seq<byte>, Error>>>)
    ensures |vs| == |Keys|
    ensures forall k :: 0 <= k < |Keys| ==> (vs[k].Some? <==> Keys[k] in e)
  {
    seq(|Keys|, k requires 0 <= k < |Keys| =>
      if Keys[k] in e then Some(FieldValue(env, Keys[k], e[Keys[k]])) else None)
  }

  /** The fields from key i on, or the first key whose value fails. */
  function FieldsFrom(vs: seq<Option<Result<seq<byte>, Error>>>, i: nat): (r: Result<seq<Db.Field>, Error>)
    requires i <= |vs| == |Keys|
    decreases |vs| - i
  {
    if i == |vs| then Ok([])
    else
      var rest := FieldsFrom(vs, i + 1);
      match vs[i]
      case None => rest
      case Some(Err(x)) => Err(x)
      case Some(Ok(b)) =>
        if |b| >= 256 then Err(TooLong(Keys[i]))
        else if rest.Err? then rest
        else Ok([Db.Field(i + 1, b)] + rest.value)
  }

  /** The fields a record stands for on the device. */
  function Fields(env: Env, e: Record): Result<seq<Db.Field>, Error>
  {
    FieldsFrom(Values(env, e), 0)
  }

  /** The fields can be written: no ft_end, values the length byte holds,
      codes of the keys from i on. */
  lemma {:induction false} FieldsWritable(vs: seq<Option<Result<seq<byte>, Error>>>, i: nat)
    requires i <= |vs| == |Keys| && FieldsFrom(vs, i).Ok?
    ensures Db.Writable(FieldsFrom(vs, i).value)
    ensures forall a :: 0 <= a < |FieldsFrom(vs, i).value| ==> i < FieldsFrom(vs, i).value[a].ftype <= |Keys|
    decreases |vs| - i
  {
    if i < |vs| {
      FieldsWritable(vs, i + 1);
      var fs := FieldsFrom(vs, i).value;
      if vs[i].Some? {
        assert fs == [fs[0]] + FieldsFrom(vs, i + 1).value;
      }
    }
  }

  /** The fields come in increasing code order, each for a key that has a
      value. */
  lemma {:induction false} FieldsShape(vs: seq<Option<Result<seq<byte>, Error>>>, i: nat)
    requires i <= |vs| == |Keys| && FieldsFrom(vs, i).Ok?
    ensures var fs := FieldsFrom(vs, i).value;
      (forall a, b :: 0 <= a < b < |fs| ==> fs[a].ftype < fs[b].ftype) &&
      (forall a :: 0 <= a < |fs| ==> 0 < fs[a].ftype <= |Keys| && vs[fs[a].ftype - 1].Some?)
    decreases |vs| - i
  {
    if i < |vs| {
      FieldsShape(vs, i + 1);
      FieldsWritable(vs, i + 1);
      var fs := FieldsFrom(vs, i).value;
      var rest := FieldsFrom(vs, i + 1).value;
      if vs[i].Some? {
        assert fs == [fs[0]] + rest;
      }
    }
  }

  /** Every key from i on that has a value has its field. */
  lemma {:induction false} FieldsCover(vs: seq<Option<Result<seq<byte>, Error>>>, i: nat)
    requires i <= |vs| == |Keys| && FieldsFrom(vs, i).Ok?
    ensures var fs := FieldsFrom(vs, i).value;
      forall k :: i <= k < |vs| && vs[k].Some? ==> exists a :: 0 <= a < |fs| && fs[a].ftype == k + 1
    decreases |vs| - i
  {
    if i < |vs| {
      FieldsCover(vs, i + 1);
      var fs := FieldsFrom(vs, i).value;
      var rest := FieldsFrom(vs, i + 1).value;
      forall k | i <= k < |vs| && vs[k].Some?
        ensures exists a :: 0 <= a < |fs| && fs[a].ftype == k + 1
      {
        if vs[i].None? {
          assert fs == rest;
        } else if k == i {
          assert fs[0].ftype == k + 1;
        } else {
          var a :| 0 <= a < |rest| && rest[a].ftype == k + 1;
          assert fs[a + 1] == rest[a];
        }
      }
    }
  }

  /** The corrected payload, with byte-counted lengths, is the device's
      serialisation of the record's fields, and fails with the same error. */
  lemma {:induction false} PayloadFields(env: Env, e: Record, i: nat)
    requires i <= |Keys|
    ensures var fs := FieldsFrom(Values(env, e), i);
      (PayloadFrom(env, e, i, ByteCount).Ok? <==> fs.Ok?) &&
      (fs.Ok? ==> PayloadFrom(env, e, i, ByteCount).value == Db.Serialize(fs.value)) &&
      (fs.Err? ==> PayloadFrom(env, e, i, ByteCount).error == fs.error)
    decreases |Keys| - i
  {
    if i < |Keys| {
      PayloadFields(env, e, i + 1);
      if Keys[i] in e {
        EncodeField(env, Keys[i], i + 1, e[Keys[i]]);
        var fs := FieldsFrom(Values(env, e), i);
        if fs.Ok? {
          assert fs.value[1..] == FieldsFrom(Values(env, e), i + 1).value;
        }
      }
    }
  }

  /** The device reads the corrected payload, followed by the zero padding,
      back as the record's fields, sorted by type. */
  lemma {:induction false} PayloadReadBack(env: Env, e: Record, pad: nat)
    requires Payload(env, e, ByteCount).Ok?
    ensures Fields(env, e).Ok?
    ensures Db.Items(Payload(env, e, ByteCount).value + Zeros(pad)) == Fields(env, e).value
    ensures Db.Sorted(Fields(env, e).value)
  {
    var vs := Values(env, e);
    PayloadFields(env, e, 0);
    var fs := Fields(env, e).value;
    FieldsWritable(vs, 0);
    FieldsShape(vs, 0);
    Db.ItemsSerialize(fs, Zeros(pad));
    Db.ItemsZeros(pad);
  }

  /** The record's fields are one for each key of the tuple the record
      holds, and nothing else. */
  lemma {:induction false} FieldsKeys(env: Env, e: Record)
    requires Fields(env, e).Ok?
    ensures var fs := Fields(env, e).value;
      (forall a :: 0 <= a < |fs| ==> 0 < fs[a].ftype <= |Keys| && Keys[fs[a].ftype - 1] in e) &&
      (forall k :: 0 <= k < |Keys| && Keys[k] in e ==> exists a :: 0 <= a < |fs| && fs[a].ftype == k + 1)
  {
    var vs := Values(env, e);
    FieldsShape(vs, 0);
    FieldsCover(vs, 0);
  }

  // ---------------------------------------------------------------------
  // Blocks and the image.

  /** The block of one record: the nonce, zero pad, the header (content
      type 4, reserved 0, sequence number 0), the payload, zeros up to the
      payload size, and the stand-in hash. Python repeats a byte string a
      negative number of times as the empty string, so a longer payload
      gets no padding. */
  function Block(nonce: seq<byte>, payload: seq<byte>): (r: seq<byte>)
  {
    var pad := if |payload| <= PayloadSize then PayloadSize - |payload| else 0;
    nonce + Zeros(NoncePad) + [4, 0, 0, 0] + payload + Zeros(pad) + Repeat(0x55, HashSize + HashPad)
  }

  /** Where the payload starts in a block. */
  const PayloadAt: nat := NonceSize + NoncePad + 4

  /** A payload that fits gives a block of exactly BlockSize bytes with each
      part at its place; a longer one gives a longer block. */
  lemma {:induction false} BlockLayout(nonce: seq<byte>, payload: seq<byte>)
    requires |nonce| == NonceSize
    ensures var b := Block(nonce, payload);
      (|payload| <= PayloadSize ==> |b| == BlockSize) &&
      (|payload| > PayloadSize ==> |b| == |payload| + BlockSize - PayloadSize > BlockSize) &&
      b[..NonceSize] == nonce &&
      b[NonceSize..NonceSize + NoncePad] == Zeros(NoncePad) &&
      b[NonceSize + NoncePad..PayloadAt] == [4, 0, 0, 0] &&
      b[PayloadAt..PayloadAt + |payload|] == payload &&
      (|payload| <= PayloadSize ==>
        b[PayloadAt + |payload|..PayloadAt + PayloadSize] == Zeros(PayloadSize - |payload|) &&
        b[PayloadAt + PayloadSize..] == Repeat(0x55, HashSize + HashPad))
  {
  }

  /** The script's output: the bytes written, and the error that stopped it,
      if one did. */
  datatype Output = Output(bytes: seq<byte>, failed: Option<Error>)

  /** What encoding each record's payload gave. */
  function Payloads(env: Env, db: seq<Record>, how: Lengths): (ps: seq<Result<seq<byte>, Error>>)
    ensures |ps| == |db|
  {
    seq(|db|, k requires 0 <= k < |db| => Payload(env, db[k], how))
  }

  /** The blocks from record i on, given the records' payloads; nonces[i]
      is what os.urandom gave for record i. A failing record stops the
      script, after the blocks before it were written. */
  function BlocksFrom(ps: seq<Result<seq<byte>, Error>>, nonces: seq<seq<byte>>, i: nat): (r: Output)
    requires i <= |ps| == |nonces|
    decreases |ps| - i
  {
    if i == |ps| then Output([], None)
    else match ps[i]
      case Err(x) => Output([], Some(x))
      case Ok(p) =>
        var rest := BlocksFrom(ps, nonces, i + 1);
        Output(Block(nonces[i], p) + rest.bytes, rest.failed)
  }

  /** The filler after the blocks: 0xFF for the blocks left unused. */
  function Filler(records: nat): (r: seq<byte>)
  {
    Repeat(0xFF, if records <= StorageBlocks then (StorageBlocks - records) * BlockSize else 0)
  }

  /** The blocks, then the filler, unless a record failed. */
  function ImageOf(ps: seq<Result<seq<byte>, Error>>, nonces: seq<seq<byte>>): (r: Output)
    requires |ps| == |nonces|
  {
    var blocks := BlocksFrom(ps, nonces, 0);
    if blocks.failed.Some? then blocks else Output(blocks.bytes + Filler(|ps|), None)
  }

  /** The whole script: every record's block, then the filler; nothing
      checks that a payload fits its block or that the records fit the
      storage. As written, the payloads count text lengths in characters
      (`how == CharCount`). */
  function Image(env: Env, db: seq<Record>, nonces: seq<seq<byte>>, how: Lengths): (r: Output)
    requires |db| == |nonces|
  {
    ImageOf(Payloads(env, db, how), nonces)
  }

  /** A database whose texts are all ASCII gets the same image from the
      script as from the byte-counting encoder. */
  lemma {:induction false} ImageAscii(env: Env, db: seq<Record>, nonces: seq<seq<byte>>)
    requires |db| == |nonces|
    requires forall k :: 0 <= k < |db| ==> AsciiRecord(db[k])
    ensures Image(env, db, nonces, CharCount) == Image(env, db, nonces, ByteCount)
  {
    forall k | 0 <= k < |db|
      ensures Payload(env, db[k], CharCount) == Payload(env, db[k], ByteCount)
    {
      PayloadAscii(env, db[k], 0);
    }
    assert Payloads(env, db, CharCount) == Payloads(env, db, ByteCount);
  }

  /** A payload that was encoded and fits its block. */
  predicate Fits(p: Result<seq<byte>, Error>)
  {
    p.Ok? && |p.value| <= PayloadSize
  }

  /** Payloads that all fit their blocks. */
  predicate Fit(ps: seq<Result<seq<byte>, Error>>)
  {
    forall i :: 0 <= i < |ps| ==> Fits(ps[i])
  }

  predicate Nonces(nonces: seq<seq<byte>>)
  {
    forall i :: 0 <= i < |nonces| ==> |nonces[i]| == NonceSize
  }

  /** Blocks of payloads that fit: one BlockSize block per record, each the
      frame of that record's payload. */
  lemma {:induction false} BlocksFromFit(ps: seq<Result<seq<byte>, Error>>, nonces: seq<seq<byte>>, i: nat)
    requires i <= |ps| == |nonces| && Fit(ps) && Nonces(nonces)
    ensures BlocksFrom(ps, nonces, i).failed == None
    ensures |BlocksFrom(ps, nonces, i).bytes| == (|ps| - i) * BlockSize
    ensures forall k :: i <= k < |ps| ==>
      BlocksFrom(ps, nonces, i).bytes[(k - i) * BlockSize..(k - i + 1) * BlockSize] == Block(nonces[k], ps[k].value)
    decreases |ps| - i
  {
    if i < |ps| {
      BlocksFromFit(ps, nonces, i + 1);
      var head := Block(nonces[i], ps[i].value);
      var rest := BlocksFrom(ps, nonces, i + 1).bytes;
      BlockLayout(nonces[i], ps[i].value);
      forall k | i <= k < |ps|
        ensures (head + rest)[(k - i) * BlockSize..(k - i + 1) * BlockSize] == Block(nonces[k], ps[k].value)
      {
        if k == i {
          assert (head + rest)[..BlockSize] == head;
        } else {
          assert (k - i) * BlockSize == BlockSize + (k - i - 1) * BlockSize;
          assert (k - i + 1) * BlockSize == BlockSize + (k - i) * BlockSize;
          assert (head + rest)[(k - i) * BlockSize..(k - i + 1) * BlockSize]
              == rest[(k - i - 1) * BlockSize..(k - i) * BlockSize];
        }
      }
    }
  }

  /** With at most StorageBlocks records that all fit, the image is exactly
      StorageBlocks blocks: the records' blocks in order, then filler. */
  lemma {:induction false} ImageSize(ps: seq<Result<seq<byte>, Error>>, nonces: seq<seq<byte>>)
    requires |ps| == |nonces| <= StorageBlocks && Fit(ps) && Nonces(nonces)
    ensures ImageOf(ps, nonces).failed == None
    ensures |ImageOf(ps, nonces).bytes| == StorageBlocks * BlockSize
    ensures forall k :: 0 <= k < |ps| ==>
      ImageOf(ps, nonces).bytes[k * BlockSize..(k + 1) * BlockSize] == Block(nonces[k], ps[k].value)
    ensures ImageOf(ps, nonces).bytes[|ps| * BlockSize..] == Repeat(0xFF, (StorageBlocks - |ps|) * BlockSize)
  {
    BlocksFromFit(ps, nonces, 0);
    var blocks := BlocksFrom(ps, nonces, 0).bytes;
    assert (StorageBlocks - |ps|) * BlockSize + |ps| * BlockSize == StorageBlocks * BlockSize;
    forall k | 0 <= k < |ps|
      ensures (blocks + Filler(|ps|))[k * BlockSize..(k + 1) * BlockSize] == blocks[k * BlockSize..(k + 1) * BlockSize]
    {
      assert (k + 1) * BlockSize <= |ps| * BlockSize;
    }
  }

  /** A payload over the payload size makes a block longer than BlockSize,
      so every later block of the image starts at the wrong offset. */
  lemma {:induction false} ImageOversized(ps: seq<Result<seq<byte>, Error>>, nonces: seq<seq<byte>>, k: nat)
    requires |ps| == |nonces| && Nonces(nonces) && k < |ps|
    requires ps[k].Ok? && |ps[k].value| > PayloadSize
    ensures |BlocksFrom(ps, nonces, k).bytes| > BlockSize
  {
    BlockLayout(nonces[k], ps[k].value);
  }

  /** With more records than the storage holds, no filler is written and
      the image is longer than the storage. */
  lemma {:induction false} ImageTooMany(ps: seq<Result<seq<byte>, Error>>, nonces: seq<seq<byte>>)
    requires |ps| == |nonces| > StorageBlocks && Fit(ps) && Nonces(nonces)
    ensures ImageOf(ps, nonces).failed == None
    ensures |ImageOf(ps, nonces).bytes| == |ps| * BlockSize > StorageBlocks * BlockSize
  {
    BlocksFromFit(ps, nonces, 0);
  }

  // ---------------------------------------------------------------------
  // The image with its capacity checked.

  /** Why the checked image is refused: a record fails, a payload does not
      fit its block, or there are more records than blocks. */
  datatype ImageError = Failed(index: nat, error: Error) | Overflow(index: nat) | TooMany

  /** The first record from i on that fails or does not fit. */
  function FirstBad(ps: seq<Result<seq<byte>, Error>>, i: nat): (r: Option<ImageError>)
    requires i <= |ps|
    decreases |ps| - i
  {
    if i == |ps| then None
    else match ps[i]
      case Err(x) => Some(Failed(i, x))
      case Ok(p) => if |p| > PayloadSize then Some(Overflow(i)) else FirstBad(ps, i + 1)
  }

  /** FirstBad finds nothing exactly when every payload from i on fits. */
  lemma {:induction false} FirstBadNone(ps: seq<Result<seq<byte>, Error>>, i: nat)
    requires i <= |ps|
    ensures FirstBad(ps, i).None? <==> forall k :: i <= k < |ps| ==> Fits(ps[k])
    decreases |ps| - i
  {
    if i < |ps| {
      FirstBadNone(ps, i + 1);
    }
  }

  /** The image with both capacities checked before anything is written. */
  function CheckedImageOf(ps: seq<Result<seq<byte>, Error>>, nonces: seq<seq<byte>>): (r: Result<seq<byte>, ImageError>)
    requires |ps| == |nonces|
  {
    if |ps| > StorageBlocks then Err(TooMany)
    else match FirstBad(ps, 0)
      case Some(x) => Err(x)
      case None => Ok(ImageOf(ps, nonces).bytes)
  }

  function CheckedImage(env: Env, db: seq<Record>, nonces: seq<seq<byte>>, how: Lengths): (r: Result<seq<byte>, ImageError>)
    requires |db| == |nonces|
  {
    CheckedImageOf(Payloads(env, db, how), nonces)
  }

  /** The checked image is refused exactly when the records do not fit,
      and otherwise is StorageBlocks blocks holding the records' blocks in
      order, then filler. */
  lemma {:induction false} CheckedImageSize(ps: seq<Result<seq<byte>, Error>>, nonces: seq<seq<byte>>)
    requires |ps| == |nonces| && Nonces(nonces)
    ensures CheckedImageOf(ps, nonces).Ok? <==> |ps| <= StorageBlocks && Fit(ps)
    ensures CheckedImageOf(ps, nonces).Ok? ==>
      |CheckedImageOf(ps, nonces).value| == StorageBlocks * BlockSize &&
      forall k :: 0 <= k < |ps| ==>
        CheckedImageOf(ps, nonces).value[k * BlockSize..(k + 1) * BlockSize] == Block(nonces[k], ps[k].value)
  {
    FirstBadNone(ps, 0);
    if |ps| <= StorageBlocks && Fit(ps) {
      ImageSize(ps, nonces);
    }
  }
}
