/** The account database's record format (db/db.c): the fields of an entry
    kept in type order, the type/length/value payload they are written as
    and read back from, the entry name and directory path carried by the
    ID field, the 16-bit sequence rule that decides which stored copy of a
    record is current, and the directory/account classification. */
module Db {
  import opened Bytes
  import opened Results

  /** enum field_type (db/db.h). */
  const FtEnd: byte := 0
  const FtId: byte := 1
  const FtPrev: byte := 2
  const FtUser: byte := 3
  const FtEmail: byte := 4
  const FtPw: byte := 5
  const FtHotpSecret: byte := 6
  const FtHotpCounter: byte := 7
  const FtTotpSecret: byte := 8
  const FtComment: byte := 9
  const FtPw2: byte := 10
  /** ft_dir is used by db/db.c but missing from the enumeration in
      db/db.h; its value is a choice of this model. */
  const FtDir: byte := 11

  /** payload_buf: one storage block (STORAGE_BLOCK_SIZE). */
  const PayloadSize: nat := 1024

  /** struct db_field: a type and its value. */
  datatype Field = Field(ftype: byte, data: seq<byte>)

  /** db_field.len is a uint8_t, so a field keeps the first len mod 256
      bytes of the value it is given. */
  function Stored(data: seq<byte>): (r: seq<byte>)
    ensures |r| < 256 && r <= data
    ensures |data| < 256 ==> r == data
  {
    data[..|data| % 256]
  }

  /** Fields in non-decreasing type order. */
  predicate Sorted(fields: seq<Field>)
  {
    forall i, j :: 0 <= i < j < |fields| ==> fields[i].ftype <= fields[j].ftype
  }

  /** The fields of type u, in list order. */
  function Of(fields: seq<Field>, u: byte): (r: seq<Field>)
    ensures forall i :: 0 <= i < |r| ==> r[i].ftype == u
  {
    if |fields| == 0 then []
    else (if fields[0].ftype == u then [fields[0]] else []) + Of(fields[1..], u)
  }

  lemma {:induction false} OfAppend(a: seq<Field>, b: seq<Field>, u: byte)
    ensures Of(a + b, u) == Of(a, u) + Of(b, u)
  {
    if |a| > 0 {
      assert (a + b)[1..] == a[1..] + b;
      OfAppend(a[1..], b, u);
    } else {
      assert a + b == b;
    }
  }

  /** A list with no field of type u above position k. */
  lemma {:induction false} OfNone(fields: seq<Field>, u: byte)
    requires forall i :: 0 <= i < |fields| ==> fields[i].ftype != u
    ensures Of(fields, u) == []
  {
    if |fields| > 0 {
      OfNone(fields[1..], u);
    }
  }

  /** fields with the drop fields at k replaced by f. */
  function Splice(fields: seq<Field>, k: nat, drop: nat, f: Field): (r: seq<Field>)
    requires k + drop <= |fields|
  {
    fields[..k] + [f] + fields[k + drop..]
  }

  /** A field put between lower and higher types keeps a list sorted. */
  lemma {:induction false} SpliceSorted(fields: seq<Field>, k: nat, drop: nat, f: Field)
    requires k + drop <= |fields| && drop <= 1 && Sorted(fields)
    requires forall j :: 0 <= j < k ==> fields[j].ftype <= f.ftype
    requires forall j :: k + drop <= j < |fields| ==> fields[j].ftype >= f.ftype
    ensures Sorted(Splice(fields, k, drop, f))
  {
    var r := Splice(fields, k, drop, f);
    forall i, j | 0 <= i < j < |r|
      ensures r[i].ftype <= r[j].ftype
    {
      var d := 1 - drop;
      if j < k {
        assert r[i] == fields[i] && r[j] == fields[j];
      } else if i > k {
        assert r[i] == fields[i - d] && r[j] == fields[j - d];
      } else if i == k {
        assert r[j] == fields[j - d];
      } else if j == k {
        assert r[i] == fields[i];
      } else {
        assert r[i] == fields[i] && r[j] == fields[j - d];
      }
    }
  }

  /** The fields of each type after a splice. */
  lemma {:induction false} SpliceOf(fields: seq<Field>, k: nat, drop: nat, f: Field, u: byte)
    requires k + drop <= |fields|
    ensures Of(Splice(fields, k, drop, f), u) == Of(fields[..k], u) + Of([f], u) + Of(fields[k + drop..], u)
    ensures Of(fields, u) == Of(fields[..k], u) + Of(fields[k..k + drop], u) + Of(fields[k + drop..], u)
  {
    OfAppend(fields[..k] + [f], fields[k + drop..], u);
    OfAppend(fields[..k], [f], u);
    assert fields == fields[..k] + fields[k..k + drop] + fields[k + drop..];
    OfAppend(fields[..k] + fields[k..k + drop], fields[k + drop..], u);
    OfAppend(fields[..k], fields[k..k + drop], u);
  }

  lemma {:induction false} OfOne(f: Field, u: byte)
    ensures Of([f], u) == if f.ftype == u then [f] else []
  {
    assert [f][1..] == [];
  }

  // ---------------------------------------------------------------------
  // add_field and db_change_field.

  /** add_field's anchor: the first field from i on whose type is greater
      than t. */
  function Above(fields: seq<Field>, t: byte, i: nat): (k: nat)
    requires i <= |fields|
    ensures i <= k <= |fields|
    ensures forall j :: i <= j < k ==> fields[j].ftype <= t
    ensures k < |fields| ==> fields[k].ftype > t
    decreases |fields| - i
  {
    if i == |fields| || fields[i].ftype > t then i else Above(fields, t, i + 1)
  }

  /** add_field: a new field goes in front of the first field of a greater
      type. */
  function AddField(fields: seq<Field>, t: byte, data: seq<byte>): (r: seq<Field>)
  {
    var k := Above(fields, t, 0);
    fields[..k] + [Field(t, Stored(data))] + fields[k..]
  }

  /** add_field's edit as a splice at the anchor. */
  lemma {:induction false} AddFieldSplice(fields: seq<Field>, t: byte, data: seq<byte>)
    ensures AddField(fields, t, data) == Splice(fields, Above(fields, t, 0), 0, Field(t, Stored(data)))
  {
  }

  /** A sorted list stays sorted: a field's type decides its place. */
  lemma {:induction false} AddFieldSorted(fields: seq<Field>, t: byte, data: seq<byte>)
    requires Sorted(fields)
    ensures Sorted(AddField(fields, t, data))
  {
    AddFieldSplice(fields, t, data);
    SpliceSorted(fields, Above(fields, t, 0), 0, Field(t, Stored(data)));
  }

  /** The new field follows every field of its own type: the fields of
      each type are those before, with the new one last among its type. */
  lemma {:induction false} AddFieldOf(fields: seq<Field>, t: byte, data: seq<byte>, u: byte)
    requires Sorted(fields)
    ensures Of(AddField(fields, t, data), u) == Of(fields, u) + (if u == t then [Field(t, Stored(data))] else [])
  {
    var k := Above(fields, t, 0);
    var f := Field(t, Stored(data));
    AddFieldSplice(fields, t, data);
    SpliceOf(fields, k, 0, f, u);
    OfOne(f, u);
    assert Of(fields[k..k], u) == [];
    if u == t {
      OfNone(fields[k..], u);
    }
  }

  /** db_change_field's anchor: the first field from i on whose type is at
      least t. */
  function AtLeast(fields: seq<Field>, t: byte, i: nat): (k: nat)
    requires i <= |fields|
    ensures i <= k <= |fields|
    ensures forall j :: i <= j < k ==> fields[j].ftype < t
    ensures k < |fields| ==> fields[k].ftype >= t
    decreases |fields| - i
  {
    if i == |fields| || fields[i].ftype >= t then i else AtLeast(fields, t, i + 1)
  }

  /** db_change_field, the field-list part: the value of the first field of
      type t is replaced, or else a field is inserted in type order. */
  function ChangeField(fields: seq<Field>, t: byte, data: seq<byte>): (r: seq<Field>)
  {
    var k := AtLeast(fields, t, 0);
    var f := Field(t, Stored(data));
    if k < |fields| && fields[k].ftype == t then fields[k := f]
    else fields[..k] + [f] + fields[k..]
  }

  /** db_field_find: the value of the first field of type t. */
  function Find(fields: seq<Field>, t: byte): (r: Option<seq<byte>>)
  {
    if |fields| == 0 then None
    else if fields[0].ftype == t then Some(fields[0].data)
    else Find(fields[1..], t)
  }

  /** Find sees the first field of the type. */
  lemma {:induction false} FindOf(fields: seq<Field>, t: byte)
    ensures Find(fields, t) == if |Of(fields, t)| == 0 then None else Some(Of(fields, t)[0].data)
  {
    if |fields| > 0 && fields[0].ftype != t {
      FindOf(fields[1..], t);
    }
  }

  /** db_change_field's edit as a splice at the anchor. */
  lemma {:induction false} ChangeFieldSplice(fields: seq<Field>, t: byte, data: seq<byte>)
    ensures var k := AtLeast(fields, t, 0);
      var drop := if k < |fields| && fields[k].ftype == t then 1 else 0;
      k + drop <= |fields| && ChangeField(fields, t, data) == Splice(fields, k, drop, Field(t, Stored(data)))
  {
    var k := AtLeast(fields, t, 0);
    if k < |fields| && fields[k].ftype == t {
      assert fields[k := Field(t, Stored(data))] == fields[..k] + [Field(t, Stored(data))] + fields[k + 1..];
    }
  }

  /** Changing a field of a sorted list keeps it sorted. */
  lemma {:induction false} ChangeFieldSorted(fields: seq<Field>, t: byte, data: seq<byte>)
    requires Sorted(fields)
    ensures Sorted(ChangeField(fields, t, data))
  {
    var k := AtLeast(fields, t, 0);
    var drop := if k < |fields| && fields[k].ftype == t then 1 else 0;
    ChangeFieldSplice(fields, t, data);
    SpliceSorted(fields, k, drop, Field(t, Stored(data)));
  }

  /** Changing a field leaves the fields of every other type as they
      were. */
  lemma {:induction false} ChangeFieldOther(fields: seq<Field>, t: byte, data: seq<byte>, u: byte)
    requires u != t
    ensures Of(ChangeField(fields, t, data), u) == Of(fields, u)
  {
    var k := AtLeast(fields, t, 0);
    var drop := if k < |fields| && fields[k].ftype == t then 1 else 0;
    var f := Field(t, Stored(data));
    ChangeFieldSplice(fields, t, data);
    SpliceOf(fields, k, drop, f, u);
    OfOne(f, u);
    if drop == 1 {
      assert fields[k..k + 1] == [fields[k]];
      OfOne(fields[k], u);
    } else {
      assert Of(fields[k..k], u) == [];
    }
  }

  /** Changing a field of a sorted list: the first field of type t now
      holds the new value and any later ones are kept. */
  lemma {:induction false} ChangeFieldSame(fields: seq<Field>, t: byte, data: seq<byte>)
    requires Sorted(fields)
    ensures Of(ChangeField(fields, t, data), t) ==
      [Field(t, Stored(data))] + (if |Of(fields, t)| == 0 then [] else Of(fields, t)[1..])
  {
    var k := AtLeast(fields, t, 0);
    var drop := if k < |fields| && fields[k].ftype == t then 1 else 0;
    var f := Field(t, Stored(data));
    ChangeFieldSplice(fields, t, data);
    SpliceOf(fields, k, drop, f, t);
    OfOne(f, t);
    OfNone(fields[..k], t);
    if drop == 1 {
      assert fields[k..k + 1] == [fields[k]];
      OfOne(fields[k], t);
    } else {
      assert Of(fields[k..k], t) == [];
      TailAbove(fields, k, t);
    }
  }

  /** In a sorted list, nothing from a field of greater type on has type t. */
  lemma {:induction false} TailAbove(fields: seq<Field>, k: nat, t: byte)
    requires Sorted(fields) && k <= |fields| && (k < |fields| ==> fields[k].ftype > t)
    ensures Of(fields[k..], t) == []
  {
    OfNone(fields[k..], t);
  }

  /** After db_change_field, db_field_find gives the new value. */
  lemma {:induction false} ChangeFieldFind(fields: seq<Field>, t: byte, data: seq<byte>)
    requires Sorted(fields)
    ensures Find(ChangeField(fields, t, data), t) == Some(Stored(data))
  {
    ChangeFieldSame(fields, t, data);
    FindOf(ChangeField(fields, t, data), t);
  }

  // ---------------------------------------------------------------------
  // The ID field: directory path and entry name.

  predicate NoNul(s: seq<byte>)
  {
    forall i :: 0 <= i < |s| ==> s[i] != 0
  }

  /** memrchr(data, 0, size): the last NUL. */
  function LastNul(data: seq<byte>): (r: Option<nat>)
    ensures r.None? <==> NoNul(data)
    ensures r.Some? ==> r.value < |data| && data[r.value] == 0 && NoNul(data[r.value + 1..])
  {
    if |data| == 0 then None
    else if data[|data| - 1] == 0 then Some(|data| - 1)
    else
      var r := LastNul(data[..|data| - 1]);
      if r.Some? then
        assert data[r.value + 1..] == data[..|data| - 1][r.value + 1..] + [data[|data| - 1]];
        r
      else r
  }

  /** The name db_change_field gives an entry from its ID value: the text
      after the last NUL, or the whole value. */
  function IdName(data: seq<byte>): (r: seq<byte>)
  {
    match LastNul(data)
    case None => data
    case Some(i) => data[i + 1..]
  }

  /** memchr(q, 0, len): the first NUL. */
  function FirstNul(data: seq<byte>): (r: Option<nat>)
    ensures r.None? <==> NoNul(data)
    ensures r.Some? ==> r.value < |data| && data[r.value] == 0 && NoNul(data[..r.value])
  {
    if |data| == 0 then None
    else if data[0] == 0 then Some(0)
    else
      var r := FirstNul(data[1..]);
      if r.Some? then
        assert data[..r.value + 1] == [data[0]] + data[1..][..r.value];
        Some(r.value + 1)
      else r
  }

  lemma {:induction false} FirstNulAt(data: seq<byte>, k: nat)
    requires k < |data| && data[k] == 0 && NoNul(data[..k])
    ensures FirstNul(data) == Some(k)
  {
  }

  /** process_payload's walk over the ID value: the directories, one per
      NUL-terminated component, then the entry name. */
  function SplitPath(data: seq<byte>): (r: (seq<seq<byte>>, seq<byte>))
    decreases |data|
  {
    match FirstNul(data)
    case None => ([], data)
    case Some(i) =>
      var rest := SplitPath(data[i + 1..]);
      ([data[..i]] + rest.0, rest.1)
  }

  /** An ID value built from a path. */
  function JoinPath(dirs: seq<seq<byte>>, name: seq<byte>): seq<byte>
  {
    if |dirs| == 0 then name else dirs[0] + [0] + JoinPath(dirs[1..], name)
  }

  /** Splitting undoes joining when no component holds a NUL. */
  lemma {:induction false} SplitJoin(dirs: seq<seq<byte>>, name: seq<byte>)
    requires forall i :: 0 <= i < |dirs| ==> NoNul(dirs[i])
    requires NoNul(name)
    ensures SplitPath(JoinPath(dirs, name)) == (dirs, name)
  {
    if |dirs| > 0 {
      var d := dirs[0];
      var data := JoinPath(dirs, name);
      var rest := JoinPath(dirs[1..], name);
      assert data == d + [0] + rest;
      assert data[..|d|] == d && data[|d|] == 0;
      FirstNulAt(data, |d|);
      assert data[|d| + 1..] == rest;
      SplitJoin(dirs[1..], name);
      assert dirs == [d] + dirs[1..];
    }
  }

  lemma {:induction false} LastNulAt(data: seq<byte>, k: nat)
    requires k < |data| && data[k] == 0 && NoNul(data[k + 1..])
    ensures LastNul(data) == Some(k)
  {
  }

  /** Both walks agree: the name after the path is the text after the last
      NUL, and it holds no NUL. */
  lemma {:induction false} SplitName(data: seq<byte>)
    ensures SplitPath(data).1 == IdName(data) && NoNul(IdName(data))
    decreases |data|
  {
    var first := FirstNul(data);
    if first.Some? {
      var i := first.value;
      var rest := data[i + 1..];
      SplitName(rest);
      var last := LastNul(rest);
      if last.None? {
        LastNulAt(data, i);
      } else {
        var j := last.value;
        assert data[i + 1 + j] == rest[j];
        assert data[i + 1 + j + 1..] == rest[j + 1..];
        LastNulAt(data, i + 1 + j);
      }
    }
  }

  // ---------------------------------------------------------------------
  // The type/length/value payload.

  /** One item: its type, its value, and where the next item starts. */
  datatype Tlv = Tlv(ftype: byte, value: seq<byte>, next: nat)

  /** tlv_item: no item with fewer than two bytes left, at type ft_end, or
      when the value runs past the end. */
  function TlvItem(s: seq<byte>): (r: Option<Tlv>)
    ensures r.Some? ==> 2 <= r.value.next <= |s| && r.value.ftype != FtEnd
  {
    if |s| < 2 then None
    else if s[0] == FtEnd then None
    else
      var len: nat := s[1];
      if 2 + len > |s| then None
      else Some(Tlv(s[0], s[2..2 + len], 2 + len))
  }

  /** process_payload's field loop: items until the end or the first that
      tlv_item refuses. */
  function Items(s: seq<byte>): (r: seq<Field>)
    decreases |s|
  {
    if |s| == 0 then []
    else match TlvItem(s)
      case None => []
      case Some(t) => [Field(t.ftype, t.value)] + Items(s[t.next..])
  }

  /** write_entry's bytes for one field: type, length, value. */
  function Record(f: Field): (r: seq<byte>)
  {
    [f.ftype, |Stored(f.data)|] + Stored(f.data)
  }

  function Serialize(fields: seq<Field>): (r: seq<byte>)
  {
    if |fields| == 0 then [] else Record(fields[0]) + Serialize(fields[1..])
  }

  lemma {:induction false} SerializeAppend(a: seq<Field>, b: seq<Field>)
    ensures Serialize(a + b) == Serialize(a) + Serialize(b)
  {
    if |a| > 0 {
      assert (a + b)[1..] == a[1..] + b;
      SerializeAppend(a[1..], b);
    } else {
      assert a + b == b;
    }
  }

  /** Fields a payload can carry: a type other than ft_end and a value
      whose length the length byte holds. */
  predicate Writable(fields: seq<Field>)
  {
    forall i :: 0 <= i < |fields| ==> fields[i].ftype != FtEnd && |fields[i].data| < 256
  }

  /** One record read back. */
  lemma {:induction false} ItemsRecord(f: Field, rest: seq<byte>)
    requires f.ftype != FtEnd && |f.data| < 256
    ensures Items(Record(f) + rest) == [f] + Items(rest)
  {
    var s := Record(f) + rest;
    assert s == [f.ftype, |f.data|] + f.data + rest;
    assert s[2..2 + |f.data|] == f.data;
    assert TlvItem(s) == Some(Tlv(f.ftype, f.data, 2 + |f.data|));
    assert s[2 + |f.data|..] == rest;
  }

  /** Reading back what was written gives the fields, then whatever the
      rest of the payload holds. */
  lemma {:induction false} ItemsSerialize(fields: seq<Field>, tail: seq<byte>)
    requires Writable(fields)
    ensures Items(Serialize(fields) + tail) == fields + Items(tail)
  {
    if |fields| == 0 {
      assert Serialize(fields) + tail == tail;
    } else {
      var f, r := fields[0], fields[1..];
      Assoc(Record(f), Serialize(r), tail);
      ItemsRecord(f, Serialize(r) + tail);
      ItemsSerialize(r, tail);
      Cons(fields);
      Assoc([f], r, Items(tail));
    }
  }

  lemma {:induction false} Assoc<T>(a: seq<T>, b: seq<T>, c: seq<T>)
    ensures (a + b) + c == a + (b + c)
  {
  }

  lemma {:induction false} Cons<T>(s: seq<T>)
    requires |s| > 0
    ensures s == [s[0]] + s[1..]
  {
  }

  /** The zero bytes after the fields end the loop. */
  lemma {:induction false} ItemsZeros(n: nat)
    ensures Items(Zeros(n)) == []
  {
  }

  /** write_entry: the fields' records, or failure when the next record
      would not fit in the payload buffer. */
  method WriteEntry(fields: seq<Field>) returns (ok: bool, payload: seq<byte>)
    ensures ok <==> |Serialize(fields)| <= PayloadSize
    ensures ok ==> payload == Serialize(fields)
  {
    payload := [];
    var i := 0;
    while i < |fields|
      invariant i <= |fields| && payload == Serialize(fields[..i]) && |payload| <= PayloadSize
    {
      var f := fields[i];
      var len := |f.data| % 256;
      SerializeAppend(fields[..i], [f]);
      assert Serialize([f]) == Record(f) by {
        assert [f][1..] == [];
      }
      assert fields[..i + 1] == fields[..i] + [f];
      if |payload| + len + 2 > PayloadSize {
        SerializeAppend(fields[..i + 1], fields[i + 1..]);
        assert fields == fields[..i + 1] + fields[i + 1..];
        return false, payload;
      }
      payload := payload + [f.ftype, len] + f.data[..len];
      i := i + 1;
    }
    assert fields[..i] == fields;
    ok := true;
  }

  /** The fields of a record once read: each item added with add_field. */
  function AddAll(acc: seq<Field>, items: seq<Field>): (r: seq<Field>)
    decreases |items|
  {
    if |items| == 0 then acc else AddAll(AddField(acc, items[0].ftype, items[0].data), items[1..])
  }

  /** Adding the items one by one keeps the list sorted. */
  lemma {:induction false} AddAllSortedResult(acc: seq<Field>, items: seq<Field>)
    requires Sorted(acc)
    ensures Sorted(AddAll(acc, items))
    decreases |items|
  {
    if |items| > 0 {
      AddFieldSorted(acc, items[0].ftype, items[0].data);
      AddAllSortedResult(AddField(acc, items[0].ftype, items[0].data), items[1..]);
    }
  }

  /** Adding one item whose value needs no truncation. */
  lemma {:induction false} AddFieldItem(acc: seq<Field>, f: Field, u: byte)
    requires Sorted(acc) && |f.data| < 256
    ensures Sorted(AddField(acc, f.ftype, f.data))
    ensures Of(AddField(acc, f.ftype, f.data), u) == Of(acc, u) + Of([f], u)
  {
    AddFieldSorted(acc, f.ftype, f.data);
    AddFieldOf(acc, f.ftype, f.data, u);
    OfOne(f, u);
  }

  /** Adding the items one by one sorts them by type, stably: the fields of
      each type are those already there followed by the items of that type
      in payload order. */
  lemma {:induction false} AddAllOf(acc: seq<Field>, items: seq<Field>, u: byte)
    requires Sorted(acc)
    requires forall i :: 0 <= i < |items| ==> |items[i].data| < 256
    ensures Of(AddAll(acc, items), u) == Of(acc, u) + Of(items, u)
    decreases |items|
  {
    if |items| > 0 {
      var f := items[0];
      var next := AddField(acc, f.ftype, f.data);
      AddFieldItem(acc, f, u);
      AddAllOf(next, items[1..], u);
      OfOne(f, u);
      Assoc(Of(acc, u), Of([f], u), Of(items[1..], u));
    }
  }

  /** Items already in type order are kept as they are. */
  lemma {:induction false} AddAllSorted(acc: seq<Field>, items: seq<Field>)
    requires Sorted(acc + items)
    requires forall i :: 0 <= i < |items| ==> |items[i].data| < 256
    ensures AddAll(acc, items) == acc + items
    decreases |items|
  {
    if |items| > 0 {
      var f := items[0];
      assert forall j :: 0 <= j < |acc| ==> (acc + items)[j] == acc[j];
      assert (acc + items)[|acc|] == f;
      var k := Above(acc, f.ftype, 0);
      assert k == |acc|;
      assert AddField(acc, f.ftype, f.data) == acc + [f];
      assert (acc + [f]) + items[1..] == acc + items;
      AddAllSorted(acc + [f], items[1..]);
    }
  }

  // ---------------------------------------------------------------------
  // process_payload.

  /** db_entry.seq and update_entry's increment are 16 bits wide. */
  const SeqMod: nat := 0x10000

  function NextSeq(sn: nat): (r: nat)
    requires sn < SeqMod
    ensures r < SeqMod && (r - sn) % SeqMod == 1
  {
    (sn + 1) % SeqMod
  }

  /** process_payload's test: a copy with sequence number sn is older
      than the loaded one with cur, and is ignored. */
  predicate Stale(sn: nat, cur: nat)
    requires sn < SeqMod && cur < SeqMod
  {
    (sn + SeqMod - cur) % SeqMod >= 0x8000
  }

  /** A copy is stale exactly when it lies at least half the sequence space
      ahead, i.e. at most half behind, counting modulo 2^16. */
  lemma {:induction false} StaleDistance(sn: nat, cur: nat)
    requires sn < SeqMod && cur < SeqMod
    ensures Stale(sn, cur) <==> (cur - sn) % SeqMod <= 0x8000 && sn != cur
  {
  }

  /** Of two copies whose numbers differ by other than half the space,
      exactly one is current; the same copy is never stale. */
  lemma {:induction false} StaleOrder(a: nat, b: nat)
    requires a < SeqMod && b < SeqMod
    ensures !Stale(a, a)
    ensures a != b && (a - b) % SeqMod != 0x8000 ==> (Stale(a, b) <==> !Stale(b, a))
  {
  }

  /** The copy update_entry writes next supersedes the cur one, across the
      16-bit wrap too. */
  lemma {:induction false} NextSeqWins(sn: nat)
    requires sn < SeqMod
    ensures !Stale(NextSeq(sn), sn) && Stale(sn, NextSeq(sn))
  {
  }

  /** What process_payload makes of a payload. */
  datatype Loaded =
    | NotEntry
    | Ignored
    | Entry(dirs: seq<seq<byte>>, name: seq<byte>, sn: nat, fields: seq<Field>)

  /** process_payload: a payload must open with an ID item; a copy older
      than the entry already loaded under that name (cur is its sequence
      number, or None for a new or virtual entry) is ignored; otherwise the
      entry gets the items, added in type order. */
  function ProcessPayload(payload: seq<byte>, sn: nat, cur: Option<nat>): (r: Loaded)
    requires sn < SeqMod && (cur.Some? ==> cur.value < SeqMod)
  {
    match TlvItem(payload)
    case None => NotEntry
    case Some(t) =>
      if t.ftype != FtId then NotEntry
      else if cur.Some? && Stale(sn, cur.value) then Ignored
      else
        var path := SplitPath(t.value);
        Entry(path.0, path.1, sn, AddAll([], Items(payload)))
  }

  /** What write_entry stores is read back as the same entry: a sorted
      field list opening with its ID, padded with zeros to any length. */
  lemma {:induction false} WriteRead(fields: seq<Field>, sn: nat, pad: nat)
    requires sn < SeqMod && Sorted(fields) && Writable(fields)
    requires |fields| > 0 && fields[0].ftype == FtId
    ensures ProcessPayload(Serialize(fields) + Zeros(pad), sn, None) ==
      Entry(SplitPath(fields[0].data).0, IdName(fields[0].data), sn, fields)
  {
    var s := Serialize(fields) + Zeros(pad);
    ItemsSerialize(fields, Zeros(pad));
    ItemsZeros(pad);
    assert fields + [] == fields;
    var f := fields[0];
    assert s == [f.ftype, |f.data|] + f.data + (Serialize(fields[1..]) + Zeros(pad));
    assert TlvItem(s) == Some(Tlv(f.ftype, f.data, 2 + |f.data|));
    assert [] + fields == fields;
    AddAllSorted([], fields);
    SplitName(f.data);
  }

  // ---------------------------------------------------------------------
  // db_is_dir and db_is_account.

  /** db_is_dir: an ft_dir field, or else children. */
  predicate IsDir(fields: seq<Field>, hasChildren: bool)
  {
    (exists i :: 0 <= i < |fields| && fields[i].ftype == FtDir) || hasChildren
  }

  /** The type of the first field other than ID and prev. */
  function FirstContent(fields: seq<Field>): (r: Option<byte>)
  {
    if |fields| == 0 then None
    else if fields[0].ftype == FtId || fields[0].ftype == FtPrev then FirstContent(fields[1..])
    else Some(fields[0].ftype)
  }

  /** db_is_account: no children, and the first field other than ID and
      prev exists and is not ft_dir. */
  predicate IsAccount(fields: seq<Field>, hasChildren: bool)
  {
    !hasChildren && match FirstContent(fields)
      case None => false
      case Some(t) => t != FtDir
  }

  /** An account is an entry without children having a field at position i
      that is neither ID, prev nor ft_dir, with only ID and prev fields
      before it. */
  lemma {:induction false} IsAccountAt(fields: seq<Field>, hasChildren: bool)
    ensures IsAccount(fields, hasChildren) <==> !hasChildren && exists i :: (0 <= i < |fields| &&
      fields[i].ftype !in {FtId, FtPrev, FtDir} &&
      forall j :: 0 <= j < i ==> fields[j].ftype in {FtId, FtPrev})
  {
    FirstContentAt(fields);
  }

  lemma {:induction false} FirstContentAt(fields: seq<Field>)
    ensures FirstContent(fields).None? <==> forall j :: 0 <= j < |fields| ==> fields[j].ftype in {FtId, FtPrev}
    ensures FirstContent(fields).Some? ==> exists i :: (0 <= i < |fields| &&
      fields[i].ftype == FirstContent(fields).value && fields[i].ftype !in {FtId, FtPrev} &&
      forall j :: 0 <= j < i ==> fields[j].ftype in {FtId, FtPrev})
    ensures forall i :: (0 <= i < |fields| && fields[i].ftype !in {FtId, FtPrev} &&
      (forall j :: 0 <= j < i ==> fields[j].ftype in {FtId, FtPrev})) ==> FirstContent(fields) == Some(fields[i].ftype)
  {
    if |fields| > 0 {
      FirstContentAt(fields[1..]);
      if fields[0].ftype in {FtId, FtPrev} {
        if FirstContent(fields).Some? {
          var i :| 0 <= i < |fields| - 1 && fields[1..][i].ftype == FirstContent(fields).value &&
            fields[1..][i].ftype !in {FtId, FtPrev} &&
            forall j :: 0 <= j < i ==> fields[1..][j].ftype in {FtId, FtPrev};
          assert fields[i + 1] == fields[1..][i];
        }
        forall i | 0 <= i < |fields| && fields[i].ftype !in {FtId, FtPrev} &&
          (forall j :: 0 <= j < i ==> fields[j].ftype in {FtId, FtPrev})
          ensures FirstContent(fields) == Some(fields[i].ftype)
        {
          assert i > 0;
          assert fields[1..][i - 1] == fields[i];
          assert forall j :: 0 <= j < i - 1 ==> fields[1..][j] == fields[j + 1];
        }
      } else {
        assert fields[0].ftype == FirstContent(fields).value;
      }
    }
  }

  /** An account is never a directory when the entry has no ft_dir field;
      an entry with children is a directory and not an account. */
  lemma {:induction false} AccountNotDir(fields: seq<Field>, hasChildren: bool)
    ensures hasChildren ==> IsDir(fields, hasChildren) && !IsAccount(fields, hasChildren)
    ensures !IsDir(fields, hasChildren) ==>
      (IsAccount(fields, hasChildren) <==> exists i :: 0 <= i < |fields| && fields[i].ftype !in {FtId, FtPrev})
  {
    FirstContentAt(fields);
    if !IsDir(fields, hasChildren) && FirstContent(fields).Some? {
      var i :| 0 <= i < |fields| && fields[i].ftype == FirstContent(fields).value;
      assert fields[i].ftype != FtDir;
    }
  }
}
