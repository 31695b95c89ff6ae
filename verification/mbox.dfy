/** Mailboxes between the application and interrupt handlers (sys/mbox.c):
    one message at a time, held in a buffer until retrieved. The buffer is
    kept apart from the control record because the remote-control link
    lets two mailboxes share one buffer. */
module Mbox {
  import opened Bytes
  import opened Results

  const MaxInt32: nat := 0x7fff_ffff

  /** struct mbox without its buffer pointer. length is the int32_t field:
      -1 when no message is pending. */
  datatype Box = Box(enabled: bool, size: nat, length: int)

  /** What a deposit leaves behind: whether it was accepted, the box and
      the buffer. */
  datatype Deposited = Deposited(ok: bool, box: Box, buf: seq<byte>)

  /** What a retrieval returns: the ssize_t result, the bytes copied out
      and the box afterwards. */
  datatype Retrieved = Retrieved(n: int, msg: seq<byte>, box: Box)

  /** The buffer is the box's, its size fits the int32_t length, and the
      length is -1 or the length of a message that fits. */
  predicate Valid(b: Box, buf: seq<byte>)
  {
    |buf| == b.size <= MaxInt32 && -1 <= b.length <= b.size
  }

  /** A message is waiting to be retrieved. */
  predicate Pending(b: Box)
  {
    b.enabled && b.length >= 0
  }

  /** The parts of a deposit, one after the other. */
  function Flatten(parts: seq<seq<byte>>): (r: seq<byte>)
    ensures |r| == Total(parts)
  {
    if parts == [] then [] else parts[0] + Flatten(parts[1..])
  }

  /** The sum of the part lengths, as the first va_arg loop adds them. */
  function Total(parts: seq<seq<byte>>): nat
  {
    if parts == [] then 0 else |parts[0]| + Total(parts[1..])
  }

  /** Conversion of a size_t to int32_t, modulo 2^32 as two's complement
      hardware does it. */
  function Int32(x: nat): (r: int)
    ensures -0x8000_0000 <= r <= MaxInt32
    ensures (x - r) % U32Mod == 0
    ensures x <= MaxInt32 ==> r == x
  {
    var w := x % U32Mod;
    if w <= MaxInt32 then w else w - U32Mod
  }

  // ---------------------------------------------------------------------
  // The operations.

  /** mbox_vdepositv / mbox_depositv with the (pointer, length) pairs as
      parts. The assertion that the message fits is the caller's duty. */
  function DepositV(b: Box, buf: seq<byte>, parts: seq<seq<byte>>): (r: Deposited)
    requires |buf| == b.size
    requires b.enabled && b.length < 0 ==> Total(parts) <= b.size
    ensures r.ok <==> b.enabled && b.length < 0
    ensures !r.ok ==> r.box == b && r.buf == buf
    ensures r.ok ==> r.box == b.(length := Int32(Total(parts))) && |r.buf| == |buf|
    ensures r.ok ==> r.buf[..Total(parts)] == Flatten(parts) && r.buf[Total(parts)..] == buf[Total(parts)..]
  {
    if !b.enabled || b.length >= 0 then Deposited(false, b, buf)
    else
      var total := Total(parts);
      Deposited(true, b.(length := Int32(total)), Flatten(parts) + buf[total..])
  }

  /** mbox_deposit: a single part. */
  function Deposit(b: Box, buf: seq<byte>, data: seq<byte>): (r: Deposited)
    requires |buf| == b.size
    requires b.enabled && b.length < 0 ==> |data| <= b.size
    ensures r.ok <==> b.enabled && b.length < 0
  {
    assert Total([data]) == |data| by {
      assert [data][1..] == [];
    }
    DepositV(b, buf, [data])
  }

  /** mbox_retrieve as written: a disabled box answers 0. room is None
      when data is NULL, i.e. when the message is discarded. */
  function RetrieveAsWritten(b: Box, buf: seq<byte>, room: Option<nat>): (r: Retrieved)
    requires Pending(b) ==> b.length <= |buf| && (room.Some? ==> b.length <= room.value)
    ensures r.n == 0 <==> !b.enabled || b.length == 0
  {
    if !b.enabled then Retrieved(0, [], b)
    else if b.length < 0 then Retrieved(-1, [], b)
    else Retrieved(b.length, if room.Some? then buf[..b.length] else [], b.(length := -1))
  }

  /** mbox_retrieve as its header describes it: negative whenever no
      message was taken, including when the box is disabled. */
  function Retrieve(b: Box, buf: seq<byte>, room: Option<nat>): (r: Retrieved)
    requires Pending(b) ==> b.length <= |buf| && (room.Some? ==> b.length <= room.value)
    ensures r.n < 0 <==> !Pending(b)
    ensures !Pending(b) ==> r.box == b && r.msg == []
    ensures Pending(b) ==> r.n == b.length && r.box == b.(length := -1) && !Pending(r.box)
    ensures Pending(b) && room.Some? ==> r.msg == buf[..r.n]
  {
    if !Pending(b) then Retrieved(-1, [], b)
    else Retrieved(b.length, if room.Some? then buf[..b.length] else [], b.(length := -1))
  }

  /** Which retrieval a caller runs: mbox_retrieve as written, or as its
      header describes it. */
  datatype Retrieval = AsWritten | Corrected

  function RetrieveUsing(how: Retrieval, b: Box, buf: seq<byte>, room: Option<nat>): Retrieved
    requires Pending(b) ==> b.length <= |buf| && (room.Some? ==> b.length <= room.value)
  {
    if how == AsWritten then RetrieveAsWritten(b, buf, room) else Retrieve(b, buf, room)
  }

  /** The retrieval answers 0 although it took nothing: the retrieval as
      written, on a disabled box. */
  predicate Mute(how: Retrieval, b: Box)
  {
    how == AsWritten && !b.enabled
  }

  /** mbox_enable: the box must be disabled; any message is dropped. */
  function Enable(b: Box): (r: Box)
    requires !b.enabled
    ensures r.enabled && r.length == -1 && r.size == b.size
  {
    b.(length := -1, enabled := true)
  }

  /** mbox_enable_buf: as mbox_enable, with a new buffer of the given size. */
  function EnableBuf(b: Box, size: nat): (r: Box)
    requires !b.enabled
    ensures r.enabled && r.length < 0 && r.size == size
  {
    Box(true, size, -1)
  }

  /** mbox_disable: the box must be enabled; any message is dropped. */
  function Disable(b: Box): (r: Box)
    requires b.enabled
    ensures !r.enabled && r.length == -1 && r.size == b.size
  {
    b.(enabled := false, length := -1)
  }

  /** mbox_init: disabled and empty. */
  function Init(size: nat): (r: Box)
    ensures !r.enabled && r.length == -1 && r.size == size
  {
    Box(false, size, -1)
  }

  // ---------------------------------------------------------------------
  // Properties.

  lemma {:induction false} FlattenAppend(a: seq<seq<byte>>, b: seq<seq<byte>>)
    ensures Flatten(a + b) == Flatten(a) + Flatten(b)
  {
    if a != [] {
      assert (a + b)[1..] == a[1..] + b;
      FlattenAppend(a[1..], b);
    } else {
      assert a + b == b;
    }
  }

  /** Depositing several parts is depositing their concatenation: the
      variadic and the single-part entry points agree. */
  lemma DepositParts(b: Box, buf: seq<byte>, parts: seq<seq<byte>>)
    requires |buf| == b.size
    requires b.enabled && b.length < 0 ==> Total(parts) <= b.size
    ensures Deposit(b, buf, Flatten(parts)) == DepositV(b, buf, parts)
  {
    var f := Flatten(parts);
    var one: seq<seq<byte>> := [f];
    assert Flatten(one) == f by {
      assert one[1..] == [];
    }
  }

  /** Deposit then retrieve: the retriever gets exactly the concatenation
      of the deposited parts, and the box is empty again. */
  lemma DepositRetrieve(b: Box, buf: seq<byte>, parts: seq<seq<byte>>, room: Option<nat>)
    requires Valid(b, buf) && b.enabled && b.length < 0
    requires Total(parts) <= b.size
    requires room.Some? ==> Total(parts) <= room.value
    ensures var d := DepositV(b, buf, parts);
      d.ok && Valid(d.box, d.buf) && Pending(d.box) &&
      var r := Retrieve(d.box, d.buf, room);
      r.n == Total(parts) && r.box == b.(length := -1) &&
      (room.Some? ==> r.msg == Flatten(parts))
  {
  }

  /** A pending message blocks further deposits until it is retrieved. */
  lemma OneMessage(b: Box, buf: seq<byte>, first: seq<seq<byte>>, second: seq<seq<byte>>)
    requires Valid(b, buf) && b.enabled && b.length < 0
    requires Total(first) <= b.size
    ensures var d := DepositV(b, buf, first);
      var e := DepositV(d.box, d.buf, second);
      !e.ok && e.box == d.box && e.buf == d.buf
  {
  }

  /** Every operation keeps a box valid. */
  lemma {:induction false} ValidPreserved(b: Box, buf: seq<byte>, parts: seq<seq<byte>>, room: Option<nat>)
    requires Valid(b, buf)
    requires b.enabled && b.length < 0 ==> Total(parts) <= b.size
    requires Pending(b) && room.Some? ==> b.length <= room.value
    ensures var d := DepositV(b, buf, parts); Valid(d.box, d.buf)
    ensures Valid(Retrieve(b, buf, room).box, buf)
    ensures !b.enabled ==> Valid(Enable(b), buf)
    ensures b.enabled ==> Valid(Disable(b), buf)
  {
  }

  /** Enabling and disabling discard the message: nothing is retrieved
      afterwards and nothing is deposited in a disabled box. */
  lemma EnableDisableClear(b: Box, buf: seq<byte>, data: seq<byte>, room: Option<nat>)
    requires |buf| == b.size
    ensures !b.enabled ==> Retrieve(Enable(b), buf, room).n < 0
    ensures b.enabled ==> Retrieve(Disable(b), buf, room).n < 0
    ensures b.enabled ==> !Deposit(Disable(b), buf, data).ok
    ensures !Init(b.size).enabled && Retrieve(Init(b.size), buf, room).n < 0
  {
  }

  /** The retrieval as written answers 0 for a disabled box, where no
      operation was performed; an enabled box that delivers an empty
      message answers 0 as well, so the caller cannot tell the two apart.
      Retrieve answers negative for the disabled box. */
  lemma RetrieveAsWrittenAmbiguous(buf: seq<byte>, room: Option<nat>)
    ensures var off := Box(false, |buf|, -1);
      var empty := Box(true, |buf|, 0);
      var a := RetrieveAsWritten(off, buf, room);
      var e := RetrieveAsWritten(empty, buf, room);
      a.n == 0 && a.box == off && e.n == 0 && e.box != empty &&
      Retrieve(off, buf, room).n < 0 && Retrieve(empty, buf, room).n == 0
  {
  }

  /** The two retrievals agree on every enabled box. */
  lemma RetrieveAgrees(b: Box, buf: seq<byte>, room: Option<nat>)
    requires Pending(b) ==> b.length <= |buf| && (room.Some? ==> b.length <= room.value)
    ensures b.enabled ==> RetrieveAsWritten(b, buf, room) == Retrieve(b, buf, room)
    ensures !b.enabled ==> RetrieveAsWritten(b, buf, room).n == 0 && Retrieve(b, buf, room).n == -1
  {
  }
}
