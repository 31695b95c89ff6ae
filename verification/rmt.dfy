/** The remote-control link (rmt/rmt.c): requests arrive block by block in
    the in-mailbox, responses leave through the out-mailbox, and both
    mailboxes use the same buffer. The state says which way the
    transaction flows. */
module Rmt {
  import opened Bytes
  import opened Results
  import opened Mbox

  const MaxLen: nat := 256

  /** enum rmt_state. */
  datatype State = Idle | Req | Res

  /** struct rmt. hasReset says whether a reset hook is installed; buf is
      the shared mbox_buf. usb_buf is the retrieval's result in Query. */
  datatype Link = Link(state: State, hasReset: bool, inbox: Box, outbox: Box, buf: seq<byte>)

  /** What rmt_request returns: the result, the block copied out and the
      link afterwards. */
  datatype Requested = Requested(n: int, block: seq<byte>, after: Link)

  /** A result flag and the link afterwards. */
  datatype Step = Step(ok: bool, after: Link)

  /** What rmt_query returns: the block handed to the host, if any. */
  datatype Queried = Queried(block: Option<seq<byte>>, after: Link)

  /** Both mailboxes are valid over the shared buffer of RMT_MAX_LEN bytes. */
  predicate WellFormed(r: Link)
  {
    |r.buf| == MaxLen && Valid(r.inbox, r.buf) && Valid(r.outbox, r.buf) &&
    r.inbox.size == MaxLen && r.outbox.size == MaxLen
  }

  /** The protocol invariant: while the response flows the in-mailbox is
      empty, and otherwise the out-mailbox holds at most the empty end
      marker. So the shared buffer never holds two messages at once. A
      disabled mailbox holds nothing. */
  predicate Protocol(r: Link)
  {
    (r.state == Res ==> r.inbox.length < 0) &&
    (r.state != Res ==> r.outbox.length <= 0) &&
    (!r.inbox.enabled ==> r.inbox.length < 0) &&
    (!r.outbox.enabled ==> r.outbox.length < 0)
  }

  // ---------------------------------------------------------------------
  // The operations.

  /** rmt_request with a caller buffer of room bytes, over the retrieval
      how: AsWritten is the code, Corrected the retrieval its header
      describes. As written, a disabled in-mailbox reads as the empty
      end-of-request block. */
  function Request(r: Link, room: nat, how: Retrieval): (q: Requested)
    requires WellFormed(r) && r.state != Res
    requires Pending(r.inbox) ==> r.inbox.length <= room
    ensures Mute(how, r.inbox) ==> q == Requested(-1, [], r.(state := Res))
    ensures !Mute(how, r.inbox) ==>
      (q.n < 0 <==> (r.state == Idle && !Pending(r.inbox)) || (Pending(r.inbox) && r.inbox.length == 0))
    ensures !Mute(how, r.inbox) ==> (q.n == 0 <==> r.state == Req && !Pending(r.inbox))
    ensures !Mute(how, r.inbox) && !Pending(r.inbox) ==> q.after == r
    ensures Pending(r.inbox) && r.inbox.length > 0 ==>
      q.n == r.inbox.length && q.block == r.buf[..q.n] && q.after.state == Req
    ensures Pending(r.inbox) && r.inbox.length == 0 ==> q.after.state == Res
    ensures Pending(r.inbox) ==> q.after == r.(state := q.after.state, inbox := r.inbox.(length := -1))
  {
    var got := RetrieveUsing(how, r.inbox, r.buf, Some(room));
    var r1 := r.(inbox := got.box);
    if got.n < 0 then Requested(if r.state == Idle then -1 else 0, [], r1)
    else if got.n > 0 then Requested(got.n, got.msg, r1.(state := Req))
    else Requested(-1, [], r1.(state := Res))
  }

  /** rmt_responsev: only while responding. */
  function ResponseV(r: Link, parts: seq<seq<byte>>): (s: Step)
    requires WellFormed(r) && r.state == Res
    requires r.outbox.enabled && r.outbox.length < 0 ==> Total(parts) <= MaxLen
    ensures s.ok <==> r.outbox.enabled && r.outbox.length < 0
    ensures s.after.state == Res && s.after.inbox == r.inbox && s.after.hasReset == r.hasReset
  {
    var d := DepositV(r.outbox, r.buf, parts);
    Step(d.ok, r.(outbox := d.box, buf := d.buf))
  }

  /** rmt_response: a single block. */
  function Response(r: Link, data: seq<byte>): (s: Step)
    requires WellFormed(r) && r.state == Res
    requires r.outbox.enabled && r.outbox.length < 0 ==> |data| <= MaxLen
    ensures s.ok <==> r.outbox.enabled && r.outbox.length < 0
  {
    assert Total([data]) == |data| by {
      assert [data][1..] == [];
    }
    ResponseV(r, [data])
  }

  /** rmt_end: deposit the empty end marker; the transaction is over only
      if that succeeded. */
  function End(r: Link): (s: Step)
    requires WellFormed(r) && r.state == Res
    ensures s.ok <==> r.outbox.enabled && r.outbox.length < 0
    ensures s.ok ==> s.after.state == Idle && s.after.outbox.length == 0
    ensures !s.ok ==> s.after == r
  {
    var d := DepositV(r.outbox, r.buf, []);
    if !d.ok then Step(false, r)
    else Step(true, r.(outbox := d.box, buf := d.buf, state := Idle))
  }

  /** rmt_query: hand the pending out-block, if any, to the USB stack,
      over the retrieval how. As written, a disabled out-mailbox hands over
      an empty block, which looks like the end of a response. */
  function Query(r: Link, how: Retrieval): (q: Queried)
    requires WellFormed(r)
    ensures Mute(how, r.outbox) ==> q == Queried(Some([]), r)
    ensures !Mute(how, r.outbox) ==> (q.block.None? <==> !Pending(r.outbox))
    ensures !Mute(how, r.outbox) && q.block.Some? ==> q.block.value == r.buf[..r.outbox.length]
    ensures q.after.state == r.state && q.after.inbox == r.inbox && q.after.buf == r.buf
    ensures !Pending(q.after.outbox)
  {
    var got := RetrieveUsing(how, r.outbox, r.buf, Some(MaxLen));
    var r1 := r.(outbox := got.box);
    if got.n < 0 then Queried(None, r1) else Queried(Some(got.msg), r1)
  }

  /** The state rmt_arrival proceeds from: a transaction that is sending
      its response is abandoned when the reset hook, called, says so
      (verdict is what it returns). */
  function ArrivalState(r: Link, verdict: bool): State
  {
    if r.state == Res && r.hasReset && verdict then Idle else r.state
  }

  /** rmt_arrival: a request block from the host. Arriving while the
      response flows is an assertion failure unless the reset hook resets. */
  function Arrival(r: Link, data: seq<byte>, verdict: bool): (s: Step)
    requires WellFormed(r) && ArrivalState(r, verdict) != Res
    requires r.inbox.enabled && r.inbox.length < 0 ==> |data| <= MaxLen
    ensures s.ok <==> r.inbox.enabled && r.inbox.length < 0
    ensures s.after.state == ArrivalState(r, verdict) && s.after.outbox == r.outbox
    ensures |s.after.buf| == |r.buf|
    ensures s.ok ==> s.after.inbox.length == |data| && s.after.buf[..|data|] == data
    ensures !s.ok ==> s.after == r.(state := s.after.state)
  {
    var r1 := r.(state := ArrivalState(r, verdict));
    var d := Deposit(r1.inbox, r1.buf, data);
    assert d == DepositV(r1.inbox, r1.buf, [data]);
    assert Total([data]) == |data| && Flatten([data]) == data by {
      assert [data][1..] == [];
    }
    Step(d.ok, r1.(inbox := d.box, buf := d.buf))
  }

  /** rmt_open: idle, no reset hook, both mailboxes enabled over the shared
      buffer, whose contents are left as they were. */
  function Open(r: Link): (o: Link)
    requires |r.buf| == MaxLen
    ensures o.state == Idle && !o.hasReset && o.buf == r.buf
    ensures o.inbox.enabled && o.outbox.enabled
  {
    Link(Idle, false, Enable(Init(MaxLen)), Enable(Init(MaxLen)), r.buf)
  }

  /** rmt_set_reset. */
  function SetReset(r: Link, installed: bool): (o: Link)
    ensures o.hasReset == installed && o.(hasReset := r.hasReset) == r
  {
    r.(hasReset := installed)
  }

  /** rmt_close: disable the mailbox of the current direction, then idle.
      Disabling a disabled mailbox is an assertion failure. */
  function Close(r: Link): (o: Link)
    requires r.state != Res ==> r.inbox.enabled
    requires r.state == Res ==> r.outbox.enabled
    ensures o.state == Idle
    ensures r.state != Res ==> !o.inbox.enabled && o.outbox == r.outbox
    ensures r.state == Res ==> !o.outbox.enabled && o.inbox == r.inbox
  {
    match r.state
    case Idle => r.(inbox := Disable(r.inbox), state := Idle)
    case Req => r.(inbox := Disable(r.inbox), state := Idle)
    case Res => r.(outbox := Disable(r.outbox), state := Idle)
  }

  // ---------------------------------------------------------------------
  // Properties.

  /** Open sets up a well-formed link that keeps the protocol, with
      nothing to hand over in either direction. */
  lemma OpenProtocol(r: Link, how: Retrieval)
    requires |r.buf| == MaxLen
    ensures WellFormed(Open(r)) && Protocol(Open(r))
    ensures Request(Open(r), 0, how).n < 0 && Query(Open(r), how).block.None?
  {
  }

  /** Every step of the transaction keeps the link well formed and the
      protocol invariant, except an arrival that resets a response; this
      holds for the retrieval as written as well as the corrected one. */
  lemma ProtocolPreserved(r: Link, room: nat, data: seq<byte>, verdict: bool, how: Retrieval)
    requires WellFormed(r) && Protocol(r)
    requires |data| <= MaxLen
    ensures r.state != Res && (Pending(r.inbox) ==> r.inbox.length <= room) ==>
      var a := Request(r, room, how).after; WellFormed(a) && Protocol(a)
    ensures r.state == Res ==>
      var a := Response(r, data).after; WellFormed(a) && Protocol(a)
    ensures r.state == Res ==>
      var a := End(r).after; WellFormed(a) && Protocol(a)
    ensures var a := Query(r, how).after; WellFormed(a) && Protocol(a)
    ensures r.state != Res ==>
      var a := Arrival(r, data, verdict).after; WellFormed(a) && Protocol(a)
    ensures (r.state != Res ==> r.inbox.enabled) && (r.state == Res ==> r.outbox.enabled) ==>
      var a := Close(r); WellFormed(a) && Protocol(a)
  {
    if r.state != Res {
      var s := Arrival(r, data, verdict);
      assert s.after.outbox == r.outbox;
    }
  }

  /** A request block that arrives is what rmt_request hands over next,
      and the transaction is then receiving its request. */
  lemma ArrivalRequest(r: Link, data: seq<byte>, verdict: bool, room: nat, how: Retrieval)
    requires WellFormed(r) && ArrivalState(r, verdict) != Res
    requires r.inbox.enabled && r.inbox.length < 0
    requires 0 < |data| <= MaxLen && |data| <= room
    ensures var s := Arrival(r, data, verdict);
      s.ok && WellFormed(s.after) &&
      var q := Request(s.after, room, how);
      q.n == |data| && q.block == data && q.after.state == Req && !Pending(q.after.inbox)
  {
  }

  /** The empty block ends the request: rmt_request answers -1 and the
      response phase begins. */
  lemma EmptyBlockEndsRequest(r: Link, verdict: bool, room: nat, how: Retrieval)
    requires WellFormed(r) && ArrivalState(r, verdict) != Res
    requires r.inbox.enabled && r.inbox.length < 0
    ensures var s := Arrival(r, [], verdict);
      s.ok && WellFormed(s.after) &&
      var q := Request(s.after, room, how);
      q.n == -1 && q.after.state == Res && !Pending(q.after.inbox)
  {
  }

  /** A response block is what the USB stack queries next. */
  lemma ResponseQuery(r: Link, data: seq<byte>, how: Retrieval)
    requires WellFormed(r) && r.state == Res
    requires r.outbox.enabled && r.outbox.length < 0 && |data| <= MaxLen
    ensures var s := Response(r, data);
      s.ok && WellFormed(s.after) &&
      var q := Query(s.after, how);
      q.block == Some(data) && q.after.state == Res
  {
    var d := DepositV(r.outbox, r.buf, [data]);
    assert Total([data]) == |data| && Flatten([data]) == data by {
      assert [data][1..] == [];
    }
  }

  /** rmt_end, once accepted, leaves the empty end marker for the host and
      the link idle; after the host takes it, nothing is pending. */
  lemma EndQuery(r: Link, how: Retrieval)
    requires WellFormed(r) && r.state == Res
    requires r.outbox.enabled && r.outbox.length < 0
    ensures var s := End(r);
      s.ok && s.after.state == Idle &&
      var q := Query(s.after, how);
      q.block == Some([]) && Query(q.after, how).block.None?
  {
  }

  /** With the corrected retrieval, close leaves the link idle for good:
      a request sees nothing and keeps it idle, and after closing a
      response the host is handed nothing. */
  lemma CloseIdle(r: Link, room: nat)
    requires WellFormed(r)
    requires r.state != Res ==> r.inbox.enabled
    requires r.state == Res ==> r.outbox.enabled
    ensures var c := Close(r);
      c.state == Idle && WellFormed(c) &&
      (r.state != Res ==> Request(c, room, Corrected) == Requested(-1, [], c)) &&
      (r.state == Res ==> Query(c, Corrected).block.None?)
  {
  }

  /** With the retrieval as written, a link closed while receiving reads
      its disabled in-mailbox as the empty end-of-request block: rmt_request
      answers -1 and enters the response phase with no request received.
      A link closed while responding hands the host an empty block, the
      end-of-response marker, although nothing was sent. */
  lemma ClosedRequestAsWritten(r: Link, room: nat)
    requires WellFormed(r)
    requires r.state != Res ==> r.inbox.enabled
    requires r.state == Res ==> r.outbox.enabled
    ensures var c := Close(r);
      (r.state != Res ==>
        RetrieveAsWritten(c.inbox, c.buf, Some(room)).n == 0 &&
        Request(c, room, AsWritten) == Requested(-1, [], c.(state := Res))) &&
      (r.state == Res ==>
        RetrieveAsWritten(c.outbox, c.buf, Some(MaxLen)).n == 0 &&
        Query(c, AsWritten) == Queried(Some([]), c))
  {
  }

  /** The hazard of the shared buffer: when an arrival resets a link whose
      response is still pending, the request block overwrites the
      response, and the host is handed the request bytes instead. */
  lemma ResetOverwritesResponse(r: Link, data: seq<byte>, how: Retrieval)
    requires WellFormed(r) && Protocol(r) && r.state == Res && r.hasReset
    requires Pending(r.outbox) && r.inbox.enabled
    requires 0 < |data| <= r.outbox.length
    ensures var s := Arrival(r, data, true);
      s.ok && s.after.state == Idle && !Protocol(s.after) &&
      var q := Query(s.after, how);
      q.block.Some? && q.block.value[..|data|] == data
  {
  }
}
