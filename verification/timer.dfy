/** Software timers (sys/timer.c): a list of armed timers sorted by due
    time, and the global millisecond clock now. A timer is known by its
    address; it is armed exactly while it is in the list. */
module Timer {
  import opened Bytes
  import opened Results

  /** An armed struct timer: its address, due time, callback and argument.
      A callback of 0 stands for NULL. */
  datatype Entry = Entry(id: nat, due: u32, fn: nat, user: nat)

  /** The timer list and now. */
  datatype Timers = Timers(now: u32, list: seq<Entry>)

  /** What timer_flush did: the timer it fired, if it was armed. */
  datatype Flushed = Flushed(fired: Option<Entry>, after: Timers)

  /** What timer_tick did: the timers it fired, in order. */
  datatype Ticked = Ticked(fired: seq<Entry>, after: Timers)

  predicate Sorted(l: seq<Entry>)
  {
    forall i, j :: 0 <= i < j < |l| ==> l[i].due <= l[j].due
  }

  /** No timer is linked twice. */
  predicate Unique(l: seq<Entry>)
  {
    forall i, j :: 0 <= i < j < |l| ==> l[i].id != l[j].id
  }

  /** Every armed timer has a callback. */
  predicate Callbacks(l: seq<Entry>)
  {
    forall i :: 0 <= i < |l| ==> l[i].fn != 0
  }

  predicate Valid(ts: Timers)
  {
    Sorted(ts.list) && Unique(ts.list) && Callbacks(ts.list)
  }

  /** t->fn is set: the timer is in the list. */
  predicate Armed(l: seq<Entry>, id: nat)
  {
    exists i :: 0 <= i < |l| && l[i].id == id
  }

  // ---------------------------------------------------------------------
  // The list operations, as the anchor loops walk the list.

  /** The entries the insertion loop passes: those up to the first one
      due strictly later. */
  function Before(l: seq<Entry>, due: nat): (k: nat)
    ensures k <= |l|
    ensures forall i :: 0 <= i < k ==> l[i].due <= due
    ensures k < |l| ==> l[k].due > due
  {
    if l == [] || l[0].due > due then 0 else 1 + Before(l[1..], due)
  }

  /** The insertion loop of timer_set: link e before the first entry due
      strictly later. */
  function Insert(l: seq<Entry>, e: Entry): (r: seq<Entry>)
    ensures |r| == |l| + 1
  {
    if l == [] || l[0].due > e.due then [e] + l else [l[0]] + Insert(l[1..], e)
  }

  /** The loop of timer_cancel: unlink the first entry of the timer. */
  function Unlink(l: seq<Entry>, id: nat): (r: seq<Entry>)
    ensures |r| <= |l|
  {
    if l == [] then []
    else if l[0].id == id then l[1..]
    else [l[0]] + Unlink(l[1..], id)
  }

  /** Where the timer sits in the list. */
  function IndexOf(l: seq<Entry>, id: nat): (k: nat)
    requires Armed(l, id)
    ensures k < |l| && l[k].id == id
    ensures forall i :: 0 <= i < k ==> l[i].id != id
  {
    if l[0].id == id then 0
    else
      assert Armed(l[1..], id) by {
        var i :| 0 <= i < |l| && l[i].id == id;
        assert l[1..][i - 1].id == id;
      }
      1 + IndexOf(l[1..], id)
  }

  // ---------------------------------------------------------------------
  // The operations.

  /** timer_set: due at now + ms in unsigned arithmetic; a timer that is
      armed is cancelled first. The callback must not be NULL. */
  function Set(ts: Timers, id: nat, ms: u32, fn: nat, user: nat): (r: Timers)
    requires fn != 0
    ensures r.now == ts.now
  {
    var due := (ts.now + ms) % U32Mod;
    var l := if Armed(ts.list, id) then Unlink(ts.list, id) else ts.list;
    Timers(ts.now, Insert(l, Entry(id, due, fn, user)))
  }

  /** timer_cancel. */
  function Cancel(ts: Timers, id: nat): (r: Timers)
    ensures r.now == ts.now
  {
    Timers(ts.now, Unlink(ts.list, id))
  }

  /** timer_flush: unlink the timer, if armed, and fire its callback. */
  function Flush(ts: Timers, id: nat): (r: Flushed)
    ensures r.fired.Some? <==> Armed(ts.list, id)
    ensures r.fired.Some? ==> r.fired.value.id == id && r.fired.value in ts.list
    ensures r.after == Cancel(ts, id)
  {
    if Armed(ts.list, id) then Flushed(Some(ts.list[IndexOf(ts.list, id)]), Cancel(ts, id))
    else Flushed(None, Cancel(ts, id))
  }

  /** The timers timer_tick pops: the front entries due by now. */
  function Due(l: seq<Entry>, now: nat): (k: nat)
    ensures k <= |l|
    ensures forall i :: 0 <= i < k ==> l[i].due <= now
    ensures k < |l| ==> l[k].due > now
  {
    if l == [] || l[0].due > now then 0 else 1 + Due(l[1..], now)
  }

  /** timer_tick: set now, then pop and fire every front timer that is
      due. */
  function Tick(ts: Timers, nowMs: u32): (r: Ticked)
    ensures r.after.now == nowMs
    ensures r.fired + r.after.list == ts.list
  {
    var k := Due(ts.list, nowMs);
    assert ts.list[..k] + ts.list[k..] == ts.list;
    Ticked(ts.list[..k], Timers(nowMs, ts.list[k..]))
  }

  // ---------------------------------------------------------------------
  // Properties.

  /** Insertion puts the entry after every entry due no later, before the
      rest, and leaves the other entries in their order. */
  lemma {:induction false} InsertSplit(l: seq<Entry>, e: Entry)
    ensures var k := Before(l, e.due); Insert(l, e) == l[..k] + [e] + l[k..]
  {
    if l != [] && l[0].due <= e.due {
      InsertSplit(l[1..], e);
      var k := Before(l[1..], e.due);
      assert l[..k + 1] == [l[0]] + l[1..][..k];
      assert l[k + 1..] == l[1..][k..];
    }
  }

  /** Insertion into a sorted list keeps it sorted. */
  lemma InsertSorted(l: seq<Entry>, e: Entry)
    requires Sorted(l)
    ensures Sorted(Insert(l, e))
  {
    InsertSplit(l, e);
    var k := Before(l, e.due);
    var r := Insert(l, e);
    forall i, j | 0 <= i < j < |r|
      ensures r[i].due <= r[j].due
    {
      if i < k && j == k {
      } else if i < k && j > k {
        assert r[i] == l[i] && r[j] == l[j - 1];
      } else if i == k && j > k {
        assert r[j] == l[j - 1];
        assert l[k].due <= l[j - 1].due;
      } else if i > k {
        assert r[i] == l[i - 1] && r[j] == l[j - 1];
      } else {
        assert r[i] == l[i] && r[j] == l[j];
      }
    }
  }

  /** Unlinking removes exactly the first entry of the timer, or nothing
      when it is not armed. */
  lemma {:induction false} UnlinkSplit(l: seq<Entry>, id: nat)
    ensures !Armed(l, id) ==> Unlink(l, id) == l
    ensures Armed(l, id) ==> Unlink(l, id) == Without(l, IndexOf(l, id))
  {
    if l != [] {
      UnlinkSplit(l[1..], id);
      if l[0].id != id {
        if Armed(l, id) {
          var k := IndexOf(l[1..], id);
          assert IndexOf(l, id) == k + 1;
          assert l[..k + 1] == [l[0]] + l[1..][..k];
          assert l[k + 2..] == l[1..][k + 1..];
        } else {
          forall i | 0 <= i < |l| - 1
            ensures l[1..][i].id != id
          {
            assert l[i + 1].id != id;
          }
          assert [l[0]] + l[1..] == l;
        }
      }
    }
  }

  /** The list with element k removed. */
  function Without(l: seq<Entry>, k: nat): (r: seq<Entry>)
    requires k < |l|
    ensures |r| == |l| - 1
  {
    l[..k] + l[k + 1..]
  }

  /** Where the entries of a list with one element removed come from. */
  lemma RemoveAt(l: seq<Entry>, k: nat)
    requires k < |l|
    ensures forall i :: 0 <= i < |l| - 1 ==> Without(l, k)[i] == l[if i < k then i else i + 1]
  {
  }

  /** Removing one element keeps the order, the distinctness and the
      callbacks of the rest. */
  lemma Remove(l: seq<Entry>, k: nat)
    requires k < |l| && Sorted(l) && Unique(l) && Callbacks(l)
    ensures var r := Without(l, k); Sorted(r) && Unique(r) && Callbacks(r)
  {
    RemoveAt(l, k);
  }

  /** Removing one element of a list without repeated timers removes
      exactly that timer. */
  lemma RemoveMembers(l: seq<Entry>, k: nat)
    requires k < |l| && Unique(l)
    ensures forall e :: e in Without(l, k) <==> e in l && e.id != l[k].id
  {
    RemoveAt(l, k);
    var r := Without(l, k);
    forall e
      ensures e in r <==> e in l && e.id != l[k].id
    {
      if e in r {
        var i :| 0 <= i < |r| && r[i] == e;
        assert l[if i < k then i else i + 1] == e;
      }
      if e in l && e.id != l[k].id {
        var j :| 0 <= j < |l| && l[j] == e;
        assert r[if j < k then j else j - 1] == e;
      }
    }
  }

  /** timer_cancel disarms the timer, keeps the list valid, and leaves
      every other timer untouched. */
  lemma CancelOthers(ts: Timers, id: nat)
    requires Valid(ts)
    ensures var r := Cancel(ts, id);
      Valid(r) && !Armed(r.list, id) &&
      forall e :: e in r.list <==> e in ts.list && e.id != id
  {
    var l := ts.list;
    UnlinkSplit(l, id);
    var r := Cancel(ts, id).list;
    if Armed(l, id) {
      var k := IndexOf(l, id);
      Remove(l, k);
      RemoveMembers(l, k);
      assert r == Without(l, k);
      forall i | 0 <= i < |r|
        ensures r[i].id != id
      {
        assert r[i] in r;
      }
    } else {
      forall e | e in l
        ensures e.id != id
      {
      }
    }
  }

  /** The entries of an insertion are the entry and the old ones. */
  lemma InsertMembers(l: seq<Entry>, e: Entry)
    ensures forall x :: x in Insert(l, e) <==> x == e || x in l
  {
    InsertSplit(l, e);
    var k := Before(l, e.due);
    assert l == l[..k] + l[k..];
  }

  /** Inserting a timer that is not armed keeps the list valid. */
  lemma InsertValid(l: seq<Entry>, e: Entry)
    requires Sorted(l) && Unique(l) && Callbacks(l) && e.fn != 0
    requires forall x :: x in l ==> x.id != e.id
    ensures var r := Insert(l, e); Sorted(r) && Unique(r) && Callbacks(r)
  {
    InsertSplit(l, e);
    InsertSorted(l, e);
    var k := Before(l, e.due);
    var r := Insert(l, e);
    forall i | 0 <= i < |r|
      ensures r[i] == if i < k then l[i] else if i == k then e else l[i - 1]
    {
    }
    forall i, j | 0 <= i < j < |r|
      ensures r[i].id != r[j].id
    {
      if i == k {
        assert r[j] in l;
      } else if j == k {
        assert r[i] in l;
      }
    }
  }

  /** timer_set inserts into the list without the timer, whether or not
      it was armed. */
  lemma SetUnlinks(ts: Timers, id: nat, ms: u32, fn: nat, user: nat)
    requires fn != 0
    ensures Set(ts, id, ms, fn, user).list ==
      Insert(Unlink(ts.list, id), Entry(id, (ts.now + ms) % U32Mod, fn, user))
  {
    UnlinkSplit(ts.list, id);
  }

  /** timer_set keeps the list valid; afterwards the timer is armed once,
      with the new due time, callback and argument, and every other timer
      is as before. */
  lemma SetValid(ts: Timers, id: nat, ms: u32, fn: nat, user: nat)
    requires Valid(ts) && fn != 0
    ensures var r := Set(ts, id, ms, fn, user);
      var e := Entry(id, (ts.now + ms) % U32Mod, fn, user);
      Valid(r) && e in r.list &&
      (forall x :: x in r.list <==> x == e || (x in ts.list && x.id != id))
  {
    var e := Entry(id, (ts.now + ms) % U32Mod, fn, user);
    CancelOthers(ts, id);
    var c := Cancel(ts, id).list;
    SetUnlinks(ts, id, ms, fn, user);
    InsertValid(c, e);
    InsertMembers(c, e);
  }

  /** A prefix and a suffix of a valid list are valid. */
  lemma Slices(l: seq<Entry>, k: nat)
    requires k <= |l| && Sorted(l) && Unique(l) && Callbacks(l)
    ensures Sorted(l[..k]) && Sorted(l[k..]) && Unique(l[k..]) && Callbacks(l[k..])
  {
    assert forall i :: 0 <= i < |l[k..]| ==> l[k..][i] == l[k + i];
  }

  /** Every entry from the first one not yet due on is not yet due. */
  lemma LaterNotDue(l: seq<Entry>, now: nat)
    requires Sorted(l)
    ensures forall e :: e in l[Due(l, now)..] ==> e.due > now
    ensures forall e :: e in l[..Due(l, now)] ==> e.due <= now
  {
    var k := Due(l, now);
    forall e | e in l[k..]
      ensures e.due > now
    {
      var m :| 0 <= m < |l[k..]| && l[k..][m] == e;
      assert l[k].due <= l[k + m].due;
    }
  }

  /** timer_tick fires exactly the timers due by the new now, earliest
      first, and keeps the later ones in order. */
  lemma TickFires(ts: Timers, nowMs: u32)
    requires Valid(ts)
    ensures var t := Tick(ts, nowMs);
      Valid(t.after) && Sorted(t.fired) &&
      (forall e :: e in t.fired <==> e in ts.list && e.due <= nowMs) &&
      (forall e :: e in t.after.list <==> e in ts.list && e.due > nowMs)
  {
    var l := ts.list;
    var k := Due(l, nowMs);
    Slices(l, k);
    LaterNotDue(l, nowMs);
    assert l == l[..k] + l[k..];
  }

  /** After a tick nothing due is left: the next tick at the same time
      fires nothing. */
  lemma TickIdempotent(ts: Timers, nowMs: u32)
    requires Valid(ts)
    ensures var t := Tick(ts, nowMs); Tick(t.after, nowMs).fired == []
  {
  }

  /** The due time wraps modulo 2^32: a timer set within ms of the wrap is
      due before now, and the next tick fires it at once. */
  lemma SetNearWrapFiresEarly(ts: Timers)
    requires ts.now == 0xffff_ff00 && ts.list == []
    ensures var r := Set(ts, 1, 0x200, 1, 0);
      r.list == [Entry(1, 0x100, 1, 0)] &&
      Tick(r, ts.now).fired == r.list
  {
  }
}
