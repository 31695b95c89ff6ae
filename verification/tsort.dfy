/** db_tsort (db/db.c): the entries are put in the order their "prev"
    fields ask for, by Kahn's algorithm. Entry j is identified by its
    position in the entry list; its link is the position of the entry it
    wants to follow, or -1. */
module TSort {
  import opened Bytes
  import opened Db
  import opened Results

  // ---------------------------------------------------------------------
  // Resolving the prev fields.

  /** The first entry whose name is exactly the value (lengths equal and
      the bytes equal), from position i on, or -1: unmatched references
      are ignored. */
  function NameIndex(names: seq<seq<byte>>, value: seq<byte>, i: nat): (r: int)
    requires i <= |names|
    ensures r == -1 || i <= r < |names|
    ensures r != -1 ==> names[r] == value && forall j :: i <= j < r ==> names[j] != value
    ensures r == -1 ==> forall j :: i <= j < |names| ==> names[j] != value
    decreases |names| - i
  {
    if i == |names| then -1
    else if names[i] == value then i
    else NameIndex(names, value, i + 1)
  }

  /** The link of an entry: its first prev field, resolved by name. */
  function Link(names: seq<seq<byte>>, fields: seq<Field>): (r: int)
    ensures -1 <= r < |names|
  {
    match Find(fields, FtPrev)
    case None => -1
    case Some(v) => NameIndex(names, v, 0)
  }

  /** The links of all entries, given their names and fields. */
  function Links(names: seq<seq<byte>>, fields: seq<seq<Field>>): (r: seq<int>)
    requires |fields| == |names|
    ensures |r| == |names| && LinksOk(r)
  {
    seq(|names|, j requires 0 <= j < |names| => Link(names, fields[j]))
  }

  predicate LinksOk(links: seq<int>)
  {
    forall j :: 0 <= j < |links| ==> -1 <= links[j] < |links|
  }

  // ---------------------------------------------------------------------
  // The state of the algorithm.

  /** The positions still to be placed. */
  function Remaining(alive: seq<bool>): set<nat>
  {
    set j: nat | j < |alive| && alive[j]
  }

  /** The positions still to be placed that wait for another one. */
  function Waiting(alive: seq<bool>, prev: seq<int>): set<nat>
    requires |prev| == |alive|
  {
    set j: nat | j < |alive| && alive[j] && prev[j] != -1
  }

  /** Entry x may be placed after the entries out: it has no link, its
      link was broken to end a cycle, or the entry it links to is already
      placed. */
  predicate After(links: seq<int>, broken: set<nat>, out: seq<nat>, x: nat)
    requires x < |links|
  {
    links[x] == -1 || x in broken || links[x] in out
  }

  /** The bookkeeping of db_tsort's tmp array: alive is t->in != NULL,
      prev is t->prev, out is the output so far. A placed entry is dead,
      each entry is placed at most once and after what it links to, and a
      pending link is either the original one or cleared for a reason. */
  ghost predicate Sound(links: seq<int>, alive: seq<bool>, prev: seq<int>, out: seq<nat>, broken: set<nat>)
  {
    var n := |links|;
    |alive| == n && |prev| == n && LinksOk(links) &&
    (forall a :: 0 <= a < |out| ==> out[a] < n && !alive[out[a]]) &&
    (forall j :: 0 <= j < n && !alive[j] ==> j in out) &&
    (forall a, b :: 0 <= a < b < |out| ==> out[a] != out[b]) &&
    (forall j :: 0 <= j < n ==> prev[j] == links[j] || prev[j] == -1) &&
    (forall j :: 0 <= j < n && prev[j] == -1 && links[j] != -1 ==> j in broken || links[j] in out) &&
    (forall j :: j in broken ==> j < n && links[j] != -1) &&
    (forall a :: 0 <= a < |out| ==> After(links, broken, out[..a], out[a]))
  }

  /** The positions below n. */
  function Below(n: nat): (r: set<nat>)
    ensures forall j: nat :: j in r <==> j < n
    ensures |r| == n
  {
    if n == 0 then {} else Below(n - 1) + {n - 1}
  }

  /** No position is listed twice. */
  predicate Distinct(s: seq<nat>)
  {
    forall a, b :: 0 <= a < b < |s| ==> s[a] != s[b]
  }

  /** The positions listed in s. */
  function Elems(s: seq<nat>): (r: set<nat>)
    ensures forall x: nat :: x in r <==> x in s
  {
    if s == [] then {}
    else
      var p := s[..|s| - 1];
      assert s == p + [s[|s| - 1]];
      Elems(p) + {s[|s| - 1]}
  }

  /** A list without repeats has as many positions as entries. */
  lemma {:induction false} ElemsCard(s: seq<nat>)
    requires Distinct(s)
    ensures |Elems(s)| == |s|
  {
    if s != [] {
      var p := s[..|s| - 1];
      assert Distinct(p);
      ElemsCard(p);
      assert s[|s| - 1] !in p;
    }
  }

  /** When nothing remains, every entry has been placed once. */
  lemma {:induction false} AllPlaced(links: seq<int>, alive: seq<bool>, prev: seq<int>, out: seq<nat>, broken: set<nat>)
    requires Sound(links, alive, prev, out, broken)
    requires forall j :: 0 <= j < |alive| ==> !alive[j]
    ensures |out| == |links|
  {
    var n := |links|;
    forall j: nat
      ensures j in Elems(out) <==> j in Below(n)
    {
      if j in out {
        var a :| 0 <= a < |out| && out[a] == j;
      }
    }
    assert Elems(out) == Below(n);
    ElemsCard(out);
  }

  // ---------------------------------------------------------------------
  // The steps.

  /** Placing x clears every link to it (the inner t2 loop). */
  method Release(prev: seq<int>, x: nat) returns (r: seq<int>)
    ensures |r| == |prev|
    ensures forall j :: 0 <= j < |prev| ==> r[j] == if prev[j] == x then -1 else prev[j]
  {
    r := prev;
    var k := 0;
    while k < |prev|
      invariant k <= |prev| && |r| == |prev|
      invariant forall j :: 0 <= j < k ==> r[j] == if prev[j] == x then -1 else prev[j]
      invariant forall j :: k <= j < |prev| ==> r[j] == prev[j]
    {
      if r[k] == x {
        r := r[k := -1];
      }
      k := k + 1;
    }
  }

  /** Placing the entry x, whose link is clear. */
  method Place(ghost links: seq<int>, alive: seq<bool>, prev: seq<int>, out: seq<nat>, ghost broken: set<nat>, x: nat)
    returns (alive': seq<bool>, prev': seq<int>, out': seq<nat>)
    requires Sound(links, alive, prev, out, broken)
    requires x < |links| && alive[x] && prev[x] == -1
    ensures Sound(links, alive', prev', out', broken)
    ensures alive' == alive[x := false] && out' == out + [x]
    ensures forall j :: 0 <= j < |prev| ==> prev'[j] == if prev[j] == x then -1 else prev[j]
  {
    assert After(links, broken, out, x);
    prev' := Release(prev, x);
    alive' := alive[x := false];
    out' := out + [x];
    assert x !in out;
    forall a | 0 <= a < |out'|
      ensures After(links, broken, out'[..a], out'[a])
    {
      if a < |out| {
        assert out'[..a] == out[..a];
      } else {
        assert out'[..a] == out;
      }
    }
  }

  /** The first waiting entry (the cycle-breaking loop). */
  method FirstWaiting(alive: seq<bool>, prev: seq<int>) returns (x: nat)
    requires |prev| == |alive| && Waiting(alive, prev) != {}
    ensures x < |alive| && alive[x] && prev[x] != -1
    ensures forall j :: 0 <= j < x ==> !(alive[j] && prev[j] != -1)
  {
    ghost var w :| w in Waiting(alive, prev);
    x := 0;
    while !(alive[x] && prev[x] != -1)
      invariant x <= w
      invariant forall j :: 0 <= j < x ==> !(alive[j] && prev[j] != -1)
      decreases w - x
    {
      x := x + 1;
    }
  }

  /** No entry links to another. */
  predicate NoLinks(links: seq<int>)
  {
    forall j :: 0 <= j < |links| ==> links[j] == -1
  }

  /** The state of a pass after visiting the entries before t, which began
      with alive0, prev0 and out0. */
  ghost predicate PassState(links: seq<int>, broken: set<nat>, alive0: seq<bool>, prev0: seq<int>, out0: seq<nat>,
                            alive: seq<bool>, prev: seq<int>, out: seq<nat>, more: bool, progress: bool, t: nat)
  {
    t <= |links| && Sound(links, alive, prev, out, broken) && |alive0| == |prev0| == |links| &&
    Remaining(alive) <= Remaining(alive0) &&
    (progress ==> Remaining(alive) < Remaining(alive0)) &&
    (!progress ==> alive == alive0 && prev == prev0 && out == out0) &&
    (!more ==> forall j :: 0 <= j < t ==> !alive[j]) &&
    (more && !progress ==> Waiting(alive0, prev0) != {})
  }

  /** A pass over entries without links, from the start, places them in
      list order. */
  ghost predicate InOrder(links: seq<int>, out0: seq<nat>, alive: seq<bool>, out: seq<nat>, more: bool, t: nat)
    requires |alive| == |links|
  {
    NoLinks(links) && out0 == [] ==>
      !more && out == seq(t, j => j) && forall j :: t <= j < |links| ==> alive[j]
  }

  /** Placing t removes it, and only it, from the remaining entries. */
  lemma RemainingClear(alive: seq<bool>, t: nat)
    requires t < |alive| && alive[t]
    ensures Remaining(alive[t := false]) == Remaining(alive) - {t} < Remaining(alive)
  {
    assert t in Remaining(alive);
  }

  /** Placing t after the entries before it keeps them in list order. */
  lemma InOrderStep(alive: seq<bool>, out: seq<nat>, t: nat)
    requires t < |alive| && out == seq(t, j => j)
    requires forall j :: t <= j < |alive| ==> alive[j]
    ensures out + [t] == seq(t + 1, j => j)
    ensures var alive' := alive[t := false]; forall j :: t + 1 <= j < |alive'| ==> alive'[j]
  {
  }

  /** The visit of entry t within a pass, when it is placed. */
  method Advance(ghost links: seq<int>, ghost broken: set<nat>,
                 ghost alive0: seq<bool>, ghost prev0: seq<int>, ghost out0: seq<nat>,
                 alive: seq<bool>, prev: seq<int>, out: seq<nat>, more: bool, progress: bool, t: nat)
    returns (alive': seq<bool>, prev': seq<int>, out': seq<nat>)
    requires t < |links| && PassState(links, broken, alive0, prev0, out0, alive, prev, out, more, progress, t)
    requires InOrder(links, out0, alive, out, more, t)
    requires alive[t] && prev[t] == -1
    ensures PassState(links, broken, alive0, prev0, out0, alive', prev', out', more, true, t + 1)
    ensures |alive'| == |links| && InOrder(links, out0, alive', out', more, t + 1)
  {
    alive', prev', out' := Place(links, alive, prev, out, broken, t);
    RemainingClear(alive, t);
    if NoLinks(links) && out0 == [] {
      InOrderStep(alive, out, t);
    }
  }

  /** The visit of entry t within a pass. */
  method Visit(ghost links: seq<int>, ghost broken: set<nat>,
               ghost alive0: seq<bool>, ghost prev0: seq<int>, ghost out0: seq<nat>,
               alive: seq<bool>, prev: seq<int>, out: seq<nat>, more: bool, progress: bool, t: nat)
    returns (alive': seq<bool>, prev': seq<int>, out': seq<nat>, more': bool, progress': bool)
    requires t < |links| && PassState(links, broken, alive0, prev0, out0, alive, prev, out, more, progress, t)
    requires InOrder(links, out0, alive, out, more, t)
    ensures PassState(links, broken, alive0, prev0, out0, alive', prev', out', more', progress', t + 1)
    ensures |alive'| == |links| && InOrder(links, out0, alive', out', more', t + 1)
  {
    alive', prev', out', more', progress' := alive, prev, out, more, progress;
    if alive[t] {
      if prev[t] != -1 {
        more' := true;
        if !progress {
          assert t in Waiting(alive0, prev0);
        }
      } else {
        alive', prev', out' := Advance(links, broken, alive0, prev0, out0, alive, prev, out, more, progress, t);
        progress' := true;
      }
    }
  }

  /** One pass over the entries: every remaining entry whose link is clear
      at its turn is placed; more tells whether one had to wait, progress
      whether one was placed. */
  method Pass(ghost links: seq<int>, alive: seq<bool>, prev: seq<int>, out: seq<nat>, ghost broken: set<nat>)
    returns (alive': seq<bool>, prev': seq<int>, out': seq<nat>, more: bool, progress: bool)
    requires Sound(links, alive, prev, out, broken)
    ensures Sound(links, alive', prev', out', broken)
    ensures Remaining(alive') <= Remaining(alive)
    ensures progress ==> Remaining(alive') < Remaining(alive)
    ensures !progress ==> alive' == alive && prev' == prev && out' == out
    ensures !more ==> forall j :: 0 <= j < |alive'| ==> !alive'[j]
    ensures more && !progress ==> Waiting(alive, prev) != {}
    ensures NoLinks(links) && out == [] ==> !more && out' == seq(|links|, j => j)
  {
    alive', prev', out' := alive, prev, out;
    more, progress := false, false;
    var t := 0;
    while t < |alive|
      invariant PassState(links, broken, alive, prev, out, alive', prev', out', more, progress, t)
      invariant |alive'| == |alive| && InOrder(links, out, alive', out', more, t)
    {
      alive', prev', out', more, progress := Visit(links, broken, alive, prev, out, alive', prev', out', more, progress, t);
      t := t + 1;
    }
  }

  // ---------------------------------------------------------------------
  // db_tsort.

  /** db_tsort: the entries in an order where each follows the entry it
      links to, except where a link had to be dropped to break a cycle;
      every entry exactly once, and the count n. broken lists the entries
      whose links were dropped. */
  method Sort(links: seq<int>) returns (order: seq<nat>, n: nat, ghost broken: set<nat>)
    requires LinksOk(links)
    ensures n == |links| == |order|
    ensures forall j :: 0 <= j < n ==> j in order
    ensures forall a, b :: 0 <= a < b < |order| ==> order[a] != order[b]
    ensures forall a :: 0 <= a < |order| ==> order[a] < n
    ensures forall a :: 0 <= a < |order| ==> After(links, broken, order[..a], order[a])
    ensures forall j :: j in broken ==> j < n && links[j] != -1
    ensures NoLinks(links) ==> order == seq(n, j => j)
  {
    n := |links|;
    broken := {};
    order := [];
    if n == 0 {
      return;
    }
    var alive := seq(n, _ => true);
    var prev := links;
    while true
      invariant Sound(links, alive, prev, order, broken)
      invariant NoLinks(links) ==> order == []
      decreases Remaining(alive), Waiting(alive, prev)
    {
      var more, progress;
      ghost var alive0, prev0 := alive, prev;
      alive, prev, order, more, progress := Pass(links, alive, prev, order, broken);
      if !more {
        AllPlaced(links, alive, prev, order, broken);
        return;
      }
      if !progress {
        var x := FirstWaiting(alive, prev);
        prev := prev[x := -1];
        broken := broken + {x};
        assert x in Waiting(alive0, prev0) && x !in Waiting(alive, prev);
        assert Waiting(alive, prev) < Waiting(alive0, prev0);
        forall a | 0 <= a < |order|
          ensures After(links, broken, order[..a], order[a])
        {
          assert After(links, broken - {x}, order[..a], order[a]);
        }
      }
    }
  }
}
