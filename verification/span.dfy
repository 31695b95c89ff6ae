/** Lists of spans of consecutive blocks (db/span.c): the erased, deleted
    and empty blocks of the database. A list is a sequence of spans; the
    blocks it holds are counted block by block, with multiplicity, so no
    disjointness needs to be assumed. */
module Span {
  import opened Bits

  /** struct db_span: blocks start to start + len - 1. */
  datatype Span = Span(start: nat, len: nat)

  function End(s: Span): nat
  {
    s.start + s.len
  }

  /** Block x lies in span s. */
  predicate In(s: Span, x: nat)
  {
    s.start <= x < End(s)
  }

  /** How many spans of the list hold block x. */
  function Count(spans: seq<Span>, x: nat): nat
  {
    if |spans| == 0 then 0 else (if In(spans[0], x) then 1 else 0) + Count(spans[1..], x)
  }

  /** The number of blocks a list holds. */
  function Total(spans: seq<Span>): nat
  {
    if |spans| == 0 then 0 else spans[0].len + Total(spans[1..])
  }

  /** No span is empty: span_pull_one's decrement never wraps. */
  predicate NonEmpty(spans: seq<Span>)
  {
    forall i :: 0 <= i < |spans| ==> spans[i].len > 0
  }

  /** 1 when a <= x < b, else 0. */
  function Between(a: nat, x: nat, b: nat): nat
  {
    if a <= x < b then 1 else 0
  }

  // ---------------------------------------------------------------------
  // Facts about Count and Total.

  lemma {:induction false} CountAppend(a: seq<Span>, b: seq<Span>, x: nat)
    ensures Count(a + b, x) == Count(a, x) + Count(b, x)
  {
    if |a| > 0 {
      assert (a + b)[1..] == a[1..] + b;
      CountAppend(a[1..], b, x);
    } else {
      assert a + b == b;
    }
  }

  lemma {:induction false} TotalAppend(a: seq<Span>, b: seq<Span>)
    ensures Total(a + b) == Total(a) + Total(b)
  {
    if |a| > 0 {
      assert (a + b)[1..] == a[1..] + b;
      TotalAppend(a[1..], b);
    } else {
      assert a + b == b;
    }
  }

  lemma {:induction false} CountOne(s: Span, x: nat)
    ensures Count([s], x) == Between(s.start, x, End(s)) && Total([s]) == s.len
  {
    assert [s][1..] == [];
  }

  /** The list with spans i to j - 1 replaced by the spans r: it gains the
      blocks of r and loses those of the run. */
  lemma {:induction false} ReplaceRun(spans: seq<Span>, i: nat, j: nat, r: seq<Span>, x: nat)
    requires i <= j <= |spans|
    ensures Count(spans[..i] + r + spans[j..], x) + Count(spans[i..j], x) == Count(spans, x) + Count(r, x)
    ensures Total(spans[..i] + r + spans[j..]) + Total(spans[i..j]) == Total(spans) + Total(r)
  {
    assert spans == spans[..i] + spans[i..j] + spans[j..];
    CountAppend(spans[..i] + spans[i..j], spans[j..], x);
    CountAppend(spans[..i], spans[i..j], x);
    CountAppend(spans[..i] + r, spans[j..], x);
    CountAppend(spans[..i], r, x);
    TotalAppend(spans[..i] + spans[i..j], spans[j..]);
    TotalAppend(spans[..i], spans[i..j]);
    TotalAppend(spans[..i] + r, spans[j..]);
    TotalAppend(spans[..i], r);
  }

  /** Span i replaced by the spans r. */
  lemma {:induction false} ReplaceOne(spans: seq<Span>, i: nat, r: seq<Span>, x: nat)
    requires i < |spans|
    ensures Count(spans[..i] + r + spans[i + 1..], x) + Between(spans[i].start, x, End(spans[i]))
      == Count(spans, x) + Count(r, x)
    ensures Total(spans[..i] + r + spans[i + 1..]) + spans[i].len == Total(spans) + Total(r)
  {
    assert spans[i..i + 1] == [spans[i]];
    CountOne(spans[i], x);
    ReplaceRun(spans, i, i + 1, r, x);
  }

  lemma {:induction false} UpdateIsReplace(spans: seq<Span>, i: nat, s: Span)
    requires i < |spans|
    ensures spans[i := s] == spans[..i] + [s] + spans[i + 1..]
  {
  }

  // ---------------------------------------------------------------------
  // span_add.

  /** span_add as intended: extend the first span ending at n (merging it
      with its successor when they now touch), or else lower the first
      span starting at n + size, or else append a new span. */
  function Add(spans: seq<Span>, n: nat, size: nat): (r: seq<Span>)
  {
    AddFrom(spans, 0, n, size)
  }

  function AddFrom(spans: seq<Span>, i: nat, n: nat, size: nat): (r: seq<Span>)
    requires i <= |spans|
    decreases |spans| - i
  {
    if i == |spans| then spans + [Span(n, size)]
    else if End(spans[i]) == n then Extend(spans, i, size)
    else if spans[i].start == n + size then spans[i := Span(n, spans[i].len + size)]
    else AddFrom(spans, i + 1, n, size)
  }

  /** Span i grows by size at its end and swallows the next span if the
      two now touch. */
  function Extend(spans: seq<Span>, i: nat, size: nat): (r: seq<Span>)
    requires i < |spans|
  {
    var grown := Span(spans[i].start, spans[i].len + size);
    if i + 1 < |spans| && spans[i + 1].start == End(grown) then
      spans[..i] + [Span(grown.start, grown.len + spans[i + 1].len)] + spans[i + 2..]
    else spans[i := grown]
  }

  /** span_add as written: in the prepend case the loop breaks out into the
      append code, which overwrites the link to the lowered span with a new
      one-span tail, dropping that span and every span after it. */
  function AddAsWritten(spans: seq<Span>, n: nat, size: nat): (r: seq<Span>)
  {
    AddFromAsWritten(spans, 0, n, size)
  }

  function AddFromAsWritten(spans: seq<Span>, i: nat, n: nat, size: nat): (r: seq<Span>)
    requires i <= |spans|
    decreases |spans| - i
  {
    if i == |spans| then spans + [Span(n, size)]
    else if End(spans[i]) == n then Extend(spans, i, size)
    else if spans[i].start == n + size then spans[..i] + [Span(n, size)]
    else AddFromAsWritten(spans, i + 1, n, size)
  }

  /** Extending span i adds the size blocks after its end. */
  lemma {:induction false} ExtendCount(spans: seq<Span>, i: nat, size: nat, x: nat)
    requires i < |spans|
    ensures Count(Extend(spans, i, size), x) == Count(spans, x) + Between(End(spans[i]), x, End(spans[i]) + size)
    ensures Total(Extend(spans, i, size)) == Total(spans) + size
    ensures NonEmpty(spans) ==> NonEmpty(Extend(spans, i, size))
  {
    var s := spans[i];
    var grown := Span(s.start, s.len + size);
    if i + 1 < |spans| && spans[i + 1].start == End(grown) {
      var t := spans[i + 1];
      var merged := Span(s.start, grown.len + t.len);
      assert spans[i..i + 2] == [s, t];
      assert [s, t] == [s] + [t];
      CountAppend([s], [t], x);
      TotalAppend([s], [t]);
      CountOne(s, x);
      CountOne(t, x);
      CountOne(merged, x);
      ReplaceRun(spans, i, i + 2, [merged], x);
    } else {
      CountOne(grown, x);
      ReplaceOne(spans, i, [grown], x);
      UpdateIsReplace(spans, i, grown);
    }
  }

  /** Adding the blocks n to n + size - 1 to a list: every one of them is
      now held once more, nothing else changes, and no span is empty if
      none was and size is positive. */
  lemma {:induction false} AddFromCount(spans: seq<Span>, i: nat, n: nat, size: nat, x: nat)
    requires i <= |spans|
    ensures Count(AddFrom(spans, i, n, size), x) == Count(spans, x) + Between(n, x, n + size)
    ensures Total(AddFrom(spans, i, n, size)) == Total(spans) + size
    ensures NonEmpty(spans) && size > 0 ==> NonEmpty(AddFrom(spans, i, n, size))
    decreases |spans| - i
  {
    if i == |spans| {
      CountAppend(spans, [Span(n, size)], x);
      TotalAppend(spans, [Span(n, size)]);
      CountOne(Span(n, size), x);
    } else if End(spans[i]) == n {
      ExtendCount(spans, i, size, x);
    } else if spans[i].start == n + size {
      var lowered := Span(n, spans[i].len + size);
      CountOne(lowered, x);
      ReplaceOne(spans, i, [lowered], x);
      UpdateIsReplace(spans, i, lowered);
    } else {
      AddFromCount(spans, i + 1, n, size, x);
    }
  }

  lemma {:induction false} AddCount(spans: seq<Span>, n: nat, size: nat)
    ensures forall x :: Count(Add(spans, n, size), x) == Count(spans, x) + Between(n, x, n + size)
    ensures Total(Add(spans, n, size)) == Total(spans) + size
    ensures NonEmpty(spans) && size > 0 ==> NonEmpty(Add(spans, n, size))
  {
    forall x
      ensures Count(Add(spans, n, size), x) == Count(spans, x) + Between(n, x, n + size)
    {
      AddFromCount(spans, 0, n, size, x);
    }
    AddFromCount(spans, 0, n, size, 0);
  }

  /** Total of a list split at i. */
  lemma {:induction false} TotalSplit(spans: seq<Span>, i: nat)
    requires i < |spans|
    ensures Total(spans) == Total(spans[..i]) + spans[i].len + Total(spans[i + 1..])
  {
    assert spans == spans[..i] + [spans[i]] + spans[i + 1..];
    TotalAppend(spans[..i] + [spans[i]], spans[i + 1..]);
    TotalAppend(spans[..i], [spans[i]]);
    CountOne(spans[i], 0);
  }

  /** span_add as written either agrees with the intended version or loses
      blocks: with non-empty spans, the prepend case always loses some. */
  lemma {:induction false} AddFromAsWrittenLoses(spans: seq<Span>, i: nat, n: nat, size: nat)
    requires i <= |spans| && NonEmpty(spans)
    ensures AddFromAsWritten(spans, i, n, size) == AddFrom(spans, i, n, size) ||
      Total(AddFromAsWritten(spans, i, n, size)) < Total(spans) + size
    decreases |spans| - i
  {
    if i == |spans| || End(spans[i]) == n {
    } else if spans[i].start == n + size {
      TotalSplit(spans, i);
      TotalAppend(spans[..i], [Span(n, size)]);
      CountOne(Span(n, size), 0);
    } else {
      AddFromAsWrittenLoses(spans, i + 1, n, size);
    }
  }

  /** The smallest instance: freeing block 8 of two-block size in front of
      the span 10..14 leaves only 8..9 in the list. */
  lemma AddAsWrittenExample()
    ensures AddAsWritten([Span(10, 5)], 8, 2) == [Span(8, 2)]
    ensures Add([Span(10, 5)], 8, 2) == [Span(8, 7)]
    ensures Count([Span(10, 5)], 12) == 1 && Count(AddAsWritten([Span(10, 5)], 8, 2), 12) == 0
  {
    assert [Span(10, 5)][1..] == [];
    assert [Span(8, 2)][1..] == [];
  }

  // ---------------------------------------------------------------------
  // span_pull_one.

  /** span_pull_one: the first block of the first span, or -1 for an empty
      list; the span shrinks from the front and goes when it is empty. */
  function PullOne(spans: seq<Span>): (r: (int, seq<Span>))
  {
    if |spans| == 0 then (-1 as int, spans)
    else if spans[0].len == 0 then (spans[0].start, [Span(spans[0].start + 1, 0xFFFF_FFFF)] + spans[1..])
    else if spans[0].len == 1 then (spans[0].start, spans[1..])
    else (spans[0].start, [Span(spans[0].start + 1, spans[0].len - 1)] + spans[1..])
  }

  /** Pulling from a list whose first span is not empty removes one copy
      of that span's first block. */
  lemma {:induction false} PullOneStep(spans: seq<Span>, x: nat)
    requires |spans| > 0 && spans[0].len > 0
    ensures Count(PullOne(spans).1, x) + Between(spans[0].start, x, spans[0].start + 1) == Count(spans, x)
    ensures Total(PullOne(spans).1) + 1 == Total(spans)
  {
    var s := spans[0];
    if s.len > 1 {
      var t := Span(s.start + 1, s.len - 1);
      assert ([t] + spans[1..])[0] == t;
      assert ([t] + spans[1..])[1..] == spans[1..];
    }
  }

  /** A block pulled from a list of non-empty spans was in it and is in the
      result once fewer; nothing else changes. */
  lemma {:induction false} PullOneCount(spans: seq<Span>)
    requires NonEmpty(spans)
    ensures PullOne(spans).0 == -1 <==> Total(spans) == 0
    ensures PullOne(spans).0 != -1 ==> PullOne(spans).0 >= 0 && Count(spans, PullOne(spans).0) > 0
    ensures PullOne(spans).0 != -1 ==> NonEmpty(PullOne(spans).1) && Total(PullOne(spans).1) + 1 == Total(spans)
    ensures PullOne(spans).0 != -1 ==> forall x ::
      Count(PullOne(spans).1, x) + Between(PullOne(spans).0, x, PullOne(spans).0 + 1) == Count(spans, x)
  {
    if |spans| > 0 {
      var n := spans[0].start;
      forall x
        ensures Count(PullOne(spans).1, x) + Between(n, x, n + 1) == Count(spans, x)
      {
        PullOneStep(spans, x);
      }
      PullOneStep(spans, n);
    }
  }

  // ---------------------------------------------------------------------
  // span_pull_erase_block.

  /** round_up: n rounded up to a multiple of mod (the unsigned wrap near
      2^32 is not modelled). */
  function RoundUp(n: nat, mod: nat): (r: nat)
    requires mod > 0
  {
    (n + mod - 1) - (n + mod - 1) % mod
  }

  /** RoundUp is the least multiple of mod that is at least n. */
  lemma {:induction false} RoundUpLeast(n: nat, mod: nat, b: nat)
    requires mod > 0
    ensures RoundUp(n, mod) % mod == 0 && n <= RoundUp(n, mod) < n + mod
    ensures b % mod == 0 && n <= b ==> RoundUp(n, mod) <= b
  {
    var m := n + mod - 1;
    var q, r := m / mod, m % mod;
    assert m == q * mod + r;
    assert RoundUp(n, mod) == q * mod;
    DivModUnique(q * mod, mod, q, 0);
    if b % mod == 0 && n <= b && b < q * mod {
      var k := b / mod;
      assert b == k * mod;
      if k >= q {
        MulLe(q, k, mod);
      }
      MulLe(k, q - 1, mod);
    }
  }

  /** Span s holds the erase block b: b is aligned to the erase size and
      lies inside s. */
  predicate BlockIn(s: Span, e: nat, b: nat)
    requires e > 0
  {
    b % e == 0 && s.start <= b && b + e <= End(s)
  }

  /** The test span_pull_erase_block makes: the first aligned block at or
      after the start ends inside the span. */
  predicate Fits(s: Span, e: nat)
    requires e > 0
  {
    RoundUp(s.start, e) + e <= End(s)
  }

  /** The test finds an erase block exactly when the span holds one. */
  lemma {:induction false} FitsHolds(s: Span, e: nat)
    requires e > 0
    ensures Fits(s, e) <==> exists b :: BlockIn(s, e, b)
    ensures Fits(s, e) ==> BlockIn(s, e, RoundUp(s.start, e))
  {
    RoundUpLeast(s.start, e, 0);
    if Fits(s, e) {
      assert BlockIn(s, e, RoundUp(s.start, e));
    }
    if b :| BlockIn(s, e, b) {
      RoundUpLeast(s.start, e, b);
    }
  }

  /** The first span at or after i that holds an erase block. */
  function FirstFit(spans: seq<Span>, e: nat, i: nat): (r: nat)
    requires e > 0 && i <= |spans|
    ensures i <= r <= |spans|
    ensures r < |spans| ==> Fits(spans[r], e)
    ensures forall j :: i <= j < r ==> !Fits(spans[j], e)
    decreases |spans| - i
  {
    if i == |spans| || Fits(spans[i], e) then i else FirstFit(spans, e, i + 1)
  }

  /** span_pull_erase_block as intended: take the first aligned erase block
      from the first span holding one, keeping the blocks before and after
      it; -1 when no span holds one. */
  function PullErase(spans: seq<Span>, e: nat): (r: (int, seq<Span>))
    requires e > 0
  {
    var i := FirstFit(spans, e, 0);
    if i == |spans| then (-1 as int, spans)
    else
      var s := spans[i];
      var n := RoundUp(s.start, e);
      if n == s.start then
        if s.len == e then (n, spans[..i] + spans[i + 1..])
        else (n, spans[i := Span(s.start + e, s.len - e)])
      else if End(s) == n + e then (n, spans[i := Span(s.start, s.len - e)])
      else (n, spans[..i] + [Span(s.start, n - s.start), Span(n + e, End(s) - n - e)] + spans[i + 1..])
  }

  /** span_pull_erase_block as written: when the span is exactly one erase
      block, the code stores the span back into its own link and frees it,
      so the list still holds the block (through a freed node). */
  function PullEraseAsWritten(spans: seq<Span>, e: nat): (r: (int, seq<Span>))
    requires e > 0
  {
    var i := FirstFit(spans, e, 0);
    if i < |spans| && RoundUp(spans[i].start, e) == spans[i].start && spans[i].len == e then
      (spans[i].start, spans)
    else PullErase(spans, e)
  }

  /** The spans that replace span i once its erase block is taken. */
  function EraseRest(s: Span, e: nat): (r: seq<Span>)
    requires e > 0 && Fits(s, e)
  {
    var n := RoundUp(s.start, e);
    if n == s.start then (if s.len == e then [] else [Span(s.start + e, s.len - e)])
    else if End(s) == n + e then [Span(s.start, s.len - e)]
    else [Span(s.start, n - s.start), Span(n + e, End(s) - n - e)]
  }

  /** What is left of a span after its erase block is taken: everything
      but that block, in non-empty spans. */
  lemma {:induction false} EraseRestCount(s: Span, e: nat, x: nat)
    requires e > 0 && Fits(s, e)
    ensures Count(EraseRest(s, e), x) + Between(RoundUp(s.start, e), x, RoundUp(s.start, e) + e)
      == Between(s.start, x, End(s))
    ensures Total(EraseRest(s, e)) + e == s.len
    ensures NonEmpty(EraseRest(s, e))
  {
    var n := RoundUp(s.start, e);
    RoundUpLeast(s.start, e, 0);
    var r := EraseRest(s, e);
    if n == s.start && s.len == e {
      assert r == [];
    } else if |r| == 1 {
      CountOne(r[0], x);
      assert r == [r[0]];
    } else {
      assert r == [r[0]] + [r[1]];
      CountAppend([r[0]], [r[1]], x);
      TotalAppend([r[0]], [r[1]]);
      CountOne(r[0], x);
      CountOne(r[1], x);
    }
  }

  lemma {:induction false} PullEraseShape(spans: seq<Span>, e: nat)
    requires e > 0 && FirstFit(spans, e, 0) < |spans|
    ensures var i := FirstFit(spans, e, 0);
      PullErase(spans, e) == (RoundUp(spans[i].start, e) as int, spans[..i] + EraseRest(spans[i], e) + spans[i + 1..])
  {
    var i := FirstFit(spans, e, 0);
    var s := spans[i];
    var n := RoundUp(s.start, e);
    if n == s.start && s.len == e {
      assert spans[..i] + [] + spans[i + 1..] == spans[..i] + spans[i + 1..];
    } else if n == s.start || End(s) == n + e {
      UpdateIsReplace(spans, i, EraseRest(s, e)[0]);
    }
  }

  /** Taking an erase block: -1 exactly when no span holds one; otherwise
      an aligned block held by the first span that has one. */
  lemma {:induction false} PullEraseFound(spans: seq<Span>, e: nat)
    requires e > 0
    ensures PullErase(spans, e).0 == -1 <==> forall i, b :: 0 <= i < |spans| ==> !BlockIn(spans[i], e, b)
    ensures PullErase(spans, e).0 != -1 ==> PullErase(spans, e).0 >= 0
    ensures PullErase(spans, e).0 != -1 ==> exists i :: (0 <= i < |spans| &&
      BlockIn(spans[i], e, PullErase(spans, e).0) && forall j, b :: 0 <= j < i ==> !BlockIn(spans[j], e, b))
  {
    var i := FirstFit(spans, e, 0);
    forall j | 0 <= j < i
      ensures forall b :: !BlockIn(spans[j], e, b)
    {
      FitsHolds(spans[j], e);
    }
    if i < |spans| {
      FitsHolds(spans[i], e);
      PullEraseShape(spans, e);
    }
  }

  /** The block taken is removed once from the list, nothing else changes,
      and no span becomes empty. */
  lemma {:induction false} PullEraseStep(spans: seq<Span>, e: nat, x: nat)
    requires e > 0 && FirstFit(spans, e, 0) < |spans|
    ensures Count(PullErase(spans, e).1, x) + Between(PullErase(spans, e).0, x, PullErase(spans, e).0 + e)
      == Count(spans, x)
    ensures Total(PullErase(spans, e).1) + e == Total(spans)
    ensures NonEmpty(spans) ==> NonEmpty(PullErase(spans, e).1)
  {
    var i := FirstFit(spans, e, 0);
    var r := EraseRest(spans[i], e);
    PullEraseShape(spans, e);
    EraseRestCount(spans[i], e, x);
    ReplaceOne(spans, i, r, x);
    if NonEmpty(spans) {
      var out := spans[..i] + r + spans[i + 1..];
      forall k | 0 <= k < |out|
        ensures out[k].len > 0
      {
        if k >= i + |r| {
          assert out[k] == spans[k - |r| + 1];
        } else if k >= i {
          assert out[k] == r[k - i];
        }
      }
    }
  }

  lemma {:induction false} PullEraseCount(spans: seq<Span>, e: nat)
    requires e > 0
    ensures PullErase(spans, e).0 != -1 ==> forall x ::
      Count(PullErase(spans, e).1, x) + Between(PullErase(spans, e).0, x, PullErase(spans, e).0 + e) == Count(spans, x)
    ensures PullErase(spans, e).0 != -1 ==> Total(PullErase(spans, e).1) + e == Total(spans)
    ensures PullErase(spans, e).0 == -1 ==> PullErase(spans, e).1 == spans
    ensures NonEmpty(spans) ==> NonEmpty(PullErase(spans, e).1)
  {
    if FirstFit(spans, e, 0) < |spans| {
      forall x
        ensures Count(PullErase(spans, e).1, x) + Between(PullErase(spans, e).0, x, PullErase(spans, e).0 + e)
          == Count(spans, x)
      {
        PullEraseStep(spans, e, x);
      }
      PullEraseStep(spans, e, 0);
    }
  }

  /** span_pull_erase_block as written differs from the intended version
      exactly when the chosen span is one aligned erase block; the block
      then stays listed, and the next call hands it out again. */
  lemma {:induction false} PullEraseAsWrittenRepeats(spans: seq<Span>, e: nat)
    requires e > 0
    ensures var i := FirstFit(spans, e, 0);
      PullEraseAsWritten(spans, e) != PullErase(spans, e) <==>
        i < |spans| && RoundUp(spans[i].start, e) == spans[i].start && spans[i].len == e
    ensures PullEraseAsWritten(spans, e) != PullErase(spans, e) ==>
      PullEraseAsWritten(PullEraseAsWritten(spans, e).1, e) == PullEraseAsWritten(spans, e)
  {
    var i := FirstFit(spans, e, 0);
    if i < |spans| && RoundUp(spans[i].start, e) == spans[i].start && spans[i].len == e {
      PullEraseShape(spans, e);
      assert |PullErase(spans, e).1| == |spans| - 1;
    }
  }

  /** The smallest instance: one span that is one erase block. */
  lemma PullEraseAsWrittenExample()
    ensures PullEraseAsWritten([Span(0, 4)], 4) == (0, [Span(0, 4)])
    ensures PullErase([Span(0, 4)], 4) == (0, [])
  {
    assert RoundUp(0, 4) == 0;
    assert FirstFit([Span(0, 4)], 4, 0) == 0;
    assert [Span(0, 4)][..0] + [Span(0, 4)][1..] == [];
  }
}
