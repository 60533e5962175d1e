/** The chunk sequence of flashcp's write and verify loops: a payload is
    moved through a buffer of BUFSIZE bytes, a full buffer at a time, the
    remainder last. */
module Chunks {

  /** Size of the transfer buffers `src` and `dest`. */
  const BUFSIZE: nat := 10 * 1024

  function Min(a: nat, b: nat): nat
  {
    if a <= b then a else b
  }

  /** The chunk sizes `i` that the loops `while (size) { if (size < BUFSIZE)
      i = size; ... size -= i; }` go through for a payload of `size` bytes. */
  function ChunkPlan(size: nat): seq<nat>
    decreases size
  {
    if size == 0 then [] else
      var i := Min(BUFSIZE, size);
      [i] + ChunkPlan(size - i)
  }

  function Sum(s: seq<nat>): nat
  {
    if s == [] then 0 else s[0] + Sum(s[1..])
  }

  lemma {:induction false} SumAppend(a: seq<nat>, b: seq<nat>)
    ensures Sum(a + b) == Sum(a) + Sum(b)
  {
    if a != [] {
      assert (a + b)[1..] == a[1..] + b;
      SumAppend(a[1..], b);
    } else {
      assert a + b == b;
    }
  }

  /** The chunks add up to the payload: nothing is skipped, nothing is
      moved twice. */
  lemma {:induction false} ChunkPlanSums(size: nat)
    ensures Sum(ChunkPlan(size)) == size
    decreases size
  {
    if size > 0 {
      ChunkPlanSums(size - Min(BUFSIZE, size));
    }
  }

  /** Every chunk is non-empty and fits in the buffer; every chunk but the
      last fills it. */
  lemma {:induction false} ChunkPlanBounded(size: nat)
    ensures forall k :: 0 <= k < |ChunkPlan(size)| ==> 0 < ChunkPlan(size)[k] <= BUFSIZE
    ensures forall k :: 0 <= k < |ChunkPlan(size)| - 1 ==> ChunkPlan(size)[k] == BUFSIZE
    decreases size
  {
    if size > 0 {
      var i := Min(BUFSIZE, size);
      ChunkPlanBounded(size - i);
      if i < BUFSIZE {
        assert ChunkPlan(size - i) == [];
      }
    }
  }

  /** The last chunk is the remainder `size % BUFSIZE` when there is one,
      and a full buffer otherwise. */
  lemma {:induction false} ChunkPlanLast(size: nat)
    requires size > 0
    ensures |ChunkPlan(size)| > 0
    ensures ChunkPlan(size)[|ChunkPlan(size)| - 1] == if size % BUFSIZE != 0 then size % BUFSIZE else BUFSIZE
    decreases size
  {
    if size > BUFSIZE {
      var rest := ChunkPlan(size - BUFSIZE);
      ChunkPlanLast(size - BUFSIZE);
      assert ChunkPlan(size) == [BUFSIZE] + rest;
      RemainderShift(size);
    } else {
      RemainderSmall(size);
    }
  }

  lemma RemainderShift(x: nat)
    requires x >= BUFSIZE
    ensures (x - BUFSIZE) % BUFSIZE == x % BUFSIZE
  {
  }

  lemma RemainderSmall(x: nat)
    requires 0 < x <= BUFSIZE
    ensures x % BUFSIZE == if x < BUFSIZE then x else 0
  {
  }

  /** There are ceil(size / BUFSIZE) chunks: none at all for an empty
      payload. */
  lemma {:induction false} ChunkPlanCount(size: nat)
    ensures |ChunkPlan(size)| == (size + BUFSIZE - 1) / BUFSIZE
    ensures size == 0 <==> ChunkPlan(size) == []
    decreases size
  {
    if size > BUFSIZE {
      ChunkPlanCount(size - BUFSIZE);
      assert (size + BUFSIZE - 1) / BUFSIZE == (size - BUFSIZE + BUFSIZE - 1) / BUFSIZE + 1;
    }
  }

  /** Chunk number `k` starts at byte k * BUFSIZE of the payload. */
  lemma {:induction false} ChunkStart(size: nat, k: nat)
    requires k <= |ChunkPlan(size)|
    ensures Sum(ChunkPlan(size)[..k]) == if k < |ChunkPlan(size)| then k * BUFSIZE else size
    decreases size
  {
    var plan := ChunkPlan(size);
    if k == |plan| {
      assert plan[..k] == plan;
      ChunkPlanSums(size);
    } else if k > 0 {
      var i := Min(BUFSIZE, size);
      assert plan[..k] == [i] + ChunkPlan(size - i)[..k - 1];
      ChunkStart(size - i, k - 1);
    }
  }

  /** A loop over `total` bytes with `size` bytes still to go has gone
      through the chunks `done` of ChunkPlan(total), and the rest of the
      plan is ChunkPlan(size). */
  predicate PlanSoFar(done: seq<nat>, size: nat, total: nat)
  {
    done + ChunkPlan(size) == ChunkPlan(total)
  }

  /** A loop that has gone through the chunks `done` and has `size` bytes
      still to go takes chunk `Min(BUFSIZE, size)` next: `done` grows by
      that chunk, and so does its sum. */
  lemma ChunkPlanAdvance(done: seq<nat>, size: nat, total: nat)
    requires size > 0 && PlanSoFar(done, size, total)
    ensures var i := Min(BUFSIZE, size);
      PlanSoFar(done + [i], size - i, total) && Sum(done + [i]) == Sum(done) + i
  {
    var i := Min(BUFSIZE, size);
    assert ChunkPlan(size) == [i] + ChunkPlan(size - i);
    assert (done + [i]) + ChunkPlan(size - i) == done + ([i] + ChunkPlan(size - i));
    SumAppend(done, [i]);
    assert Sum([i]) == i + Sum([]);
  }

  /** The chunk a loop takes after the chunks `done` is chunk number
      `|done|` of the plan. */
  lemma PlanSoFarNext(done: seq<nat>, size: nat, total: nat)
    requires size > 0 && PlanSoFar(done, size, total)
    ensures |done| < |ChunkPlan(total)| && ChunkPlan(total)[..|done|] == done
    ensures ChunkPlan(total)[|done|] == Min(BUFSIZE, size)
  {
    var i := Min(BUFSIZE, size);
    assert ChunkPlan(size) == [i] + ChunkPlan(size - i);
    assert ChunkPlan(total)[|done|] == ChunkPlan(size)[0];
  }

  /** `[start, end)` is the byte range of chunk number `m` of the plan for
      `total` bytes. */
  predicate ChunkOfPlan(total: nat, m: nat, start: nat, end: nat)
  {
    m < |ChunkPlan(total)| && start == Sum(ChunkPlan(total)[..m]) && end == start + ChunkPlan(total)[m]
  }

  /** Scenario: a 70 KiB payload is moved in seven full 10 KiB chunks. */
  lemma SeventyKiBInSevenChunks(size: nat)
    requires size == 70 * 1024
    ensures |ChunkPlan(size)| == 7
    ensures forall k :: 0 <= k < 7 ==> ChunkPlan(size)[k] == BUFSIZE
  {
    ChunkPlanCount(size);
    ChunkPlanBounded(size);
    ChunkPlanLast(size);
  }
}
