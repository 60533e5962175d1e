/** The write pass and the verify pass of flashcp as functions: what a run
    of each loop returns, chunk after chunk, for given descriptor contents
    and faults, and what that amounts to. Both passes start with the file
    and the device at offset 0 (just opened, or rewound), so payload byte
    `w` sits at offset `w` on both sides. */
module Passes {
  import opened Chunks
  import opened Outcomes
  import opened Descriptor
  import opened EraseRange

  /** What a pass sees of one descriptor: its bytes, the most bytes one
      read(2) or write(2) moves, and the offset where that I/O fails. */
  datatype Channel = Channel(data: seq<byte>, cap: nat, fault: Option<nat>)

  /** What read(2) or write(2) of `n` bytes at offset `at` returns; the
      data end is the end of the file or of the partition. */
  function Call(c: Channel, at: nat, n: nat): int
    requires at <= |c.data|
  {
    Transfer(at, n, |c.data| - at, c.cap, c.fault)
  }

  /** Moving `n` bytes from offset `at` in chunks of at most BUFSIZE bytes
      moves every chunk in full: the bytes are there, the largest chunk
      fits in one call, and no byte is at the fault. */
  predicate Whole(c: Channel, at: nat, n: nat)
  {
    at + n <= |c.data| && Min(BUFSIZE, n) <= c.cap && !FaultIn(c.fault, at, n)
  }

  /** The first chunk moves in full, and then so does the rest, exactly when
      the whole range does. */
  lemma WholeSplit(c: Channel, at: nat, n: nat)
    requires at <= |c.data| && n > 0
    ensures var i := Min(BUFSIZE, n);
      Whole(c, at, n) <==> Call(c, at, i) == i && Whole(c, at + i, n - i)
  {
  }

  lemma SliceSplit(s: seq<byte>, lo: nat, mid: nat, hi: nat)
    requires lo <= mid <= hi <= |s|
    ensures s[lo..hi] == s[lo..mid] + s[mid..hi]
  {
  }

  /** A chunk boundary after a full chunk is a chunk boundary. */
  lemma AlignedStep(x: nat)
    requires x >= BUFSIZE && (x - BUFSIZE) % BUFSIZE == 0
    ensures x % BUFSIZE == 0
  {
  }

  // ---------------------------------------------------------------------
  // The write pass

  /** What the write loop reports when chunk `[w, w + i)` fails, given
      what read(2) (`rr`) and write(2) (`wr`) return for it. */
  function WriteFailure(rr: int, wr: int, w: nat, i: nat, total: nat): Failure
  {
    if rr < 0 then ReadError(Source)
    else if rr < i then ShortRead(Source)
    else if wr < 0 then WriteError(w, w + i)
    else ShortWrite(w, w + i, w + wr, total)
  }

  /** How many bytes of a failing chunk of `i` bytes reach the flash: those
      of a short write, none otherwise. */
  function Landed(rr: int, wr: int, i: nat): nat
  {
    if rr == i && wr >= 0 then wr else 0
  }

  /** How the write pass ends: the outcome, and how many payload bytes
      (from the start) reached the flash. */
  datatype Finish = Finish(out: Outcome, landed: nat)

  /** The write loop from payload byte `w` on: the file `src` read and the
      device `dev` written, chunk after chunk, until `total` bytes are
      written or a chunk fails. Which bytes a call moves does not depend on
      what the flash holds, only on its size, so `dev.data` stands for the
      flash before the pass. */
  function WriteFrom(src: Channel, dev: Channel, w: nat, total: nat): (r: Finish)
    requires w <= total && w <= |src.data| && w <= |dev.data|
    ensures w <= r.landed <= total && r.landed <= |src.data| && r.landed <= |dev.data|
    decreases total - w, 1
  {
    if w == total then Finish(Success, w) else WriteChunk(src, dev, w, total)
  }

  /** One pass of the write loop's body, on chunk `[w, w + i)`: read(2)
      from the file, write(2) to the device, and on to the next chunk when
      both move the whole chunk. */
  function WriteChunk(src: Channel, dev: Channel, w: nat, total: nat): (r: Finish)
    requires w < total && w <= |src.data| && w <= |dev.data|
    ensures w <= r.landed <= total && r.landed <= |src.data| && r.landed <= |dev.data|
    decreases total - w, 0
  {
    var i := Min(BUFSIZE, total - w);
    var rr, wr := Call(src, w, i), Call(dev, w, i);
    if rr == i && wr == i then WriteFrom(src, dev, w + i, total)
    else Finish(Fatal(WriteFailure(rr, wr, w, i, total)), w + Landed(rr, wr, i))
  }

  /** One chunk of the write pass: it goes on after a chunk that moves in
      full and ends at one that does not. */
  lemma WriteFromStep(src: Channel, dev: Channel, w: nat, total: nat)
    requires w < total && w <= |src.data| && w <= |dev.data|
    ensures var i := Min(BUFSIZE, total - w);
      var rr, wr := Call(src, w, i), Call(dev, w, i);
      && (rr == i && wr == i ==> WriteFrom(src, dev, w, total) == WriteFrom(src, dev, w + i, total))
      && (rr != i || wr != i ==>
            WriteFrom(src, dev, w, total) == Finish(Fatal(WriteFailure(rr, wr, w, i, total)), w + Landed(rr, wr, i)))
  {
    assert WriteFrom(src, dev, w, total) == WriteChunk(src, dev, w, total);
  }

  /** When every chunk moves in full on both sides, the write pass lands
      the whole payload and succeeds. */
  lemma {:induction false} WriteFromWhole(src: Channel, dev: Channel, w: nat, total: nat)
    requires w <= total && w <= |src.data| && w <= |dev.data|
    requires Whole(src, w, total - w) && Whole(dev, w, total - w)
    ensures WriteFrom(src, dev, w, total) == Finish(Success, total)
    decreases total - w
  {
    if w < total {
      WholeSplit(src, w, total - w);
      WholeSplit(dev, w, total - w);
      WriteFromStep(src, dev, w, total);
      WriteFromWhole(src, dev, w + Min(BUFSIZE, total - w), total);
    }
  }

  /** When some chunk cannot move in full on one side, the write pass
      fails. */
  lemma {:induction false} WriteFromNotWhole(src: Channel, dev: Channel, w: nat, total: nat)
    requires w <= total && w <= |src.data| && w <= |dev.data|
    requires !(Whole(src, w, total - w) && Whole(dev, w, total - w))
    ensures WriteFrom(src, dev, w, total).out.Fatal?
    decreases total - w
  {
    var i := Min(BUFSIZE, total - w);
    WholeSplit(src, w, total - w);
    WholeSplit(dev, w, total - w);
    WriteFromStep(src, dev, w, total);
    if Call(src, w, i) == i && Call(dev, w, i) == i {
      WriteFromNotWhole(src, dev, w + i, total);
    }
  }

  /** The write pass succeeds exactly when reading the payload from the
      file and writing it to the device move every chunk in full; it then
      has landed the whole payload. */
  lemma WriteFromSucceeds(src: Channel, dev: Channel, w: nat, total: nat)
    requires w <= total && w <= |src.data| && w <= |dev.data|
    ensures WriteFrom(src, dev, w, total).out.Success?
            <==> Whole(src, w, total - w) && Whole(dev, w, total - w)
    ensures WriteFrom(src, dev, w, total).out.Success? ==> WriteFrom(src, dev, w, total).landed == total
  {
    if Whole(src, w, total - w) && Whole(dev, w, total - w) {
      WriteFromWhole(src, dev, w, total);
    } else {
      WriteFromNotWhole(src, dev, w, total);
    }
  }

  /** The write pass succeeds or reports a failure of safe_read or of
      write(2). */
  lemma WriteFromExits(src: Channel, dev: Channel, w: nat, total: nat)
    requires w <= total && w <= |src.data| && w <= |dev.data|
    ensures var out := WriteFrom(src, dev, w, total).out;
      out.Success? || (out.Fatal? && PassFailure(out.failure) && !out.failure.SeekError? && !out.failure.Mismatch?)
  {
    if !WriteFrom(src, dev, w, total).out.Success? {
      WriteFromStops(src, dev, w, total);
    }
  }

  /** The write pass goes through the chunks of ChunkPlan(total) in order,
      from the chunks `done` already behind it: a write that fails or falls
      short does so on one chunk of the plan, and reports its range. */
  lemma {:induction false} WriteFromAlongPlan(src: Channel, dev: Channel, w: nat, total: nat, done: seq<nat>)
    requires w <= total && w <= |src.data| && w <= |dev.data|
    requires PlanSoFar(done, total - w, total) && Sum(done) == w
    ensures var out := WriteFrom(src, dev, w, total).out;
      out.Fatal? && (out.failure.WriteError? || out.failure.ShortWrite?) ==>
        exists m :: |done| <= m && ChunkOfPlan(total, m, out.failure.start, out.failure.end)
    decreases total - w
  {
    if w < total {
      var i := Min(BUFSIZE, total - w);
      ChunkPlanAdvance(done, total - w, total);
      PlanSoFarNext(done, total - w, total);
      WriteFromStep(src, dev, w, total);
      if Call(src, w, i) == i && Call(dev, w, i) == i {
        WriteFromAlongPlan(src, dev, w + i, total, done + [i]);
      } else {
        assert ChunkOfPlan(total, |done|, w, w + i);
      }
    }
  }

  /** A write or short write the write pass reports is on a chunk of
      ChunkPlan(total): chunk number m, from byte Sum(plan[..m]) on. */
  lemma WriteFromFollowsPlan(src: Channel, dev: Channel, total: nat)
    requires total <= |src.data| && total <= |dev.data|
    ensures var out := WriteFrom(src, dev, 0, total).out;
      out.Fatal? && (out.failure.WriteError? || out.failure.ShortWrite?) ==>
        exists m :: ChunkOfPlan(total, m, out.failure.start, out.failure.end)
  {
    assert PlanSoFar([], total, total) by {
      assert [] + ChunkPlan(total) == ChunkPlan(total);
    }
    WriteFromAlongPlan(src, dev, 0, total, []);
  }

  /** Every chunk of the write pass from `w` up to `v` moved in full, and
      `v` is where a chunk starts. */
  ghost predicate CleanUpTo(src: Channel, dev: Channel, w: nat, v: nat)
  {
    w <= v && (v - w) % BUFSIZE == 0 && Whole(src, w, v - w) && Whole(dev, w, v - w)
  }

  /** The chunk at payload offset `v` fails: the pass reports that chunk,
      and the payload up to `v`, plus the bytes a short write landed, is on
      the flash. */
  ghost predicate FailsAt(src: Channel, dev: Channel, total: nat, v: nat, r: Finish)
  {
    && v < total && v <= |src.data| && v <= |dev.data|
    && var i := Min(BUFSIZE, total - v);
       var rr, wr := Call(src, v, i), Call(dev, v, i);
       && (rr != i || wr != i)
       && r.out == Fatal(WriteFailure(rr, wr, v, i, total))
       && r.landed == v + Landed(rr, wr, i)
  }

  /** A write pass that fails stops at one chunk: every chunk before it
      moved in full, and that chunk did not. */
  lemma {:induction false} WriteFromStops(src: Channel, dev: Channel, w: nat, total: nat)
    requires w <= total && w <= |src.data| && w <= |dev.data|
    requires !WriteFrom(src, dev, w, total).out.Success?
    ensures exists v :: CleanUpTo(src, dev, w, v) && FailsAt(src, dev, total, v, WriteFrom(src, dev, w, total))
    decreases total - w
  {
    var r := WriteFrom(src, dev, w, total);
    var i := Min(BUFSIZE, total - w);
    WriteFromStep(src, dev, w, total);
    if Call(src, w, i) == i && Call(dev, w, i) == i {
      WriteFromStops(src, dev, w + i, total);
      var v :| CleanUpTo(src, dev, w + i, v) && FailsAt(src, dev, total, v, r);
      CleanEarlier(src, dev, w, total, v);
    } else {
      assert CleanUpTo(src, dev, w, w) && FailsAt(src, dev, total, w, r);
    }
  }

  /** One full chunk before a clean run is part of that run. */
  lemma CleanEarlier(src: Channel, dev: Channel, w: nat, total: nat, v: nat)
    requires w < total && w <= |src.data| && w <= |dev.data|
    requires Call(src, w, Min(BUFSIZE, total - w)) == Min(BUFSIZE, total - w)
    requires Call(dev, w, Min(BUFSIZE, total - w)) == Min(BUFSIZE, total - w)
    requires v < total && CleanUpTo(src, dev, w + Min(BUFSIZE, total - w), v)
    ensures CleanUpTo(src, dev, w, v)
  {
    AlignedStep(v - w);
    WholeSplit(src, w, v - w);
    WholeSplit(dev, w, v - w);
  }

  // ---------------------------------------------------------------------
  // The verify pass

  /** What one pass of the verify loop's body returns: the safe_read of
      the file, then of the device, then the comparison of chunk
      `[w, w + i)`, which sits at file offset `p` and device offset `q`. */
  function CompareFailure(ra: int, rb: int, i: nat, w: nat, a: seq<byte>, p: nat, b: seq<byte>, q: nat): (r: Outcome)
    requires ra == i ==> p + i <= |a|
    requires rb == i ==> q + i <= |b|
    ensures r.Success? || r.Fatal?
    ensures r.Fatal? ==> r.failure.ExitCode() in {12, 13, 23}
    ensures r.Fatal? && r.failure.Mismatch? ==> r.failure == Mismatch(w, w + i)
  {
    if ra != i then Fatal(if ra < 0 then ReadError(Source) else ShortRead(Source))
    else if rb != i then Fatal(if rb < 0 then ReadError(Flash) else ShortRead(Flash))
    else if a[p..p + i] != b[q..q + i] then Fatal(Mismatch(w, w + i))
    else Success
  }

  /** The verify loop from payload byte `w` on: the file `a` against the
      device `b`, chunk after chunk, until `total` bytes compared equal or a
      chunk fails. */
  function VerifyFrom(a: Channel, b: Channel, w: nat, total: nat): Outcome
    requires w <= total && w <= |a.data| && w <= |b.data|
    decreases total - w, 1
  {
    if w == total then Success else VerifyChunk(a, b, w, total)
  }

  /** One pass of the verify loop's body, on chunk `[w, w + i)`: both
      reads and the comparison, and on to the next chunk when they all
      succeed. */
  function VerifyChunk(a: Channel, b: Channel, w: nat, total: nat): Outcome
    requires w < total && w <= |a.data| && w <= |b.data|
    decreases total - w, 0
  {
    var i := Min(BUFSIZE, total - w);
    var ra, rb := Call(a, w, i), Call(b, w, i);
    if ra == i && rb == i && a.data[w..w + i] == b.data[w..w + i] then VerifyFrom(a, b, w + i, total)
    else CompareFailure(ra, rb, i, w, a.data, w, b.data, w)
  }

  /** Two pairs of rows of equal lengths concatenate to equal rows exactly
      when each pair is equal. */
  lemma EqualIffPartsEqual(x1: seq<byte>, x2: seq<byte>, y1: seq<byte>, y2: seq<byte>)
    requires |x1| == |y1|
    ensures x1 + x2 == y1 + y2 <==> x1 == y1 && x2 == y2
  {
    if x1 + x2 == y1 + y2 {
      assert x1 == (x1 + x2)[..|x1|] && y1 == (y1 + y2)[..|y1|];
      assert x2 == (x1 + x2)[|x1|..] && y2 == (y1 + y2)[|y1|..];
    }
  }

  /** Two rows are equal on `[lo, hi)` exactly when they are equal on
      `[lo, mid)` and on `[mid, hi)`. */
  lemma EqualIffChunksEqual(x: seq<byte>, y: seq<byte>, lo: nat, mid: nat, hi: nat)
    requires lo <= mid <= hi <= |x| && hi <= |y|
    ensures x[lo..hi] == y[lo..hi] <==> x[lo..mid] == y[lo..mid] && x[mid..hi] == y[mid..hi]
  {
    SliceSplit(x, lo, mid, hi);
    SliceSplit(y, lo, mid, hi);
    EqualIffPartsEqual(x[lo..mid], x[mid..hi], y[lo..mid], y[mid..hi]);
  }

  /** The verify pass succeeds exactly when both sides read in full and
      the file's payload equals the flash's. */
  lemma {:induction false} VerifyFromSucceeds(a: Channel, b: Channel, w: nat, total: nat)
    requires w <= total && w <= |a.data| && w <= |b.data|
    ensures VerifyFrom(a, b, w, total) == Success
            <==> Whole(a, w, total - w) && Whole(b, w, total - w) && a.data[w..total] == b.data[w..total]
    decreases total - w
  {
    if w == total {
      assert a.data[w..total] == [] == b.data[w..total];
    } else {
      var i := Min(BUFSIZE, total - w);
      WholeSplit(a, w, total - w);
      WholeSplit(b, w, total - w);
      VerifyFromStep(a, b, w, total);
      if Call(a, w, i) == i && Call(b, w, i) == i {
        VerifyFromSucceeds(a, b, w + i, total);
        if Whole(a, w + i, total - w - i) && Whole(b, w + i, total - w - i) {
          EqualIffChunksEqual(a.data, b.data, w, w + i, total);
        }
      }
    }
  }

  /** One chunk of the verify pass: it goes on after a chunk that both
      sides read in full and that matches, and ends at any other. */
  lemma VerifyFromStep(a: Channel, b: Channel, w: nat, total: nat)
    requires w < total && w <= |a.data| && w <= |b.data|
    ensures var i := Min(BUFSIZE, total - w);
      var ra, rb := Call(a, w, i), Call(b, w, i);
      && (ra == i ==> w + i <= |a.data|) && (rb == i ==> w + i <= |b.data|)
      && VerifyFrom(a, b, w, total)
         == if CompareFailure(ra, rb, i, w, a.data, w, b.data, w).Success? then VerifyFrom(a, b, w + i, total)
            else CompareFailure(ra, rb, i, w, a.data, w, b.data, w)
  {
    assert VerifyFrom(a, b, w, total) == VerifyChunk(a, b, w, total);
  }

  /** When both sides read in full, the verify pass can only succeed or
      report a mismatch. */
  lemma {:induction false} VerifyFromOnlyMismatches(a: Channel, b: Channel, w: nat, total: nat)
    requires w <= total && w <= |a.data| && w <= |b.data|
    requires Whole(a, w, total - w) && Whole(b, w, total - w)
    ensures var out := VerifyFrom(a, b, w, total);
      out.Success? || (out.Fatal? && out.failure.Mismatch?)
    decreases total - w
  {
    if w < total {
      var i := Min(BUFSIZE, total - w);
      WholeSplit(a, w, total - w);
      WholeSplit(b, w, total - w);
      VerifyFromStep(a, b, w, total);
      if a.data[w..w + i] == b.data[w..w + i] {
        VerifyFromOnlyMismatches(a, b, w + i, total);
      }
    }
  }

  /** The verify pass succeeds or reports a failure of safe_read or a
      mismatch. */
  lemma {:induction false} VerifyFromExits(a: Channel, b: Channel, w: nat, total: nat)
    requires w <= total && w <= |a.data| && w <= |b.data|
    ensures var out := VerifyFrom(a, b, w, total);
      out.Success? || (out.Fatal? && (out.failure.ReadError? || out.failure.ShortRead? || out.failure.Mismatch?))
    decreases total - w
  {
    if w < total {
      var i := Min(BUFSIZE, total - w);
      VerifyFromStep(a, b, w, total);
      if CompareFailure(Call(a, w, i), Call(b, w, i), i, w, a.data, w, b.data, w).Success? {
        VerifyFromExits(a, b, w + i, total);
      }
    }
  }

  /** A reported mismatch `[s, e)` is a whole chunk of the payload: it
      starts a multiple of BUFSIZE bytes after `w`, holds a differing byte,
      and every byte before it matched. */
  lemma {:induction false} VerifyFromReportsFirstMismatch(a: Channel, b: Channel, w: nat, total: nat, s: nat, e: nat)
    requires w <= total && w <= |a.data| && w <= |b.data|
    requires VerifyFrom(a, b, w, total) == Fatal(Mismatch(s, e))
    ensures w <= s < total && (s - w) % BUFSIZE == 0 && e == s + Min(BUFSIZE, total - s)
    ensures e <= |a.data| && e <= |b.data|
    ensures a.data[w..s] == b.data[w..s] && a.data[s..e] != b.data[s..e]
    decreases total - w
  {
    var i := Min(BUFSIZE, total - w);
    var ra, rb := Call(a, w, i), Call(b, w, i);
    VerifyFromStep(a, b, w, total);
    if ra == i && rb == i && a.data[w..w + i] == b.data[w..w + i] {
      VerifyFromReportsFirstMismatch(a, b, w + i, total, s, e);
      AlignedStep(s - w);
      SliceSplit(a.data, w, w + i, s);
      SliceSplit(b.data, w, w + i, s);
    } else {
      assert a.data[w..s] == [] == b.data[w..s];
    }
  }

  /** The verify pass goes through the chunks of ChunkPlan(total) in order,
      from the chunks `done` already behind it: a mismatch it reports is
      the range of one chunk of the plan. */
  lemma {:induction false} VerifyFromAlongPlan(a: Channel, b: Channel, w: nat, total: nat, done: seq<nat>)
    requires w <= total && w <= |a.data| && w <= |b.data|
    requires PlanSoFar(done, total - w, total) && Sum(done) == w
    ensures var out := VerifyFrom(a, b, w, total);
      out.Fatal? && out.failure.Mismatch? ==>
        exists m :: |done| <= m && ChunkOfPlan(total, m, out.failure.start, out.failure.end)
    decreases total - w
  {
    if w < total {
      var i := Min(BUFSIZE, total - w);
      ChunkPlanAdvance(done, total - w, total);
      PlanSoFarNext(done, total - w, total);
      VerifyFromStep(a, b, w, total);
      if CompareFailure(Call(a, w, i), Call(b, w, i), i, w, a.data, w, b.data, w).Success? {
        VerifyFromAlongPlan(a, b, w + i, total, done + [i]);
      } else {
        assert ChunkOfPlan(total, |done|, w, w + i);
      }
    }
  }

  /** A mismatch the verify pass reports is a chunk of ChunkPlan(total):
      chunk number m, from byte Sum(plan[..m]) on. */
  lemma VerifyFromFollowsPlan(a: Channel, b: Channel, total: nat)
    requires total <= |a.data| && total <= |b.data|
    ensures var out := VerifyFrom(a, b, 0, total);
      out.Fatal? && out.failure.Mismatch? ==> exists m :: ChunkOfPlan(total, m, out.failure.start, out.failure.end)
  {
    assert PlanSoFar([], total, total) by {
      assert [] + ChunkPlan(total) == ChunkPlan(total);
    }
    VerifyFromAlongPlan(a, b, 0, total, []);
  }

  /** Round trip with one byte flipped: when the file and the flash read in
      full and differ in byte `j` only, the verify pass reports the chunk
      that holds byte `j`. */
  lemma VerifyFromFindsFlippedByte(a: Channel, b: Channel, total: nat, j: nat)
    requires total <= |a.data| && total <= |b.data| && Whole(a, 0, total) && Whole(b, 0, total)
    requires j < total && a.data[j] != b.data[j]
    requires forall k :: 0 <= k < total && k != j ==> a.data[k] == b.data[k]
    ensures var s := j / BUFSIZE * BUFSIZE;
      VerifyFrom(a, b, 0, total) == Fatal(Mismatch(s, s + Min(BUFSIZE, total - s)))
  {
    assert a.data[0..total] != b.data[0..total] by {
      assert a.data[0..total][j] != b.data[0..total][j];
    }
    VerifyFromSucceeds(a, b, 0, total);
    VerifyFromOnlyMismatches(a, b, 0, total);
    var out := VerifyFrom(a, b, 0, total);
    var s, e := out.failure.start, out.failure.end;
    VerifyFromReportsFirstMismatch(a, b, 0, total, s, e);
    ChunkDiffers(a.data, b.data, s, e);
    var i :| s <= i < e && a.data[i] != b.data[i];
    assert i == j;
    ChunkOfByte(j, s);
  }

  /** The chunk starting at a multiple `s` of BUFSIZE that holds byte `j`
      starts at j / BUFSIZE * BUFSIZE. */
  lemma ChunkOfByte(j: nat, s: nat)
    requires s % BUFSIZE == 0 && s <= j < s + BUFSIZE
    ensures j / BUFSIZE * BUFSIZE == s
  {
    DivMod(s, BUFSIZE);
    ModUnique(j, BUFSIZE, s / BUFSIZE, j - s);
  }

  lemma ChunkDiffers(x: seq<byte>, y: seq<byte>, s: nat, e: nat)
    requires s <= e <= |x| && e <= |y| && x[s..e] != y[s..e]
    ensures exists i :: s <= i < e && x[i] != y[i]
  {
  }
}
