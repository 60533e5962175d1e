/** The steps of flashcp's copy pipeline: reading with safe_read, rewinding
    with safe_rewind, the two erase policies, the write loop and the verify
    loop.  Each step returns Success or the Fatal condition flashcp exits
    with at that point. */
module Steps {
  import opened EraseRange
  import opened Chunks
  import opened Outcomes
  import opened Descriptor
  import opened Passes

  /** safe_read: read(2) exactly `count` bytes, or exit 12 when read(2)
      fails and exit 13 when it returns fewer bytes. */
  method SafeRead(h: Fd, which: Origin, buf: array<byte>, count: nat) returns (out: Outcome)
    requires h.Valid() && count <= buf.Length
    modifies h`pos, buf
    ensures h.Valid()
    ensures out.Success? <==> old(h.ReadResult(count)) == count
    ensures !out.Success? ==> out == Fatal(if old(h.ReadResult(count)) < 0 then ReadError(which) else ShortRead(which))
    ensures out.Success? ==> h.pos == old(h.pos) + count && buf[..count] == h.data[old(h.pos)..h.pos]
  {
    var result := h.Read(buf, count);
    if result != count {
      if result < 0 {
        return Fatal(ReadError(which));
      }
      return Fatal(ShortRead(which));
    }
    return Success;
  }

  /** safe_rewind: seek back to offset 0, or exit 14. */
  method SafeRewind(h: Fd, which: Origin) returns (out: Outcome)
    requires h.Valid()
    modifies h`pos
    ensures h.Valid()
    ensures out == if h.seekFails then Fatal(SeekError(which)) else Success
    ensures h.pos == if h.seekFails then old(h.pos) else 0
  {
    var ok := h.Rewind();
    if !ok {
      return Fatal(SeekError(which));
    }
    return Success;
  }

  // ---------------------------------------------------------------------
  // Erasing

  /** The silent policy: one MEMERASE over `[0, length)`, exit 20 when it
      fails. */
  method EraseSilent(dev: Fd, length: nat) returns (out: Outcome)
    requires dev.Valid() && dev.info.Some?
    modifies dev`data, dev`erases
    ensures dev.Valid()
    ensures dev.erases == old(dev.erases) + [Span(0, length)]
    ensures out.Success? <==> old(dev.CanErase(0, length))
    ensures out.Success? ==> dev.data == Erased(old(dev.data), 0, length)
    ensures !out.Success? ==> out == Fatal(EraseError(0, length)) && dev.data == old(dev.data)
  {
    var ok := dev.Erase(0, length);
    if !ok {
      return Fatal(EraseError(0, length));
    }
    return Success;
  }

  /** Each of the first `n` blocks of `b` bytes can be erased on its own. */
  ghost predicate BlocksErasable(size: nat, bad: set<nat>, n: nat, b: nat)
  {
    forall k :: 0 <= k < n ==> Erasable(size, bad, k * b, b)
  }

  /** Two adjacent erasable ranges make one erasable range. */
  lemma ErasableUnion(size: nat, bad: set<nat>, start: nat, a: nat, c: nat)
    requires Erasable(size, bad, start, a) && Erasable(size, bad, start + a, c)
    ensures Erasable(size, bad, start, a + c)
  {
  }

  /** Blocks that can each be erased make a range that can be erased. */
  lemma {:induction false} BlocksMakeErasableRange(size: nat, bad: set<nat>, blocks: nat, b: nat)
    requires BlocksErasable(size, bad, blocks, b)
    ensures Erasable(size, bad, 0, blocks * b)
  {
    if blocks > 0 {
      BlocksMakeErasableRange(size, bad, blocks - 1, b);
      assert (blocks - 1) * b + b == blocks * b;
      ErasableUnion(size, bad, 0, (blocks - 1) * b, b);
    }
  }

  /** The range `[0, blocks * b)` can be erased in one command exactly when
      each of its blocks can be erased on its own. */
  lemma BlocksErasableIffRange(size: nat, bad: set<nat>, blocks: nat, b: nat)
    requires b > 0
    ensures BlocksErasable(size, bad, blocks, b) <==> Erasable(size, bad, 0, blocks * b)
  {
    if BlocksErasable(size, bad, blocks, b) {
      BlocksMakeErasableRange(size, bad, blocks, b);
    }
    if Erasable(size, bad, 0, blocks * b) {
      forall k | 0 <= k < blocks ensures Erasable(size, bad, k * b, b) {
        MulMonotone(k + 1, blocks, b);
        assert (k + 1) * b == k * b + b;
      }
    }
  }

  /** The verbose policy: `length / erasesize` MEMERASE commands of one
      block each, block by block from offset 0, exit 19 at the first one
      that fails.  A negative block count (see VerboseBlockCount) issues
      none. */
  method EraseVerbose(dev: Fd, length: nat) returns (out: Outcome)
    requires dev.Valid() && dev.info.Some? && UniformGeometry(dev.info.value)
    modifies dev`data, dev`erases
    ensures dev.Valid()
    ensures var b := dev.info.value.erasesize;
      var blocks := VerboseBlockCount(length, b);
      && (blocks < 0 ==> out.Success? && dev.data == old(dev.data) && dev.erases == old(dev.erases))
      && (blocks >= 0 ==>
            && (out.Success? <==> BlocksErasable(|old(dev.data)|, dev.badBlocks, blocks, b))
            && (out.Success? ==> blocks * b <= |old(dev.data)| && dev.data == Erased(old(dev.data), 0, blocks * b)
                                 && dev.erases == old(dev.erases) + BlockSpans(blocks, b))
            && (!out.Success? ==> exists k :: 0 <= k < blocks && FailedAtBlock(out, k, b, dev.badBlocks, old(dev.data), dev.data, old(dev.erases), dev.erases)))
    ensures !out.Hangs?
  {
    var b := dev.info.value.erasesize;
    var blocks := VerboseBlockCount(length, b);
    ghost var d0, e0 := dev.data, dev.erases;
    ghost var done: nat := 0;
    assert Erased(d0, 0, 0) == d0;
    assert e0 + BlockSpans(0, b) == e0;
    var start := 0;
    var i := 1;
    while i <= blocks
      invariant i == done + 1 && (blocks >= 0 ==> done <= blocks) && (blocks < 0 ==> done == 0)
      invariant start == done * b && start <= |d0| && |dev.data| == |d0|
      invariant BlocksErasable(|d0|, dev.badBlocks, done, b)
      invariant dev.data == Erased(d0, 0, start)
      invariant dev.erases == e0 + BlockSpans(done, b)
      invariant dev.Valid()
    {
      var ok := dev.Erase(start, b);
      BlockSpansSnoc(done, b);
      if !ok {
        assert FailedAtBlock(Fatal(BlockEraseError(start, start + b)), done, b, dev.badBlocks, d0, dev.data, e0, dev.erases);
        return Fatal(BlockEraseError(start, start + b));
      }
      ErasedConcat(d0, 0, start, b);
      assert start + b == (done + 1) * b;
      start := start + b;
      i := i + 1;
      done := done + 1;
    }
    return Success;
  }

  /** The verbose policy stopped at block `k`, the first block that cannot
      be erased: blocks before it could be and were erased, and exit 19
      reports the range of block `k`. */
  ghost predicate FailedAtBlock(out: Outcome, k: nat, b: nat, bad: set<nat>, d0: seq<byte>, d: seq<byte>,
                                e0: seq<Span>, e: seq<Span>)
  {
    && out == Fatal(BlockEraseError(k * b, k * b + b))
    && !Erasable(|d0|, bad, k * b, b)
    && BlocksErasable(|d0|, bad, k, b)
    && k * b <= |d0| && d == Erased(d0, 0, k * b)
    && e == e0 + BlockSpans(k + 1, b)
  }

  /** The block that exit 19 reports is the first bad one: no block before
      it is bad. */
  lemma FailedAtFirstBadBlock(out: Outcome, k: nat, b: nat, bad: set<nat>, d0: seq<byte>, d: seq<byte>,
                              e0: seq<Span>, e: seq<Span>, j: nat)
    requires FailedAtBlock(out, k, b, bad, d0, d, e0, e) && !Erasable(|d0|, bad, j * b, b)
    ensures k <= j && out.failure.start == k * b
  {
  }

  // ---------------------------------------------------------------------
  // Writing

  /** The write(2) half of the write loop's body: chunk `[w, w + i)` from
      the buffer to the device at offset `w`, a failure when fewer than `i`
      bytes go, and the bytes that did go programmed into the flash. `D`
      is the device as the write pass sees it. */
  method PutChunk(dev: Fd, src: array<byte>, i: nat, w: nat, total: nat,
                  ghost D: Channel, ghost d0: seq<byte>, ghost f: seq<byte>)
    returns (out: Outcome, ghost landed: nat)
    requires dev.Valid() && dev.info.Some? && i <= src.Length && dev.pos == w
    requires |D.data| == |dev.data| && D.cap == dev.cap && D.fault == dev.writeFault
    requires w + i <= |f| && |d0| == |dev.data| && src[..i] == f[w..w + i] && dev.data == Program(d0, 0, f[..w])
    modifies dev`data, dev`pos
    ensures dev.Valid() && |dev.data| == |old(dev.data)|
    ensures var wr := Call(D, w, i);
      && (out.Success? <==> wr == i)
      && (wr < 0 ==> out == Fatal(WriteError(w, w + i)) && landed == 0)
      && (0 <= wr ==> landed == wr)
      && (0 <= wr < i ==> out == Fatal(ShortWrite(w, w + i, w + wr, total)))
    ensures landed <= i && w + landed <= |dev.data|
    ensures dev.data == Program(d0, 0, f[..w + landed])
    ensures out.Success? ==> dev.pos == w + i
  {
    ghost var c := src[..i];
    var result := dev.Write(src, i);
    if result < 0 {
      return Fatal(WriteError(w, w + i)), 0;
    }
    assert src[..result] == c[..result];
    ProgramAppend(d0, f, w, c, result);
    if result != i {
      return Fatal(ShortWrite(w, w + i, w + result, total)), result;
    }
    return Success, i;
  }

  /** One pass of the write loop's body: safe_read of chunk `[w, w + i)`
      from the file, then write(2) of it to the device, both at offset `w`.
      It does what WriteFrom says of that chunk, with `S` and `D` the file
      and the device as the pass sees them; the device then holds the chunk
      ANDed in, or after a failure the bytes that landed. */
  method CopyChunk(fil: Fd, dev: Fd, src: array<byte>, i: nat, w: nat, total: nat,
                   ghost S: Channel, ghost D: Channel, ghost d0: seq<byte>)
    returns (out: Outcome, ghost landed: nat)
    requires fil != dev && fil.Valid() && dev.Valid() && dev.info.Some? && i <= src.Length
    requires w < total && i == Min(BUFSIZE, total - w) && fil.pos == w && dev.pos == w
    requires S == Channel(fil.data, fil.cap, fil.readFault)
    requires |D.data| == |dev.data| && D.cap == dev.cap && D.fault == dev.writeFault
    requires |d0| == |dev.data| && w <= |fil.data| && dev.data == Program(d0, 0, fil.data[..w])
    modifies fil`pos, dev`data, dev`pos, src
    ensures fil.Valid() && dev.Valid() && |dev.data| == |old(dev.data)|
    ensures w + landed <= |fil.data| && w + landed <= |dev.data|
    ensures dev.data == Program(d0, 0, fil.data[..w + landed])
    ensures out.Success? ==> landed == i && fil.pos == w + i && dev.pos == w + i
    ensures out.Success? ==> WriteFrom(S, D, w, total) == WriteFrom(S, D, w + i, total)
    ensures !out.Success? ==> WriteFrom(S, D, w, total) == Finish(out, w + landed)
  {
    WriteFromStep(S, D, w, total);
    out := SafeRead(fil, Source, src, i);
    if !out.Success? {
      return out, 0;
    }
    out, landed := PutChunk(dev, src, i, w, total, D, d0, fil.data);
  }

  /** The write loop: `total` bytes from the start of the file to the
      start of the device, one chunk per safe_read and write(2), as
      WriteFrom describes (see Passes for what that run amounts to); the
      flash ends up with the landed part of the payload programmed. */
  method WriteLoop(fil: Fd, dev: Fd, src: array<byte>, total: nat) returns (out: Outcome)
    requires fil != dev && fil.Valid() && dev.Valid() && dev.info.Some? && src.Length == BUFSIZE
    requires fil.pos == 0 && dev.pos == 0
    modifies fil`pos, dev`data, dev`pos, src
    ensures fil.Valid() && dev.Valid()
    ensures var r := WriteFrom(Channel(fil.data, fil.cap, fil.readFault), Channel(old(dev.data), dev.cap, dev.writeFault), 0, total);
      out == r.out && dev.data == Program(old(dev.data), 0, fil.data[..r.landed])
    ensures out.Success? ==> fil.pos == total && dev.pos == total
  {
    ghost var d0, f := dev.data, fil.data;
    ghost var S, D := Channel(f, fil.cap, fil.readFault), Channel(d0, dev.cap, dev.writeFault);
    ghost var goal := WriteFrom(S, D, 0, total);
    assert f[..0] == [];
    var size: nat := total;
    var i: nat := BUFSIZE;
    var written: nat := 0;
    while size != 0
      invariant written + size == total
      invariant size > 0 ==> i == BUFSIZE
      invariant fil.Valid() && dev.Valid()
      invariant fil.pos == written && dev.pos == written && written <= |f|
      invariant dev.data == Program(d0, 0, f[..written])
      invariant goal == WriteFrom(S, D, written, total)
    {
      if size < BUFSIZE {
        i := size;
      }
      assert i == Min(BUFSIZE, size);
      var r, landed := CopyChunk(fil, dev, src, i, written, total, S, D, d0);
      if !r.Success? {
        return r;
      }
      written := written + i;
      size := size - i;
    }
    return Success;
  }

  // ---------------------------------------------------------------------
  // Verifying

  /** One pass of the verify loop's body: safe_read of chunk `[w, w + i)`
      from the file and from the device, then memcmp; it does what
      VerifyFrom says of that chunk. */
  method CompareChunk(fil: Fd, dev: Fd, src: array<byte>, dest: array<byte>, i: nat, w: nat, total: nat,
                      ghost A: Channel, ghost B: Channel) returns (out: Outcome)
    requires fil != dev && src != dest && fil.Valid() && dev.Valid() && i <= src.Length && i <= dest.Length
    requires w < total && i == Min(BUFSIZE, total - w) && fil.pos == w && dev.pos == w
    requires A == Channel(fil.data, fil.cap, fil.readFault) && B == Channel(dev.data, dev.cap, dev.readFault)
    modifies fil`pos, dev`pos, src, dest
    ensures fil.Valid() && dev.Valid()
    ensures out.Success? ==> fil.pos == w + i && dev.pos == w + i
    ensures out.Success? ==> VerifyFrom(A, B, w, total) == VerifyFrom(A, B, w + i, total)
    ensures !out.Success? ==> VerifyFrom(A, B, w, total) == out
  {
    VerifyFromStep(A, B, w, total);
    out := SafeRead(fil, Source, src, i);
    if !out.Success? {
      return;
    }
    out := SafeRead(dev, Flash, dest, i);
    if !out.Success? {
      return;
    }
    if src[..i] != dest[..i] {
      return Fatal(Mismatch(w, w + i));
    }
    return Success;
  }

  /** The verify loop: the rewound file and device compared `total` bytes
      at a time through two buffers, as VerifyFrom describes. */
  method VerifyLoop(fil: Fd, dev: Fd, src: array<byte>, dest: array<byte>, total: nat) returns (out: Outcome)
    requires fil != dev && src != dest && fil.Valid() && dev.Valid()
    requires src.Length == BUFSIZE && dest.Length == BUFSIZE
    requires fil.pos == 0 && dev.pos == 0
    modifies fil`pos, dev`pos, src, dest
    ensures fil.Valid() && dev.Valid()
    ensures out == VerifyFrom(Channel(fil.data, fil.cap, fil.readFault), Channel(dev.data, dev.cap, dev.readFault), 0, total)
  {
    ghost var A, B := Channel(fil.data, fil.cap, fil.readFault), Channel(dev.data, dev.cap, dev.readFault);
    ghost var goal := VerifyFrom(A, B, 0, total);
    var size: nat := total;
    var i: nat := BUFSIZE;
    var written: nat := 0;
    while size != 0
      invariant written + size == total
      invariant size > 0 ==> i == BUFSIZE
      invariant fil.Valid() && dev.Valid()
      invariant fil.pos == written && dev.pos == written
      invariant goal == VerifyFrom(A, B, written, total)
    {
      if size < BUFSIZE {
        i := size;
      }
      assert i == Min(BUFSIZE, size);
      var r := CompareChunk(fil, dev, src, dest, i, written, total, A, B);
      if !r.Success? {
        return r;
      }
      written := written + i;
      size := size - i;
    }
    return Success;
  }
}
