/** flashcp's read mode (`-r dumpfile`): the partition is read into the
    dump file BUFSIZE bytes at a time, from offset 0. The loop keeps the
    quirks of the C code: a short write is retried from the start of the
    buffer again, a write that fails is retried for ever, and a read that
    fails ends the dump as if the end of the device had been reached, with
    exit status 0. */
module Dump {
  import opened Chunks
  import opened Outcomes
  import opened Descriptor
  import opened Passes

  function Prepend(w: seq<byte>, o: Option<seq<byte>>): Option<seq<byte>>
  {
    if o.None? then None else Some(w + o.value)
  }

  /** What the inner loop `while (numToWrite > 0)` appends to the dump file
      when `todo` bytes of the buffer `c` are still to go and the file offset
      is `p`, for a file that takes at most `cap` bytes per write(2) and fails
      at offset `fault`. Every call writes from the start of `c`. `None`: a
      write fails, and the loop retries it for ever. */
  function Rewrites(c: seq<byte>, todo: nat, p: nat, cap: nat, fault: Option<nat>): (r: Option<seq<byte>>)
    requires todo <= |c| && cap > 0
    ensures r.Some? ==> |r.value| == todo
    decreases todo, 1
  {
    if todo == 0 then Some([]) else RewriteOnce(c, todo, p, cap, fault)
  }

  /** One write of the inner loop, and the rest of the loop after it. */
  function RewriteOnce(c: seq<byte>, todo: nat, p: nat, cap: nat, fault: Option<nat>): (r: Option<seq<byte>>)
    requires 0 < todo <= |c| && cap > 0
    ensures r.Some? ==> |r.value| == todo
    decreases todo, 0
  {
    var k := Transfer(p, todo, todo, cap, fault);
    if k < 0 then None else Prepend(c[..k], Rewrites(c, todo - k, p + k, cap, fault))
  }

  /** One write of the inner loop. */
  lemma RewritesStep(c: seq<byte>, todo: nat, p: nat, cap: nat, fault: Option<nat>)
    requires 0 < todo <= |c| && cap > 0
    ensures var k := Transfer(p, todo, todo, cap, fault);
      Rewrites(c, todo, p, cap, fault) == if k < 0 then None else Prepend(c[..k], Rewrites(c, todo - k, p + k, cap, fault))
  {
    assert Rewrites(c, todo, p, cap, fault) == RewriteOnce(c, todo, p, cap, fault);
  }

  /** The inner loop hangs exactly when a byte it would write lies at the
      write fault. */
  lemma {:induction false} RewritesHangIff(c: seq<byte>, todo: nat, p: nat, cap: nat, fault: Option<nat>)
    requires todo <= |c| && cap > 0
    ensures Rewrites(c, todo, p, cap, fault).None? <==> FaultIn(fault, p, todo)
    decreases todo
  {
    if todo > 0 {
      var k := Transfer(p, todo, todo, cap, fault);
      RewritesStep(c, todo, p, cap, fault);
      if k >= 0 {
        RewritesHangIff(c, todo - k, p + k, cap, fault);
      }
    }
  }

  /** The inner loop after `sent` has been written: the next write either
      fails, and so does the loop, or adds its bytes to `sent`. */
  lemma RewritesAdvance(c: seq<byte>, todo: nat, p: nat, cap: nat, fault: Option<nat>,
                        sent: seq<byte>, goal: Option<seq<byte>>)
    requires 0 < todo <= |c| && cap > 0
    requires goal == Prepend(sent, Rewrites(c, todo, p, cap, fault))
    ensures var k := Transfer(p, todo, todo, cap, fault);
      && (k < 0 ==> goal == None)
      && (k >= 0 ==> goal == Prepend(sent + c[..k], Rewrites(c, todo - k, p + k, cap, fault)))
  {
    var k := Transfer(p, todo, todo, cap, fault);
    RewritesStep(c, todo, p, cap, fault);
    if k >= 0 {
      PrependAppend(sent, c[..k], Rewrites(c, todo - k, p + k, cap, fault));
    }
  }

  /** When one write takes the whole buffer, the file receives the buffer. */
  lemma RewritesWhole(c: seq<byte>, todo: nat, p: nat, cap: nat, fault: Option<nat>)
    requires todo <= |c| && 0 < cap && todo <= cap && !FaultIn(fault, p, todo)
    ensures Rewrites(c, todo, p, cap, fault) == Some(c[..todo])
  {
    if todo > 0 {
      RewritesStep(c, todo, p, cap, fault);
      assert Rewrites(c, 0, p + todo, cap, fault) == Some([]);
      assert c[..todo] + [] == c[..todo];
    }
  }

  /** Scenario: a file that takes one byte per write(2) receives the first
      byte of the buffer `[1, 2]` twice, never the second one. */
  lemma ShortWriteRepeatsFirstByte(c: seq<byte>)
    requires c == [1, 2]
    ensures Rewrites(c, 2, 0, 1, None) == Some([c[0], c[0]])
  {
    assert Transfer(0, 2, 2, 1, None) == 1 && Transfer(1, 1, 1, 1, None) == 1;
    RewritesStep(c, 2, 0, 1, None);
    RewritesStep(c, 1, 1, 1, None);
    assert c[..1] == [c[0]];
    assert Rewrites(c, 0, 2, 1, None) == Some([]);
    assert Rewrites(c, 1, 1, 1, None) == Some([c[0]] + []);
    assert [c[0]] + ([c[0]] + []) == [c[0], c[0]];
  }

  /** How the dump ends: the outcome, the dump file and `totalWritten`. */
  datatype DumpEnd = DumpEnd(out: Outcome, file: seq<byte>, total: nat)

  /** The outer loop from device offset `q`, with dump file `file` written
      up to offset `total`. A read that returns 0 or less ends it with
      success. */
  function DumpFrom(dev: Channel, q: nat, file: seq<byte>, total: nat, cap: nat, fault: Option<nat>): (r: DumpEnd)
    requires q <= |dev.data| && total <= |file| && cap > 0
    ensures r.out.Success? || r.out.Hangs?
    decreases |dev.data| - q, 1
  {
    var n := Call(dev, q, BUFSIZE);
    if n <= 0 then DumpEnd(Success, file, total) else DumpChunk(dev, q, n, file, total, cap, fault)
  }

  /** One pass of the outer loop after a read of `n > 0` bytes at `q`. */
  function DumpChunk(dev: Channel, q: nat, n: nat, file: seq<byte>, total: nat, cap: nat, fault: Option<nat>): (r: DumpEnd)
    requires 0 < n && q + n <= |dev.data| && total <= |file| && cap > 0
    ensures r.out.Success? || r.out.Hangs?
    decreases |dev.data| - q, 0
  {
    match Rewrites(dev.data[q..q + n], n, total, cap, fault)
    case None => DumpEnd(Hangs, file, total)
    case Some(bytes) => DumpFrom(dev, q + n, Overwrite(file, total, bytes), total + n, cap, fault)
  }

  /** Where a dump from device offset `q` stops reading: at the read fault,
      or at the end of the partition. */
  function ReadEnd(dev: Channel, q: nat): (e: nat)
    requires q <= |dev.data|
    ensures q <= e <= |dev.data|
    ensures FaultIn(dev.fault, q, |dev.data| - q) <==> e < |dev.data|
  {
    if FaultIn(dev.fault, q, |dev.data| - q) then dev.fault.value else |dev.data|
  }

  lemma PrependAppend(w: seq<byte>, x: seq<byte>, o: Option<seq<byte>>)
    ensures Prepend(w, Prepend(x, o)) == Prepend(w + x, o)
  {
    if o.Some? {
      assert w + (x + o.value) == (w + x) + o.value;
    }
  }

  /** A read that returns 0 or less is at the read end. */
  lemma ReadEndStop(dev: Channel, q: nat)
    requires q <= |dev.data| && dev.cap > 0 && Call(dev, q, BUFSIZE) <= 0
    ensures ReadEnd(dev, q) == q
  {
  }

  /** A full read of `n` bytes at `q` leaves the read end where it was. */
  lemma ReadEndStep(dev: Channel, q: nat, n: nat)
    requires q <= |dev.data| && n == Call(dev, q, BUFSIZE) && n > 0
    ensures ReadEnd(dev, q + n) == ReadEnd(dev, q)
  {
  }

  /** A dump file that takes whole buffers and never fails receives the
      partition up to the read fault, and the dump succeeds: a read error
      truncates the copy silently. */
  lemma {:induction false} DumpCopiesUpToReadEnd(dev: Channel, q: nat, file: seq<byte>, total: nat, cap: nat, fault: Option<nat>)
    requires q <= |dev.data| && total <= |file| && dev.cap > 0 && cap >= BUFSIZE
    requires !FaultIn(fault, total, ReadEnd(dev, q) - q)
    ensures DumpFrom(dev, q, file, total, cap, fault)
         == DumpEnd(Success, Overwrite(file, total, dev.data[q..ReadEnd(dev, q)]), total + (ReadEnd(dev, q) - q))
    decreases |dev.data| - q
  {
    var n := Call(dev, q, BUFSIZE);
    if n <= 0 {
      ReadEndStop(dev, q);
      OverwriteNothing(file, total);
    } else {
      ReadEndStep(dev, q, n);
      DumpCopiesUpToReadEnd(dev, q + n, Overwrite(file, total, dev.data[q..q + n]), total + n, cap, fault);
      DumpAppend(dev, q, n, file, total, cap, fault);
    }
  }

  /** Chains a first chunk `[q, q + n)` and the rest of a dump. */
  lemma DumpAppend(dev: Channel, q: nat, n: nat, file: seq<byte>, total: nat, cap: nat, fault: Option<nat>)
    requires q <= |dev.data| && total <= |file| && cap >= BUFSIZE
    requires n == Call(dev, q, BUFSIZE) && n > 0 && !FaultIn(fault, total, n)
    requires var f1 := Overwrite(file, total, dev.data[q..q + n]);
      DumpFrom(dev, q + n, f1, total + n, cap, fault)
      == DumpEnd(Success, Overwrite(f1, total + n, dev.data[q + n..ReadEnd(dev, q + n)]), total + n + (ReadEnd(dev, q + n) - (q + n)))
    ensures DumpFrom(dev, q, file, total, cap, fault)
         == DumpEnd(Success, Overwrite(file, total, dev.data[q..ReadEnd(dev, q)]), total + (ReadEnd(dev, q) - q))
  {
    var e := ReadEnd(dev, q);
    DumpFromFull(dev, q, file, total, cap, fault);
    ReadEndStep(dev, q, n);
    OverwriteConcat(file, total, dev.data[q..q + n], dev.data[q + n..e]);
    SliceSplit(dev.data, q, q + n, e);
  }

  /** A chunk the dump file takes in one write is appended as it was read. */
  lemma DumpFromFull(dev: Channel, q: nat, file: seq<byte>, total: nat, cap: nat, fault: Option<nat>)
    requires q <= |dev.data| && total <= |file| && cap >= BUFSIZE
    requires Call(dev, q, BUFSIZE) > 0 && !FaultIn(fault, total, Call(dev, q, BUFSIZE))
    ensures var n := Call(dev, q, BUFSIZE);
      DumpFrom(dev, q, file, total, cap, fault)
      == DumpFrom(dev, q + n, Overwrite(file, total, dev.data[q..q + n]), total + n, cap, fault)
  {
    var n := Call(dev, q, BUFSIZE);
    var chunk := dev.data[q..q + n];
    RewritesWhole(chunk, n, total, cap, fault);
    assert chunk[..n] == chunk;
    assert DumpFrom(dev, q, file, total, cap, fault) == DumpChunk(dev, q, n, file, total, cap, fault);
  }

  /** The inner loop: writes the `numRead` bytes of `src` to the dump file,
      each call from the start of `src`, until they add up. */
  method WriteOut(dump: Fd, src: array<byte>, numRead: nat, totalWritten: nat) returns (out: Outcome, total: nat)
    requires dump.Valid() && dump.info.None? && numRead <= src.Length && dump.pos == totalWritten
    modifies dump`data, dump`pos
    ensures dump.Valid()
    ensures var r := Rewrites(src[..numRead], numRead, totalWritten, dump.cap, dump.writeFault);
      && (out.Success? <==> r.Some?) && (out.Hangs? <==> r.None?)
      && (r.Some? ==> dump.data == Overwrite(old(dump.data), totalWritten, r.value)
                      && total == totalWritten + numRead && dump.pos == total)
  {
    ghost var c, d0 := src[..numRead], dump.data;
    ghost var goal := Rewrites(c, numRead, totalWritten, dump.cap, dump.writeFault);
    ghost var sent: seq<byte> := [];
    var numToWrite: nat := numRead;
    total := totalWritten;
    OverwriteNothing(d0, totalWritten);
    assert Prepend(sent, goal) == goal by {
      if goal.Some? {
        assert [] + goal.value == goal.value;
      }
    }
    while numToWrite > 0
      invariant dump.Valid() && dump.pos == total && numToWrite <= numRead
      invariant total == totalWritten + |sent| && |sent| + numToWrite == numRead
      invariant totalWritten <= |d0| && dump.data == Overwrite(d0, totalWritten, sent)
      invariant goal == Prepend(sent, Rewrites(c, numToWrite, total, dump.cap, dump.writeFault))
      decreases numToWrite
    {
      ghost var before := dump.data;
      var numWritten := dump.Write(src, numToWrite);
      assert numWritten == Transfer(total, numToWrite, numToWrite, dump.cap, dump.writeFault);
      RewritesAdvance(c, numToWrite, total, dump.cap, dump.writeFault, sent, goal);
      if numWritten < 0 {
        return Hangs, total;
      }
      assert src[..numWritten] == c[..numWritten];
      assert dump.data == Overwrite(before, total, c[..numWritten]);
      OverwriteConcat(d0, totalWritten, sent, c[..numWritten]);
      sent := sent + c[..numWritten];
      total := total + numWritten;
      numToWrite := numToWrite - numWritten;
    }
    assert sent + [] == sent;
    return Success, total;
  }

  /** The dump: reads the partition from its current offset 0 and writes it
      to the dump file from offset 0, as DumpFrom says. */
  method DumpDevice(dev: Fd, dump: Fd, src: array<byte>) returns (out: Outcome, totalWritten: nat)
    requires dev != dump && dev.Valid() && dump.Valid() && dump.info.None? && src.Length == BUFSIZE
    requires dev.pos == 0 && dump.pos == 0
    modifies dev`pos, dump`data, dump`pos, src
    ensures var r := DumpFrom(Channel(dev.data, dev.cap, dev.readFault), 0, old(dump.data), 0, dump.cap, dump.writeFault);
      out == r.out && (out.Success? ==> dump.data == r.file && totalWritten == r.total)
  {
    ghost var D := Channel(dev.data, dev.cap, dev.readFault);
    ghost var goal := DumpFrom(D, 0, dump.data, 0, dump.cap, dump.writeFault);
    totalWritten := 0;
    while true
      invariant dev.Valid() && dump.Valid() && dump.info.None? && dev.data == D.data
      invariant dump.pos == totalWritten && totalWritten <= |dump.data|
      invariant goal == DumpFrom(D, dev.pos, dump.data, totalWritten, dump.cap, dump.writeFault)
      decreases |dev.data| - dev.pos
    {
      ghost var d := dump.data;
      var numRead := dev.Read(src, BUFSIZE);
      if numRead < 0 {
        break;
      }
      var o;
      o, totalWritten := WriteOut(dump, src, numRead, totalWritten);
      if o.Hangs? {
        return Hangs, totalWritten;
      }
      if numRead == 0 {
        OverwriteNothing(d, totalWritten);
        break;
      }
    }
    return Success, totalWritten;
  }
}
