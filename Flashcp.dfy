/** flashcp's main: the checks after the device is opened, then either the
    dump or the copy pipeline (fit check, erase, write pass, rewinds,
    verify pass). Command-line parsing is not part of this module: a run
    starts from the parsed Command. */
module Flashcp {
  import opened Chunks
  import opened Outcomes
  import opened Descriptor
  import opened EraseRange
  import opened Passes
  import opened Steps
  import opened Dump

  /** What the command line asked for: copy a file, copy `length` bytes of
      standard input (`-s`), or dump the partition into a file (`-r`). */
  datatype Command = CopyFile | CopyStream(length: nat) | DumpTo

  // ---------------------------------------------------------------------
  // The copy pipeline after the erase, as a function

  /** What the write pass, the two rewinds and the verify pass of a copy of
      `size` bytes return: `src` is the file, `dev` the flash as write(2)
      sees it right after the erase, `readCap` and `readFault` describe
      read(2) on the flash, and `srcSeeks`, `devSeeks` say whether lseek(2)
      works on each descriptor. The verify pass reads back the flash with
      the landed bytes programmed. */
  function CopyRun(src: Channel, dev: Channel, readCap: nat, readFault: Option<nat>,
                   srcSeeks: bool, devSeeks: bool, size: nat): Outcome
  {
    var w := WriteFrom(src, dev, 0, size);
    if !w.out.Success? then w.out
    else if !srcSeeks then Fatal(SeekError(Source))
    else if !devSeeks then Fatal(SeekError(Flash))
    else VerifyFrom(src, Channel(Program(dev.data, 0, src.data[..w.landed]), readCap, readFault), 0, size)
  }

  /** A copy that succeeds has read and written every chunk in full, has
      rewound both descriptors, and leaves the payload in the first `size`
      bytes of the flash: the verify pass lets nothing else through. */
  lemma CopyRunChecksFlash(src: Channel, dev: Channel, readCap: nat, readFault: Option<nat>,
                           srcSeeks: bool, devSeeks: bool, size: nat)
    ensures CopyRun(src, dev, readCap, readFault, srcSeeks, devSeeks, size) == Success
            ==> Whole(src, 0, size) && Whole(dev, 0, size) && srcSeeks && devSeeks
    ensures CopyRun(src, dev, readCap, readFault, srcSeeks, devSeeks, size) == Success
            ==> Program(dev.data, 0, src.data[..size])[..size] == src.data[..size]
  {
    WriteFromSucceeds(src, dev, 0, size);
    var w := WriteFrom(src, dev, 0, size);
    if w.out.Success? && srcSeeks && devSeeks {
      var back := Channel(Program(dev.data, 0, src.data[..w.landed]), readCap, readFault);
      VerifyFromSucceeds(src, back, 0, size);
      assert src.data[0..size] == src.data[..size];
      assert back.data[0..size] == back.data[..size];
    }
  }

  /** On erased flash, a copy whose I/O moves every chunk in full and whose
      descriptors both seek succeeds. */
  lemma CopyRunSucceeds(src: Channel, dev: Channel, readCap: nat, readFault: Option<nat>,
                        srcSeeks: bool, devSeeks: bool, size: nat)
    requires Whole(src, 0, size) && Whole(dev, 0, size) && srcSeeks && devSeeks
    requires Whole(Channel(dev.data, readCap, readFault), 0, size)
    requires forall k :: 0 <= k < size ==> dev.data[k] == 0xFF
    ensures CopyRun(src, dev, readCap, readFault, srcSeeks, devSeeks, size) == Success
  {
    WriteFromSucceeds(src, dev, 0, size);
    var payload := src.data[..size];
    var back := Channel(Program(dev.data, 0, payload), readCap, readFault);
    ProgramErased(dev.data, 0, payload);
    assert back.data[0..size] == payload == src.data[0..size];
    VerifyFromSucceeds(src, back, 0, size);
  }

  /** After the erase, a copy succeeds or reports a failure of one of its
      passes or rewinds; it never hangs. */
  lemma CopyRunExits(src: Channel, dev: Channel, readCap: nat, readFault: Option<nat>,
                     srcSeeks: bool, devSeeks: bool, size: nat)
    ensures var out := CopyRun(src, dev, readCap, readFault, srcSeeks, devSeeks, size);
      out.Success? || (out.Fatal? && PassFailure(out.failure))
  {
    WriteFromExits(src, dev, 0, size);
    var w := WriteFrom(src, dev, 0, size);
    if w.out.Success? && srcSeeks && devSeeks {
      VerifyFromExits(src, Channel(Program(dev.data, 0, src.data[..w.landed]), readCap, readFault), 0, size);
    }
  }

  /** Scenario: `flashcp -s` from a pipe, on which lseek(2) fails, never
      succeeds: after the write pass the rewind of standard input exits
      with status 14. */
  lemma PipeCannotBeVerified(src: Channel, dev: Channel, readCap: nat, readFault: Option<nat>,
                             devSeeks: bool, size: nat)
    requires Whole(src, 0, size) && Whole(dev, 0, size)
    ensures CopyRun(src, dev, readCap, readFault, false, devSeeks, size) == Fatal(SeekError(Source))
  {
    WriteFromSucceeds(src, dev, 0, size);
  }

  // ---------------------------------------------------------------------
  // The steps of main

  /** The flash after the erase step of a copy of `size` bytes that
      succeeded: `[0, EraseLength(size))` erased, or nothing at all when the
      verbose policy's block count wraps round to a negative int. */
  function AfterErase(d: seq<byte>, size: nat, info: MtdInfo, verbose: bool): (r: seq<byte>)
    requires UniformGeometry(info) && info.size == |d| && size <= |d|
    ensures |r| == |d|
    ensures !(verbose && VerboseBlockCount(EraseLength(size, info.erasesize), info.erasesize) < 0) ==>
      forall k :: 0 <= k < size ==> r[k] == 0xFF
  {
    var b := info.erasesize;
    FitsOnDevice(size, |d|, b);
    EraseLengthRounds(size, b);
    var length := EraseLength(size, b);
    if verbose && VerboseBlockCount(length, b) < 0 then d else Erased(d, 0, length)
  }

  /** The erase of main: `EraseLength(size)` bytes from offset 0, one block
      at a time when verbose and in one command otherwise. Both policies
      erase the same range, except that the verbose one erases nothing when
      its block count wraps round to a negative int. */
  method Erase(dev: Fd, size: nat, verbose: bool) returns (out: Outcome)
    requires dev.Valid() && dev.info.Some? && UniformGeometry(dev.info.value) && size <= |dev.data|
    modifies dev`data, dev`erases
    ensures dev.Valid() && |dev.data| == |old(dev.data)|
    ensures var b := dev.info.value.erasesize;
      var length := EraseLength(size, b);
      var wraps := verbose && VerboseBlockCount(length, b) < 0;
      && size <= length <= |dev.data|
      && (wraps ==> out.Success? && dev.data == old(dev.data))
      && (!wraps ==> (out.Success? <==> Erasable(|dev.data|, dev.badBlocks, 0, length)))
      && (out.Success? ==> dev.data == AfterErase(old(dev.data), size, dev.info.value, verbose))
      && (!out.Success? && verbose ==>
            exists k :: 0 <= k < VerboseBlockCount(length, b)
              && FailedAtBlock(out, k, b, dev.badBlocks, old(dev.data), dev.data, old(dev.erases), dev.erases))
      && (!out.Success? && !verbose ==> out == Fatal(EraseError(0, length)) && dev.data == old(dev.data))
  {
    var b := dev.info.value.erasesize;
    FitsOnDevice(size, |dev.data|, b);
    EraseLengthRounds(size, b);
    var length := EraseLength(size, b);
    if verbose {
      ghost var d0 := dev.data;
      out := EraseVerbose(dev, length);
      var blocks := VerboseBlockCount(length, b);
      if blocks >= 0 {
        VerboseBlockCountCovers(length, b);
        BlocksErasableIffRange(|d0|, dev.badBlocks, blocks, b);
      }
    } else {
      out := EraseSilent(dev, length);
    }
  }

  /** The write pass, the rewinds and the verify pass of main, as CopyRun
      says; the flash keeps the bytes that landed. */
  method WriteAndVerify(fil: Fd, dev: Fd, size: nat) returns (out: Outcome)
    requires fil != dev && fil.Valid() && dev.Valid() && dev.info.Some?
    requires fil.pos == 0 && dev.pos == 0
    modifies fil`pos, dev`data, dev`pos
    ensures fil.Valid() && dev.Valid() && |dev.data| == |old(dev.data)|
    ensures var src, d := Channel(fil.data, fil.cap, fil.readFault), Channel(old(dev.data), dev.cap, dev.writeFault);
      && out == CopyRun(src, d, dev.cap, dev.readFault, !fil.seekFails, !dev.seekFails, size)
      && dev.data == Program(old(dev.data), 0, fil.data[..WriteFrom(src, d, 0, size).landed])
  {
    var src := new byte[BUFSIZE];
    var dest := new byte[BUFSIZE];
    ghost var S, D := Channel(fil.data, fil.cap, fil.readFault), Channel(dev.data, dev.cap, dev.writeFault);
    out := WriteLoop(fil, dev, src, size);
    if !out.Success? {
      return;
    }
    WriteFromSucceeds(S, D, 0, size);
    out := SafeRewind(fil, Source);
    if !out.Success? {
      return;
    }
    out := SafeRewind(dev, Flash);
    if !out.Success? {
      return;
    }
    out := VerifyLoop(fil, dev, src, dest, size);
  }

  /** Nothing can go wrong in a copy of `size` bytes: it fits, its erase
      range holds no bad block and (when verbose) the block count does not
      wrap, every read(2) and write(2) moves its chunk in full, and both
      descriptors seek. */
  ghost predicate Healthy(fil: Fd, dev: Fd, size: nat, verbose: bool)
    reads fil, dev
  {
    && dev.info.Some? && UniformGeometry(dev.info.value) && size <= |dev.data|
    && Erasable(|dev.data|, dev.badBlocks, 0, EraseLength(size, dev.info.value.erasesize))
    && (verbose ==> VerboseBlockCount(EraseLength(size, dev.info.value.erasesize), dev.info.value.erasesize) >= 0)
    && Whole(Channel(fil.data, fil.cap, fil.readFault), 0, size)
    && Whole(Channel(dev.data, dev.cap, dev.writeFault), 0, size)
    && Whole(Channel(dev.data, dev.cap, dev.readFault), 0, size)
    && !fil.seekFails && !dev.seekFails
  }

  /** How a copy of `size` bytes ends, from flash `d0` and erase log `e0`:
      - exit 18 exactly when the payload does not fit, with nothing erased
        or written;
      - never a hang, and no failure but 18, the erase failures 19 and 20
        and those of the passes (12, 13, 14, 21, 22, 23);
      - exit 19 at the first block that cannot be erased, with the blocks
        before it erased; exit 20 with the flash as it was;
      - after the erase, the run ends as CopyRun says of the erased flash,
        and the flash holds the erased range with the part of the payload
        that reached it programmed in, which on success is all of it. */
  ghost predicate CopyEnd(out: Outcome, fil: Fd, dev: Fd, d0: seq<byte>, e0: seq<Span>, size: nat, verbose: bool)
    reads fil, dev
    requires dev.info.Some? && UniformGeometry(dev.info.value) && dev.info.value.size == |d0|
  {
    var b := dev.info.value.erasesize;
    && (out == Fatal(WontFit) <==> size > |d0|)
    && (out == Fatal(WontFit) ==> dev.data == d0 && dev.erases == e0)
    && !out.Hangs?
    && (out.Fatal? ==> out.failure.WontFit? || out.failure.BlockEraseError? || out.failure.EraseError? || PassFailure(out.failure))
    && (out.Fatal? && out.failure.BlockEraseError? ==>
          && verbose && size <= |d0|
          && exists k: nat :: k < VerboseBlockCount(EraseLength(size, b), b)
               && FailedAtBlock(out, k, b, dev.badBlocks, d0, dev.data, e0, dev.erases))
    && (size <= |d0| && !(verbose && VerboseBlockCount(EraseLength(size, b), b) < 0)
          && !Erasable(|d0|, dev.badBlocks, 0, EraseLength(size, b)) ==>
          out.Fatal? && (out.failure.BlockEraseError? || out.failure.EraseError?))
    && (out.Fatal? && out.failure.EraseError? ==>
          && !verbose && size <= |d0| && out.failure == EraseError(0, EraseLength(size, b))
          && !Erasable(|d0|, dev.badBlocks, 0, EraseLength(size, b)) && dev.data == d0)
    && (size <= |d0| && (out.Success? || (out.Fatal? && PassFailure(out.failure))) ==>
          var E := AfterErase(d0, size, dev.info.value, verbose);
          var w := WriteFrom(Channel(fil.data, fil.cap, fil.readFault), Channel(E, dev.cap, dev.writeFault), 0, size);
          && dev.data == Program(E, 0, fil.data[..w.landed])
          && out == CopyRun(Channel(fil.data, fil.cap, fil.readFault), Channel(E, dev.cap, dev.writeFault),
                            dev.cap, dev.readFault, !fil.seekFails, !dev.seekFails, size))
    && (out.Success? ==> size <= |fil.data| && size <= |dev.data| && dev.data[..size] == fil.data[..size])
    && (fil.seekFails ==> !out.Success?)
  }

  /** The copy pipeline of main from the fit check on, for a payload of
      `size` bytes. */
  method Copy(fil: Fd, dev: Fd, size: nat, verbose: bool) returns (out: Outcome)
    requires fil != dev && fil.Valid() && dev.Valid() && dev.info.Some? && UniformGeometry(dev.info.value)
    requires fil.pos == 0 && dev.pos == 0
    modifies fil`pos, dev`data, dev`pos, dev`erases
    ensures fil.Valid() && dev.Valid()
    ensures CopyEnd(out, fil, dev, old(dev.data), old(dev.erases), size, verbose)
    ensures old(Healthy(fil, dev, size, verbose)) ==> out.Success?
  {
    if size > dev.info.value.size {
      return Fatal(WontFit);
    }
    ghost var healthy := Healthy(fil, dev, size, verbose);
    out := Erase(dev, size, verbose);
    if !out.Success? {
      return;
    }
    ghost var E := dev.data;
    ghost var S, D := Channel(fil.data, fil.cap, fil.readFault), Channel(E, dev.cap, dev.writeFault);
    out := WriteAndVerify(fil, dev, size);
    CopyRunChecksFlash(S, D, dev.cap, dev.readFault, !fil.seekFails, !dev.seekFails, size);
    CopyRunExits(S, D, dev.cap, dev.readFault, !fil.seekFails, !dev.seekFails, size);
    if out.Success? {
      WriteFromSucceeds(S, D, 0, size);
    }
    if healthy {
      CopyRunSucceeds(S, D, dev.cap, dev.readFault, !fil.seekFails, !dev.seekFails, size);
    }
  }

  /** main after the command line: open the device (exit 11) and ask for
      its geometry (exit 15); then dump (exit 16 when the dump file cannot
      be opened) or copy, from the file (exit 11 when it cannot be opened)
      or `length` bytes of standard input. `devOpens`, `filOpens` and
      `dumpOpens` say whether open(2) succeeds on each path. */
  method Run(cmd: Command, verbose: bool, dev: Fd, devOpens: bool, fil: Fd, filOpens: bool,
             dump: Fd, dumpOpens: bool) returns (out: Outcome)
    requires dev != fil && dev != dump && fil != dump
    requires dev.Valid() && fil.Valid() && dump.Valid() && dump.info.None?
    requires dev.pos == 0 && fil.pos == 0 && dump.pos == 0
    requires !cmd.DumpTo? && dev.info.Some? ==> UniformGeometry(dev.info.value)
    modifies dev`data, dev`pos, dev`erases, fil`pos, dump`data, dump`pos
    ensures !devOpens ==> out == Fatal(OpenFailed(Flash))
    ensures devOpens && dev.info.None? ==> out == Fatal(NotMtd)
    ensures !devOpens || dev.info.None? ==> dev.data == old(dev.data) && dump.data == old(dump.data)
    ensures cmd.DumpTo? && devOpens && dev.info.Some? ==>
      && dev.data == old(dev.data)
      && (!dumpOpens ==> out == Fatal(DumpOpenFailed) && dump.data == old(dump.data))
      && (dumpOpens ==>
            var r := DumpFrom(Channel(dev.data, dev.cap, dev.readFault), 0, old(dump.data), 0, dump.cap, dump.writeFault);
            out == r.out && (out.Success? ==> dump.data == r.file))
    ensures cmd.DumpTo? && out.Fatal? ==> out.failure.OpenFailed? || out.failure.NotMtd? || out.failure.DumpOpenFailed?
    ensures cmd.CopyFile? && devOpens && dev.info.Some? && !filOpens ==>
      out == Fatal(OpenFailed(Source)) && dev.data == old(dev.data) && dev.erases == old(dev.erases)
    ensures cmd.CopyFile? && devOpens && dev.info.Some? && filOpens ==>
      CopyEnd(out, fil, dev, old(dev.data), old(dev.erases), |fil.data|, verbose)
    ensures cmd.CopyStream? && devOpens && dev.info.Some? ==>
      CopyEnd(out, fil, dev, old(dev.data), old(dev.erases), cmd.length, verbose)
    ensures !cmd.DumpTo? ==> dump.data == old(dump.data)
    ensures cmd.CopyFile? && out.Success? ==> |fil.data| <= |dev.data| && dev.data[..|fil.data|] == fil.data
    ensures cmd.CopyStream? && out.Success? ==>
      cmd.length <= |fil.data| && cmd.length <= |dev.data| && dev.data[..cmd.length] == fil.data[..cmd.length]
    ensures cmd.CopyFile? && devOpens && filOpens && old(Healthy(fil, dev, |fil.data|, verbose)) ==> out.Success?
    ensures cmd.CopyStream? && devOpens && old(Healthy(fil, dev, cmd.length, verbose)) ==> out.Success?
  {
    if !devOpens {
      return Fatal(OpenFailed(Flash));
    }
    if dev.info.None? {
      return Fatal(NotMtd);
    }
    match cmd
    case DumpTo =>
      if !dumpOpens {
        return Fatal(DumpOpenFailed);
      }
      var src := new byte[BUFSIZE];
      var totalWritten;
      out, totalWritten := DumpDevice(dev, dump, src);
    case CopyStream(length) =>
      out := Copy(fil, dev, length, verbose);
    case CopyFile =>
      if !filOpens {
        return Fatal(OpenFailed(Source));
      }
      out := Copy(fil, dev, |fil.data|, verbose);
      if out.Success? {
        assert fil.data[..|fil.data|] == fil.data;
      }
  }
}
