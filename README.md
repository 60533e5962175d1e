# flashcp, modelled in Dafny

`flashcp` (mtd-utils) copies a file, or a given number of bytes of standard
input, onto an MTD flash partition. It can also dump a partition into a file.

A copy runs these steps in order:

1. Check that the payload fits in the partition.
2. Erase enough erase blocks from offset 0 to hold it. This is either one
   block at a time (verbose) or in one MEMERASE command (silent).
3. Write the payload in chunks of `BUFSIZE` (10 KiB).
4. Rewind both descriptors.
5. Read both sides back chunk by chunk and compare them.

Each kind of fatal condition ends the process with its own exit status, from
10 to 23. The model leaves out 10, the usage error, and 17, the fstat(2)
failure, so the statuses it models are 11 to 16 and 18 to 23. Kinds that can
happen on the file or on the device share a status. Open failure is 11, read error 12, short read 13, and seek failure 14.

This project models that pipeline and the dump loop of `main`, together with
the helpers `safe_read` and `safe_rewind`. Its modules:

- `Outcomes`: how a run ends. This is `Success`, `Fatal(failure)` with the
  exit status and the byte range flashcp reports, or `Hangs` for the dump
  loop's endless retry.
- `Chunks`: `BUFSIZE` and `ChunkPlan`, the chunk sequence of the write and
  verify loops. `Passes` proves that the passes go through this plan and
  report the range of one of its chunks.
- `EraseRange`: the erase length `size & ~(erasesize - 1)`, plus one block
  when `size` is not block-aligned. It works on 32-bit unsigned values and
  is written out bit by bit with the wrap-around. It also holds the
  verbose policy's `int` block count and the one-block erase commands.
- `Descriptor`: the class `Fd`, one open descriptor. It holds the data
  behind the descriptor, the file offset and fault parameters fixed at
  creation: the most bytes per call, an offset where read(2) or write(2)
  fails, bad erase blocks and a failing lseek(2). Its methods are `Read`,
  `Write`, `Erase` and `Rewind`. Writing to flash ANDs bytes into the cells,
  since programming only clears bits. Writing to a regular file replaces
  bytes and grows the file.
- `Passes`: the write pass and the verify pass as functions of the
  descriptors' contents and faults. The lemmas say what each pass amounts
  to.
- `Steps`: `safe_read`, `safe_rewind`, both erase policies, the write loop
  and the verify loop as methods. The two loops are proved to do what the
  `Passes` functions say. `safe_read`, `safe_rewind` and the erase policies
  are proved against their own contracts, stated over the state of `Fd`.
- `Dump`: the `-r` dump loop. It keeps its quirks:
  - a short write is retried from the start of the buffer;
  - a failing write is retried for ever;
  - a failing read ends the dump with exit status 0.
- `Flashcp`: `main` after command-line parsing. This is the open and
  MEMGETINFO checks, then the dump or the copy.

## Model

| member | source | states |
|---|---|---|
| Outcomes.Failure.ExitCode | flashcp.c:132-442 | every fatal condition exits with a status between 11 and 23; 17 is not among them |
| Outcomes.ExitCodesDistinct | flashcp.c:256-447 | two failures share an exit status exactly when they are the same condition (11, 12, 13, 14, 15, 16, 18, 19, 20, 21, 22, 23) |
| Chunks.ChunkPlan | flashcp.c:370-402 | the chunk sizes `i` that the write and verify loops go through; it has no contract of its own, and the Chunks lemmas below state its sum, bounds, last chunk, count and chunk starts |
| Chunks.ChunkPlanSums | flashcp.c:366-402 | the chunks of ChunkPlan, the plan the write and verify passes go through (see Passes.WriteFromFollowsPlan), add up to the payload size |
| Chunks.ChunkPlanBounded | flashcp.c:68 | every chunk of ChunkPlan is at least 1 and at most BUFSIZE bytes; every chunk but the last is exactly BUFSIZE |
| Chunks.ChunkPlanLast | flashcp.c:372 | the last chunk of ChunkPlan is `size % BUFSIZE` when that is nonzero, and BUFSIZE otherwise |
| Chunks.ChunkPlanCount | flashcp.c:366-402 | ChunkPlan has ceil(size / BUFSIZE) chunks; an empty payload has none |
| Chunks.ChunkStart | flashcp.c:400-401 | chunk number k of ChunkPlan starts k * BUFSIZE bytes into the payload |
| Chunks.ChunkPlanAdvance | flashcp.c:372-401 | a pass that has gone through the chunks `done` and has `size` bytes to go takes `min(BUFSIZE, size)` next; that chunk extends `done` along the plan, and `written` grows by it |
| Chunks.PlanSoFarNext | flashcp.c:372 | the chunk taken after the chunks `done` is chunk number `|done|` of the plan |
| Chunks.SeventyKiBInSevenChunks | flashcp.c:366-402 | the plan for a 70 KiB payload is seven full 10 KiB chunks |
| EraseRange.BitAnd | flashcp.c:326 | the bitwise AND is at most each of its operands |
| EraseRange.EraseLength | flashcp.c:325-327 | the erase length `size & ~(erasesize - 1)`, plus one block for a partial one, in a 32-bit field: the result is below 2^32; EraseLengthUnwrapped and EraseLengthRounds state the rounding |
| EraseRange.EraseLengthUnwrapped | flashcp.c:325-327 | without wrap-around, the erase length is `size` rounded down to whole blocks, plus one block when there is a partial one |
| EraseRange.EraseLengthRounds | flashcp.c:325-327 | for a power-of-two erase size B, the erase length is a multiple of B and equals ceil(size / B) * B; size <= length < size + B; it is 0 for an empty payload |
| EraseRange.FitsOnDevice | flashcp.c:313-327 | a payload that passed the fit check on a 32-bit partition of whole blocks cannot make the 32-bit length wrap, and its erase range lies inside the partition |
| EraseRange.VerboseBlockCount | flashcp.c:331 | `int blocks = erase.length / mtd.erasesize`, a 32-bit quotient stored in a signed int; it has no contract of its own, and VerboseBlockCountExact, VerboseBlockCountCovers and VerboseBlockCountNegative state when it is the true quotient and when it turns negative |
| EraseRange.VerboseBlockCountExact | flashcp.c:331 | the `int` block count of the verbose policy is the true quotient `length / erasesize` when erase blocks are at least 2 bytes |
| EraseRange.VerboseBlockCountCovers | flashcp.c:331-345 | a block count that does not wrap, times the block size, is the block-aligned erase length |
| EraseRange.VerboseBlockCountNegative | flashcp.c:331 | the block count turns negative exactly for 1-byte erase blocks and erase lengths of 2 GiB or more |
| EraseRange.BlockSpans | flashcp.c:332-346 | the verbose policy's commands: `blocks` erases of one block each, at offsets 0, B, 2B, ... |
| EraseRange.BlockSpansSnoc | flashcp.c:345 | each pass of the verbose loop appends the next block's command |
| EraseRange.BlockOf | flashcp.c:332-346 | a byte below `blocks * B` is erased by the command of block `x / B` |
| EraseRange.BlockSpansCover | flashcp.c:331-358 | the one-block erases together erase exactly `[0, blocks * B)`, the range of the silent policy's single erase, and nothing else |
| EraseRange.SeventyKiBOnSixtyFourKiBBlocks | flashcp.c:325-334 | a 70 KiB payload on 64 KiB blocks needs a 128 KiB erase, which the verbose policy issues as two block erases |
| Descriptor.Transfer | flashcp.c:142 | a read(2) (lines 142 and 277) or write(2) (lines 383 and 280) result lies between -1 and the count asked for; it equals the count exactly when the bytes are there, the call can move them and no byte is at the fault; it is negative exactly when the first byte is at the fault |
| Descriptor.Erased | flashcp.c:337 | an erase sets every byte of its range to 0xFF and no other byte |
| Descriptor.ErasedConcat | flashcp.c:334-346 | erasing two adjacent ranges in turn is erasing their union |
| Descriptor.Program | flashcp.c:383 | write(2) to flash: the flash keeps its length (ProgramAppend and ProgramErased state what the cells then hold) |
| Descriptor.Overwrite | flashcp.c:280 | write(2) to a regular file: the file keeps its length, or grows to the end of the write when it runs past the end (OverwriteReplaces states the bytes) |
| Descriptor.ProgramAppend | flashcp.c:380-401 | programming a chunk after the payload's prefix is programming the longer prefix |
| Descriptor.ProgramErased | flashcp.c:383 | programming erased flash stores exactly the bytes written |
| Descriptor.OverwriteReplaces | flashcp.c:280 | a write to a regular file keeps the bytes before the offset, stores the written bytes, and keeps the bytes after them |
| Descriptor.OverwriteConcat | flashcp.c:279-289 | two writes to a regular file, one after the other, are one write of both |
| Descriptor.Fd.Read | flashcp.c:142 | read(2), as safe_read and the dump loop (line 277) call it, returns Transfer's value, copies that many bytes from the offset into the buffer, advances the offset by them, and leaves the rest of the buffer alone |
| Descriptor.Fd.Write | flashcp.c:383 | write(2), as the write loop and the dump loop (line 280) call it, returns Transfer's value; on the device the bytes are ANDed into the flash, on a regular file they replace bytes and may grow it; a failure changes nothing |
| Descriptor.Fd.Erase | flashcp.c:337 | MEMERASE erases the range exactly when it lies in the partition and holds no bad block; it records the command either way |
| Descriptor.Fd.Rewind | flashcp.c:158 | lseek(fd, 0, SEEK_SET) succeeds unless seeking fails on this descriptor, and then sets the offset to 0 |
| Passes.WholeSplit | flashcp.c:370-402 | a range moves in full chunk by chunk exactly when its first chunk moves in full and so does the rest |
| Passes.WriteFrom | flashcp.c:366-402 | the write pass never lands more than the payload, the file or the flash holds |
| Passes.WriteChunk | flashcp.c:372-401 | one pass of the write loop's body and the rest of the pass after it: the landed count stays between the chunk's start and the payload size, and within the file and the flash |
| Passes.WriteFailure | flashcp.c:380-397 | the failure a chunk of the write loop reports: 12 or 13 from the safe_read of the file, 21 with the chunk's range, or 22 with the range and the bytes that landed; it has no contract of its own, and WriteFromStops and WriteFromExits state it |
| Passes.WriteFromStep | flashcp.c:370-402 | one pass of the write loop: on to the next chunk after a full read and a full write, otherwise the failure this chunk reports |
| Passes.WriteFromSucceeds | flashcp.c:366-402 | the write pass succeeds exactly when every chunk is read from the file and written to the device in full; it then has landed the whole payload |
| Passes.WriteFromExits | flashcp.c:376-397 | the write pass succeeds or exits with 12, 13, 21 or 22 |
| Passes.WriteFromAlongPlan | flashcp.c:370-402 | from any point of ChunkPlan(total), a failed or short write the write pass reports is on a later chunk of the plan, with that chunk's range |
| Passes.WriteFromFollowsPlan | flashcp.c:370-397 | a failed or short write the write pass reports has the range `[Sum(plan[..m]), Sum(plan[..m]) + plan[m])` of some chunk m of ChunkPlan(total) |
| Passes.WriteFromStops | flashcp.c:376-397 | a failing write pass stops at one chunk `[v, v + i)`; every chunk before it moved in full; the failure is exit 12 or 13 for a bad read, 21 with range `[v, v + i)` for a failed write, or 22 with that range and `v + result` bytes landed for a short write |
| Passes.VerifyFrom | flashcp.c:420-447 | the verify loop from payload byte `w` on; it has no contract of its own, and VerifyFromSucceeds, VerifyFromExits and VerifyFromReportsFirstMismatch state how it ends |
| Passes.VerifyChunk | flashcp.c:422-446 | one pass of the verify loop's body and the rest of the pass after it; VerifyFromStep states it |
| Passes.CompareFailure | flashcp.c:431-443 | what a chunk of the verify loop reports: success, or exit 12, 13 or 23, and a mismatch carries the chunk's range `[w, w + i)` |
| Passes.VerifyFromStep | flashcp.c:420-447 | one pass of the verify loop: on to the next chunk after two full reads that compare equal, otherwise this chunk's failure |
| Passes.EqualIffChunksEqual | flashcp.c:437 | two rows are equal on a range exactly when they are equal on both of its parts |
| Passes.VerifyFromSucceeds | flashcp.c:414-447 | the verify pass succeeds exactly when both sides read every chunk in full and the file's first `size` bytes equal the flash's |
| Passes.VerifyFromOnlyMismatches | flashcp.c:437-443 | when both sides read in full, the verify pass succeeds or exits 23 |
| Passes.VerifyFromExits | flashcp.c:429-443 | the verify pass succeeds or exits with 12, 13 or 23 |
| Passes.VerifyFromReportsFirstMismatch | flashcp.c:437-443 | a reported mismatch `[s, e)` is the first differing chunk: s is a chunk start, e = s + min(BUFSIZE, size - s), every byte before s matched, and the chunk differs |
| Passes.VerifyFromAlongPlan | flashcp.c:420-447 | from any point of ChunkPlan(total), a mismatch the verify pass reports is on a later chunk of the plan, with that chunk's range |
| Passes.VerifyFromFollowsPlan | flashcp.c:420-443 | a mismatch the verify pass reports has the range of some chunk m of ChunkPlan(total) |
| Passes.VerifyFromFindsFlippedByte | flashcp.c:414-447 | when the file and the flash read in full and differ in one byte j, the verify pass exits 23 with the chunk holding byte j |
| Steps.SafeRead | flashcp.c:138-154 | safe_read returns normally exactly when read(2) returns the count; otherwise exit 12 for a negative result and 13 for a short one; on success the buffer holds the bytes at the old offset |
| Steps.SafeRewind | flashcp.c:156-163 | safe_rewind sets the offset to 0, or exits 14 and leaves it |
| Steps.EraseSilent | flashcp.c:349-359 | the silent policy issues one MEMERASE over `[0, length)`; it succeeds exactly when that range can be erased and then leaves it erased; otherwise exit 20 with that range and the flash unchanged |
| Steps.BlocksErasableIffRange | flashcp.c:331-358 | each block of `[0, blocks * B)` can be erased on its own exactly when the whole range can be erased at once |
| Steps.EraseVerbose | flashcp.c:328-348 | the verbose policy issues the one-block erases in order and succeeds exactly when every block can be erased, leaving `[0, blocks * B)` erased; otherwise it ends with exit 19 at a block k that cannot be erased, with range `[kB, kB + B)`, every block before k erasable and erased, and nothing issued after k; a negative block count issues nothing |
| Steps.FailedAtFirstBadBlock | flashcp.c:334-346 | the block exit 19 names is the first one that cannot be erased, and the failure starts at its offset |
| Steps.PutChunk | flashcp.c:380-397 | the write(2) of one chunk: success exactly when the whole chunk goes; exit 21 when write(2) fails; exit 22 with the landed count when it is short; the flash holds the payload prefix that landed |
| Steps.CopyChunk | flashcp.c:372-401 | one pass of the write loop's body does what WriteFrom says of that chunk; the flash holds the payload prefix that landed |
| Steps.WriteLoop | flashcp.c:366-402 | the write loop returns WriteFrom's outcome and programs exactly the landed prefix of the payload into the flash; on success both offsets are at `size` |
| Steps.CompareChunk | flashcp.c:422-446 | one pass of the verify loop's body (two safe_reads and the memcmp) does what VerifyFrom says of that chunk |
| Steps.VerifyLoop | flashcp.c:416-447 | the verify loop returns VerifyFrom's outcome for the file against the flash |
| Dump.RewriteOnce | flashcp.c:280-289 | one write(2) of the dump's inner loop and the rest of the loop: when the loop ends it has appended exactly `todo` bytes, which are not the unwritten tail after a short write, since every retry starts again at the start of the buffer |
| Dump.Rewrites | flashcp.c:279-290 | the inner dump loop appends exactly `numRead` bytes when it ends |
| Dump.RewritesStep | flashcp.c:279-290 | one write of the inner loop, each from the start of the buffer |
| Dump.RewritesHangIff | flashcp.c:279-290 | the inner loop loops for ever exactly when a byte it would write lies at the write fault |
| Dump.RewritesAdvance | flashcp.c:280-285 | a write of the inner loop either fails, and so does the loop, or adds its bytes to those sent so far |
| Dump.RewritesWhole | flashcp.c:279-290 | when one write takes all `numRead` bytes, the file receives the buffer as read |
| Dump.ShortWriteRepeatsFirstByte | flashcp.c:280 | a file taking one byte per write receives the buffer `[1, 2]` as `[1, 1]` |
| Dump.DumpChunk | flashcp.c:277-299 | one pass of the dump's outer loop after a read of more than 0 bytes: the dump then ends with status 0 or does not end |
| Dump.DumpFrom | flashcp.c:277-299 | the dump loop never exits with a failure status: it ends with status 0 or does not end |
| Dump.ReadEnd | flashcp.c:277 | the dump reads up to the read fault when one lies ahead, and up to the end of the partition otherwise |
| Dump.DumpCopiesUpToReadEnd | flashcp.c:277-299 | when whole buffers go to the dump file without fault, the dump succeeds and the file receives the partition up to the read fault, with `totalWritten` its length |
| Dump.DumpFromFull | flashcp.c:277-290 | a buffer the dump file takes in one write is appended as read |
| Dump.WriteOut | flashcp.c:278-290 | the inner loop ends exactly when Rewrites ends; each non-negative write adds to totalWritten; it then stores Rewrites' bytes at the old totalWritten |
| Dump.DumpDevice | flashcp.c:277-299 | the dump loop ends as DumpFrom says and leaves DumpFrom's file and totalWritten |
| Flashcp.CopyRun | flashcp.c:366-447 | the write pass, both rewinds and the verify pass over the flash with the landed bytes programmed; it has no contract of its own, and CopyRunChecksFlash, CopyRunSucceeds, CopyRunExits and PipeCannotBeVerified state how it ends |
| Flashcp.CopyRunChecksFlash | flashcp.c:366-447 | a copy that succeeds read and wrote every chunk in full, rewound both descriptors, and left the payload in the first `size` bytes of the flash |
| Flashcp.CopyRunSucceeds | flashcp.c:366-447 | on erased flash, a copy whose I/O moves every chunk in full and whose descriptors both seek succeeds |
| Flashcp.CopyRunExits | flashcp.c:366-447 | after the erase a copy succeeds or exits with 12, 13, 14, 21, 22 or 23 |
| Flashcp.PipeCannotBeVerified | flashcp.c:264-415 | copying from standard input that cannot seek never succeeds; it exits 14 after the write pass |
| Flashcp.AfterErase | flashcp.c:325-359 | the flash after a successful erase: the first `size` bytes read as 0xFF, unless the verbose block count wraps negative and nothing is erased |
| Flashcp.Erase | flashcp.c:325-359 | both policies erase `[0, EraseLength(size))`, which covers the payload and lies in the partition; each succeeds exactly when that range can be erased, leaving AfterErase, unless the verbose block count wraps negative; then nothing is erased and the erase succeeds; a verbose failure is exit 19 with range `[kB, kB + B)` at the first bad block k, blocks before it erased; a silent failure is exit 20 with `[0, length)` and leaves the flash unchanged |
| Flashcp.WriteAndVerify | flashcp.c:366-447 | the write pass, the two rewinds and the verify pass together return CopyRun's outcome; the flash keeps the bytes that landed |
| Flashcp.Copy | flashcp.c:312-455 | exit 18 exactly when the payload is larger than the partition, and then nothing is erased or written; otherwise the only failures are exit 19 from a verbose erase, at a block below the verbose block count, or exit 20 from a silent one (with the flash as Flashcp.Erase states), or a read, write, seek or mismatch failure from the passes; an erase range with a bad block always ends in 19 or 20, unless the verbose block count wraps negative; once the erase succeeds, the outcome is CopyRun's on the erased flash, with the status, range and landed count that pass reports; after the write pass the flash is the erased flash programmed with the bytes that landed; success leaves the payload in the first `size` bytes of the flash; a healthy run succeeds; an unseekable source never succeeds; a copy never hangs |
| Flashcp.Run | flashcp.c:256-455 | exit 11 when the device does not open, 15 when it is not an MTD, 16 when the dump file does not open, 11 when the file does not open, before the flash is erased or written; a dump fails only in one of those three ways, leaves the flash alone and ends as DumpFrom; both copy commands end as Flashcp.Copy states, exit 18 included, and an erase range with a bad block always ends in 19 or 20, unless the verbose block count wraps negative; only the copy needs the erase geometry, so a dump of any MTD partition is accepted; a successful copy of a file leaves the whole file in the flash |

## Left out

- Command-line parsing and the usage text (exit 10) are not modelled. A run starts from a parsed `Command` and a `verbose` flag.
- Logging, progress lines and the `KB` and `PERCENTAGE` macros are left out. They only print.
- Steps.EraseVerbose: the block counter `i` of flashcp.c:334 is an unbounded integer, so the signed overflow of `i++` when there are INT_MAX blocks (for instance 1-byte erase blocks and a payload of 2^31 - 1 bytes, or 2-byte erase blocks and a payload of 2^32 - 3 or 2^32 - 2 bytes) is not modelled.
- open(2) failures are boolean parameters of `Flashcp.Run`, because the model has no file system.
- An fstat(2) failure (exit 17) is left out. The model takes the file size to be the length of its data.
- Closing descriptors and the `atexit` cleanup are left out. They only release resources.
- A negative `-s` length is left out. `Command.CopyStream` takes a natural number.
- Non-uniform erase regions are left out, as the code does not handle them either.
- `UniformGeometry` is a precondition of the erase, and so of the copy commands of `Flashcp.Run` but not of its dump: a power-of-two erase size, and a 32-bit partition of whole blocks. The rounding mask is only right for a power-of-two erase size.
- The dump's endless retry of a failing write is modelled as the outcome `Hangs`. The model does not run the loop for ever.
- Dump.WriteOut: the `int` counter `totalWritten` is unbounded, so its overflow after 2 GiB is not modelled.
- The dump file is opened without `O_TRUNC`, so the model writes from offset 0 over any old contents. Bytes past the dumped length stay, as the code leaves them.
- Descriptor.Fd.Write: a write(2) that fails leaves the flash or file unchanged. A real device may have programmed part of the chunk.
- Descriptor.Fd.Erase: a MEMERASE that fails leaves the flash unchanged. A real device may have erased part of the range.
- Both passes start at offset 0. The device and the file are freshly opened or rewound, and standard input is taken to be at offset 0.
- Descriptor.Fd: each descriptor fails at one fixed offset per direction, and moves at most a fixed number of bytes per call. Other kernel behaviour (a fault that comes and goes, a call that moves fewer bytes for a while) is not modelled.
