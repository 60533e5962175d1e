/** How a run of flashcp ends: every fatal condition has its own exit
    status and carries what flashcp's message reports about it. */
module Outcomes {

  /** Which descriptor a failure is about: flashcp's messages name the
      file (or standard input) or the flash device. */
  datatype Origin = Source | Flash

  datatype Failure =
    | OpenFailed(which: Origin)           // safe_open: open(2) failed
    | ReadError(which: Origin)            // safe_read: read(2) returned < 0
    | ShortRead(which: Origin)            // safe_read: fewer bytes than asked
    | SeekError(which: Origin)            // safe_rewind: lseek(2) failed
    | NotMtd                              // MEMGETINFO failed
    | DumpOpenFailed                      // the dump file cannot be opened
    | WontFit                             // payload larger than the partition
    | BlockEraseError(start: nat, end: nat)  // verbose policy: one block failed
    | EraseError(start: nat, end: nat)       // silent policy: the erase failed
    | WriteError(start: nat, end: nat)       // write(2) to flash returned < 0
    | ShortWrite(start: nat, end: nat, landed: nat, total: nat)  // short write
    | Mismatch(start: nat, end: nat)         // verify found different bytes
  {
    /** The exit status flashcp gives this failure. */
    function ExitCode(): (code: nat)
      ensures 11 <= code <= 23 && code != 17
    {
      match this
      case OpenFailed(_) => 11
      case ReadError(_) => 12
      case ShortRead(_) => 13
      case SeekError(_) => 14
      case NotMtd => 15
      case DumpOpenFailed => 16
      case WontFit => 18
      case BlockEraseError(_, _) => 19
      case EraseError(_, _) => 20
      case WriteError(_, _) => 21
      case ShortWrite(_, _, _, _) => 22
      case Mismatch(_, _) => 23
    }
  }

  /** Success is exit status 0; Hangs stands for a run that never exits. */
  datatype Outcome = Success | Fatal(failure: Failure) | Hangs

  predicate SameCondition(f: Failure, g: Failure)
  {
    || (f.OpenFailed? && g.OpenFailed?)
    || (f.ReadError? && g.ReadError?)
    || (f.ShortRead? && g.ShortRead?)
    || (f.SeekError? && g.SeekError?)
    || (f.NotMtd? && g.NotMtd?)
    || (f.DumpOpenFailed? && g.DumpOpenFailed?)
    || (f.WontFit? && g.WontFit?)
    || (f.BlockEraseError? && g.BlockEraseError?)
    || (f.EraseError? && g.EraseError?)
    || (f.WriteError? && g.WriteError?)
    || (f.ShortWrite? && g.ShortWrite?)
    || (f.Mismatch? && g.Mismatch?)
  }

  /** Two failures share an exit status exactly when they are the same
      fatal condition. */
  lemma ExitCodesDistinct(f: Failure, g: Failure)
    ensures f.ExitCode() == g.ExitCode() <==> SameCondition(f, g)
  {
  }

  /** The failures the pipeline can report once the erase is done: those
      of safe_read, of write(2) to the flash, of safe_rewind and of the
      comparison. */
  predicate PassFailure(f: Failure)
  {
    f.ReadError? || f.ShortRead? || f.WriteError? || f.ShortWrite? || f.SeekError? || f.Mismatch?
  }
}
