/** The open descriptors flashcp works through: the MTD character device,
    the file (or standard input) it copies, and the dump file.  One class
    stands for all of them, as one `int fd` does in C.  Whatever the kernel
    decides (how many bytes a call moves, where I/O fails, which erase
    blocks are bad, whether a seek works) is a field fixed when the
    descriptor is made, so each run of the model is deterministic. */
module Descriptor {
  import opened EraseRange
  import opened Chunks

  type byte = bv8

  datatype Option<T> = None | Some(value: T)

  /** What MEMGETINFO reports: partition size and erase-block size. */
  datatype MtdInfo = MtdInfo(size: nat, erasesize: nat)

  /** The geometry flashcp's arithmetic is written for: one uniform
      erase-block size, a power of two, and a 32-bit partition of whole
      blocks. */
  predicate UniformGeometry(info: MtdInfo)
  {
    && IsPowerOfTwo(info.erasesize) && info.erasesize < U32
    && info.size < U32 && info.size % info.erasesize == 0
  }

  /** The failing offset `fault` lies in `[from, from + len)`. */
  predicate FaultIn(fault: Option<nat>, from: nat, len: nat)
  {
    fault.Some? && from <= fault.value < from + len
  }

  /** The value read(2) or write(2) returns when `count` bytes are asked
      for at offset `pos`, with `room` bytes before the end of the data,
      at most `cap` bytes moved per call and an I/O error at offset
      `fault`: the bytes before the fault, or -1 when the fault is the very
      first byte. */
  function Transfer(pos: nat, count: nat, room: nat, cap: nat, fault: Option<nat>): (r: int)
    ensures -1 <= r <= count && r <= room && r <= cap
    ensures r == count <==> count <= room && count <= cap && !FaultIn(fault, pos, count)
    ensures r < 0 <==> 0 < count && 0 < room && 0 < cap && fault == Some(pos)
    ensures 0 < count && 0 < room && 0 < cap ==> r != 0
  {
    var n := Min(Min(count, room), cap);
    if FaultIn(fault, pos, n) then (if fault.value == pos then -1 else fault.value - pos) else n
  }

  /** Flash after erasing `[start, start + len)`: all bits set. */
  function Erased(d: seq<byte>, start: nat, len: nat): (r: seq<byte>)
    requires start + len <= |d|
    ensures |r| == |d|
    ensures forall k :: 0 <= k < |d| ==> r[k] == if start <= k < start + len then 0xFF else d[k]
  {
    d[..start] + seq(len, _ => 0xFF) + d[start + len..]
  }

  /** Flash after programming `b` at offset `at`: programming can only
      clear bits, so each cell in `[at, at + |b|)` keeps the AND of its old
      value and the new byte, and every other cell is left alone. */
  function Program(d: seq<byte>, at: nat, b: seq<byte>): (r: seq<byte>)
    requires at + |b| <= |d|
    ensures |r| == |d|
  {
    seq(|d|, k requires 0 <= k < |d| => if at <= k < at + |b| then d[k] & b[k - at] else d[k])
  }

  /** A regular file after writing `b` at offset `at`: the bytes are
      replaced, and the file grows when the write runs past its end. */
  function Overwrite(d: seq<byte>, at: nat, b: seq<byte>): (r: seq<byte>)
    requires at <= |d|
    ensures |r| == if at + |b| <= |d| then |d| else at + |b|
  {
    d[..at] + b + (if at + |b| <= |d| then d[at + |b|..] else [])
  }

  /** The bytes before `at` stay, `b` follows, and so does the rest of the
      old contents when `b` ends inside the file. */
  lemma OverwriteReplaces(d: seq<byte>, at: nat, b: seq<byte>)
    requires at <= |d|
    ensures var r := Overwrite(d, at, b);
      && r[..at] == d[..at] && r[at..at + |b|] == b
      && (at + |b| <= |d| ==> r[at + |b|..] == d[at + |b|..])
  {
    var r := Overwrite(d, at, b);
    assert r[at..at + |b|] == b by {
      forall k | 0 <= k < |b| ensures r[at..at + |b|][k] == b[k] {
        assert r[at + k] == b[k];
      }
    }
  }

  /** MEMERASE succeeds on `[start, start + len)` of a partition of `size`
      bytes whose unerasable offsets are `bad`: the range lies in the
      partition and holds no bad offset. */
  predicate Erasable(size: nat, bad: set<nat>, start: nat, len: nat)
  {
    start + len <= size && forall x :: x in bad ==> !(start <= x < start + len)
  }

  /** Erasing two adjacent ranges one after the other is erasing their
      union. */
  lemma ErasedConcat(d: seq<byte>, start: nat, a: nat, b: nat)
    requires start + a + b <= |d|
    ensures Erased(Erased(d, start, a), start + a, b) == Erased(d, start, a + b)
  {
    var lhs, rhs := Erased(Erased(d, start, a), start + a, b), Erased(d, start, a + b);
    forall k | 0 <= k < |d| ensures lhs[k] == rhs[k] {
    }
  }

  /** Programming the first `n` bytes of chunk `c = f[w..w + |c|]` after the
      first `w` bytes of `f` is programming the first `w + n` bytes of `f`. */
  lemma ProgramAppend(d: seq<byte>, f: seq<byte>, w: nat, c: seq<byte>, n: nat)
    requires w + |c| <= |f| && w + n <= |d| && n <= |c| && c == f[w..w + |c|]
    ensures Program(Program(d, 0, f[..w]), w, c[..n]) == Program(d, 0, f[..w + n])
  {
    var lhs, rhs := Program(Program(d, 0, f[..w]), w, c[..n]), Program(d, 0, f[..w + n]);
    forall k | 0 <= k < |d| ensures lhs[k] == rhs[k] {
      if w <= k < w + n {
        assert c[..n][k - w] == c[k - w] == f[k];
      }
    }
  }

  /** Programming erased cells stores exactly the bytes written. */
  lemma ProgramErased(d: seq<byte>, at: nat, b: seq<byte>)
    requires at + |b| <= |d|
    requires forall k :: at <= k < at + |b| ==> d[k] == 0xFF
    ensures Program(d, at, b)[at..at + |b|] == b
  {
    var r := Program(d, at, b);
    forall k | 0 <= k < |b| ensures r[at + k] == b[k] {
      assert d[at + k] == 0xFF;
    }
  }

  /** Writing two pieces of a regular file one after the other is writing
      them together. */
  lemma OverwriteConcat(d: seq<byte>, at: nat, a: seq<byte>, b: seq<byte>)
    requires at <= |d|
    ensures at + |a| <= |Overwrite(d, at, a)|
    ensures Overwrite(Overwrite(d, at, a), at + |a|, b) == Overwrite(d, at, a + b)
  {
    var lhs, rhs := Overwrite(Overwrite(d, at, a), at + |a|, b), Overwrite(d, at, a + b);
    forall k | 0 <= k < |lhs| ensures lhs[k] == rhs[k] {
    }
  }

  /** Writing nothing leaves a regular file as it was. */
  lemma OverwriteNothing(d: seq<byte>, at: nat)
    requires at <= |d|
    ensures Overwrite(d, at, []) == d
  {
  }

  class Fd {
    /** The bytes behind the descriptor: the whole partition for the
        device, the file contents for a file. */
    var data: seq<byte>
    /** The file offset. */
    var pos: nat
    /** MEMGETINFO's answer; None for a descriptor that is not an MTD. */
    const info: Option<MtdInfo>
    /** The most bytes one read(2) or write(2) call moves. */
    const cap: nat
    /** The offset at which reading fails with an I/O error. */
    const readFault: Option<nat>
    /** The offset at which writing fails with an I/O error. */
    const writeFault: Option<nat>
    /** Offsets whose erase block cannot be erased. */
    const badBlocks: set<nat>
    /** lseek(2) fails, as it does on a pipe. */
    const seekFails: bool
    /** The MEMERASE commands issued so far. */
    ghost var erases: seq<Span>

    ghost predicate Valid()
      reads this
    {
      && pos <= |data| && cap > 0
      && (info.Some? ==> info.value.size == |data|)
    }

    constructor (data: seq<byte>, info: Option<MtdInfo>, cap: nat, readFault: Option<nat>,
                 writeFault: Option<nat>, badBlocks: set<nat>, seekFails: bool)
      requires cap > 0
      requires info.Some? ==> info.value.size == |data|
      ensures Valid() && this.data == data && pos == 0 && erases == []
      ensures this.info == info && this.cap == cap && this.readFault == readFault
      ensures this.writeFault == writeFault && this.badBlocks == badBlocks && this.seekFails == seekFails
    {
      this.data, this.pos := data, 0;
      this.info, this.cap := info, cap;
      this.readFault, this.writeFault := readFault, writeFault;
      this.badBlocks, this.seekFails := badBlocks, seekFails;
      this.erases := [];
    }

    /** What read(fd, buf, count) returns now. */
    function ReadResult(count: nat): int
      reads this
      requires Valid()
    {
      Transfer(pos, count, |data| - pos, cap, readFault)
    }

    /** What write(fd, buf, count) returns now: the device ends at the end
        of the partition, a regular file grows. */
    function WriteResult(count: nat): int
      reads this
      requires Valid()
    {
      Transfer(pos, count, if info.Some? then |data| - pos else count, cap, writeFault)
    }

    /** MEMERASE succeeds on `[start, start + len)` now. */
    predicate CanErase(start: nat, len: nat)
      reads this
    {
      Erasable(|data|, badBlocks, start, len)
    }

    /** read(2): copies what ReadResult promises into `buf`. */
    method Read(buf: array<byte>, count: nat) returns (result: int)
      requires Valid() && count <= buf.Length
      modifies this`pos, buf
      ensures Valid()
      ensures result == old(ReadResult(count))
      ensures result >= 0 ==> pos == old(pos) + result && buf[..result] == data[old(pos)..pos]
      ensures result < 0 ==> pos == old(pos)
      ensures forall k :: (if result > 0 then result else 0) <= k < buf.Length ==> buf[k] == old(buf[k])
    {
      result := ReadResult(count);
      if result > 0 {
        forall k | 0 <= k < result {
          buf[k] := data[pos + k];
        }
        pos := pos + result;
      }
    }

    /** write(2): stores what WriteResult promises from `buf`. */
    method Write(buf: array<byte>, count: nat) returns (result: int)
      requires Valid() && count <= buf.Length
      modifies this`data, this`pos
      ensures Valid()
      ensures result == old(WriteResult(count))
      ensures result >= 0 ==> pos == old(pos) + result
      ensures result >= 0 && info.Some? ==> data == Program(old(data), old(pos), buf[..result])
      ensures result >= 0 && info.None? ==> data == Overwrite(old(data), old(pos), buf[..result])
      ensures result < 0 ==> data == old(data) && pos == old(pos)
    {
      result := WriteResult(count);
      if result >= 0 {
        if info.Some? {
          data := Program(data, pos, buf[..result]);
        } else {
          data := Overwrite(data, pos, buf[..result]);
        }
        pos := pos + result;
      }
    }

    /** ioctl(MEMERASE): erases the range when CanErase holds and leaves
        the flash as it was otherwise. */
    method Erase(start: nat, len: nat) returns (ok: bool)
      requires Valid() && info.Some?
      modifies this`data, this`erases
      ensures Valid()
      ensures erases == old(erases) + [Span(start, len)]
      ensures ok == old(CanErase(start, len))
      ensures data == if ok then Erased(old(data), start, len) else old(data)
    {
      ok := CanErase(start, len);
      if ok {
        data := Erased(data, start, len);
      }
      erases := erases + [Span(start, len)];
    }

    /** lseek(fd, 0, SEEK_SET). */
    method Rewind() returns (ok: bool)
      requires Valid()
      modifies this`pos
      ensures Valid()
      ensures ok == !seekFails
      ensures pos == if ok then 0 else old(pos)
    {
      ok := !seekFails;
      if ok {
        pos := 0;
      }
    }
  }
}
