/** Erase-range arithmetic of flashcp: how many bytes, and which erase
    commands, cover a payload of `size` bytes on a device whose erase
    blocks are `erasesize` bytes long. */
module EraseRange {

  /** 2^32: unsigned 32-bit quantities (`mtd.size`, `mtd.erasesize`,
      `erase.start`, `erase.length`) live below it. */
  const U32: nat := 0x1_0000_0000

  /** n is 1, 2, 4, 8, ... */
  predicate IsPowerOfTwo(n: nat)
    decreases n
  {
    n == 1 || (n > 1 && n % 2 == 0 && IsPowerOfTwo(n / 2))
  }

  /** The C operator `&` on non-negative integers, one bit at a time from
      the least significant one. */
  function BitAnd(x: nat, y: nat): (r: nat)
    ensures r <= x && r <= y
    decreases x
  {
    if x == 0 || y == 0 then 0
    else 2 * BitAnd(x / 2, y / 2) + (if x % 2 == 1 && y % 2 == 1 then 1 else 0)
  }

  /** The C operator `~` on a 32-bit unsigned value. */
  function Not32(x: nat): nat
    requires x < U32
  {
    U32 - 1 - x
  }

  /** The erase length flashcp computes for a payload of `size` bytes:
      `size & ~(erasesize - 1)`, then `erasesize` more when `size` is not a
      whole number of blocks; `erase.length` is a 32-bit field, so the
      addition wraps. */
  function EraseLength(size: nat, erasesize: nat): (r: nat)
    requires 0 < erasesize < U32
    ensures r < U32
  {
    var masked := BitAnd(size, Not32(erasesize - 1)) % U32;
    (masked + (if size % erasesize != 0 then erasesize else 0)) % U32
  }

  /** The block count of the verbose policy, `int blocks = erase.length /
      mtd.erasesize`: a 32-bit unsigned quotient stored in a signed 32-bit
      int, which turns quotients of 2^31 and more negative. */
  function VerboseBlockCount(length: nat, erasesize: nat): int
    requires 0 < erasesize
  {
    var q := length / erasesize;
    if q < 0x8000_0000 then q else q - U32
  }

  // ---------------------------------------------------------------------
  // Powers of two

  lemma {:induction false} PowerOfTwoDivides(b: nat, w: nat)
    requires IsPowerOfTwo(b) && IsPowerOfTwo(w) && b <= w
    ensures w % b == 0
    decreases w
  {
    if b > 1 {
      PowerOfTwoDivides(b / 2, w / 2);
      HalfMod(w, b);
    }
  }

  /** For an even modulus, the remainder is made of the remainder of the
      halves and the lowest bit. */
  lemma HalfMod(x: nat, b: nat)
    requires b > 0 && b % 2 == 0
    ensures x % b == 2 * ((x / 2) % (b / 2)) + x % 2
  {
    var h := b / 2;
    var q, r := (x / 2) / h, (x / 2) % h;
    assert x / 2 == q * h + r;
    assert x == q * b + (2 * r + x % 2);
    assert 0 <= 2 * r + x % 2 < b;
    ModUnique(x, b, q, 2 * r + x % 2);
  }

  lemma ModUnique(x: int, b: int, q: int, r: int)
    requires b > 0 && 0 <= r < b && x == q * b + r
    ensures x % b == r && x / b == q
  {
    var q', r' := x / b, x % b;
    assert x == q' * b + r';
    assert (q - q') * b == r' - r;
    if q > q' {
      MulAtLeast(q - q', b);
    } else if q < q' {
      MulAtLeast(q' - q, b);
    }
  }

  lemma MulAtLeast(d: int, b: int)
    requires d >= 1 && b > 0
    ensures d * b >= b
  {
  }

  lemma {:induction false} PowerOfTwoProduct(a: nat, b: nat)
    requires IsPowerOfTwo(a) && IsPowerOfTwo(b)
    ensures IsPowerOfTwo(a * b)
    decreases a
  {
    if a > 1 {
      PowerOfTwoProduct(a / 2, b);
      assert a * b == 2 * ((a / 2) * b);
      assert (a * b) / 2 == (a / 2) * b;
    }
  }

  lemma PowerOfTwo32()
    ensures IsPowerOfTwo(U32)
  {
    assert IsPowerOfTwo(0x1_0000);
    PowerOfTwoProduct(0x1_0000, 0x1_0000);
  }

  // ---------------------------------------------------------------------
  // The mask

  /** Masking with all ones below a power of two keeps a smaller value. */
  lemma {:induction false} AndLowOnes(x: nat, w: nat)
    requires IsPowerOfTwo(w) && x < w
    ensures BitAnd(x, w - 1) == x
    decreases w
  {
    if x != 0 {
      AndLowOnes(x / 2, w / 2);
      assert (w - 1) / 2 == w / 2 - 1 && (w - 1) % 2 == 1;
    }
  }

  /** Masking with `w - b` clears exactly the bits that count below the
      power of two `b`: it rounds down to a multiple of `b`. */
  lemma {:induction false} AndHighOnes(x: nat, w: nat, b: nat)
    requires IsPowerOfTwo(w) && IsPowerOfTwo(b) && b <= w && x < w
    ensures BitAnd(x, w - b) == x - x % b
    decreases w
  {
    if b == 1 {
      AndLowOnes(x, w);
    } else if x == 0 {
    } else if w == b {
      ModUnique(x, b, 0, x);
    } else {
      var m := w - b;
      assert w % 2 == 0 && b % 2 == 0;
      assert m / 2 == w / 2 - b / 2 && m % 2 == 0;
      assert BitAnd(x, m) == 2 * BitAnd(x / 2, m / 2);
      AndHighOnes(x / 2, w / 2, b / 2);
      HalfMod(x, b);
    }
  }

  // ---------------------------------------------------------------------
  // Properties of the erase length

  lemma DivMod(x: nat, b: nat)
    requires b > 0
    ensures x == (x / b) * b + x % b && 0 <= x % b < b
  {
  }

  /** The mask `~(b - 1)` rounds a 32-bit value down to a multiple of the
      power of two `b`. */
  lemma MaskRoundsDown(size: nat, b: nat)
    requires IsPowerOfTwo(b) && b < U32 && size < U32
    ensures BitAnd(size, Not32(b - 1)) == size - size % b
  {
    PowerOfTwo32();
    AndHighOnes(size, U32, b);
  }

  /** A sum below 2^32 does not wrap. */
  lemma NoWrap(m: nat, e: nat)
    requires m + e < U32
    ensures (m % U32 + e) % U32 == m + e
  {
    ModUnique(m, U32, 0, m);
    ModUnique(m + e, U32, 0, m + e);
  }

  /** Once the mask is known to round down, the erase length adds the
      extra block without wrapping. */
  lemma LengthFromMask(size: nat, b: nat)
    requires 0 < b < U32 && size <= U32 - b
    requires BitAnd(size, Not32(b - 1)) == size - size % b
    ensures EraseLength(size, b) == size - size % b + (if size % b != 0 then b else 0)
  {
    var m, e := BitAnd(size, Not32(b - 1)), if size % b != 0 then b else 0;
    assert m + e < U32;
    NoWrap(m, e);
  }

  /** Without wrap-around, the erase length is `size` rounded down to a
      multiple of the block size, plus one block for a partial last one. */
  lemma EraseLengthUnwrapped(size: nat, b: nat)
    requires IsPowerOfTwo(b) && b < U32 && size <= U32 - b
    ensures EraseLength(size, b) == size - size % b + (if size % b != 0 then b else 0)
  {
    MaskRoundsDown(size, b);
    LengthFromMask(size, b);
  }

  lemma RoundUp(size: nat, b: nat)
    requires b > 0
    ensures var len := size - size % b + (if size % b != 0 then b else 0);
      len % b == 0 && len == ((size + b - 1) / b) * b && size <= len < size + b
  {
    var q, r := size / b, size % b;
    DivMod(size, b);
    var len := size - r + (if r != 0 then b else 0);
    if r == 0 {
      assert len == q * b;
      ModUnique(size + b - 1, b, q, b - 1);
      ModUnique(len, b, q, 0);
    } else {
      assert len == (q + 1) * b;
      ModUnique(size + b - 1, b, q + 1, r - 1);
      ModUnique(len, b, q + 1, 0);
    }
  }

  /** The erase length is `size` rounded up to whole erase blocks: a
      multiple of the block size, ceil(size / erasesize) blocks, at least
      `size` and less than a block more, 0 for an empty payload.  The one
      condition is that the rounded length still fits in 32 bits, which
      holds whenever `size` fits on a device of whole erase blocks. */
  lemma EraseLengthRounds(size: nat, erasesize: nat)
    requires IsPowerOfTwo(erasesize) && erasesize < U32
    requires size <= U32 - erasesize
    ensures EraseLength(size, erasesize) % erasesize == 0
    ensures EraseLength(size, erasesize) == ((size + erasesize - 1) / erasesize) * erasesize
    ensures size <= EraseLength(size, erasesize) < size + erasesize
    ensures size == 0 ==> EraseLength(size, erasesize) == 0
  {
    EraseLengthUnwrapped(size, erasesize);
    RoundUp(size, erasesize);
  }

  lemma MulMonotone(a: int, c: int, b: int)
    requires a <= c && b >= 0
    ensures a * b <= c * b
  {
    assert c * b - a * b == (c - a) * b;
  }

  /** A multiple of `b` below 2^32 is at most 2^32 - b. */
  lemma AlignedBelow(devSize: nat, b: nat)
    requires IsPowerOfTwo(b) && b < U32 && devSize < U32 && devSize % b == 0
    ensures devSize <= U32 - b
  {
    var n, m := devSize / b, U32 / b;
    DivMod(devSize, b);
    assert U32 == m * b by {
      PowerOfTwo32();
      PowerOfTwoDivides(b, U32);
      DivMod(U32, b);
    }
    if n >= m {
      MulMonotone(m, n, b);
    }
    MulMonotone(n, m - 1, b);
    assert (m - 1) * b == m * b - b;
  }

  /** Rounding up to a multiple of `b` stays below any multiple of `b`
      that is not smaller than the value rounded. */
  lemma RoundedStaysBelow(size: nat, len: nat, bound: nat, b: nat)
    requires b > 0 && len % b == 0 && bound % b == 0
    requires len < size + b && size <= bound
    ensures len <= bound
  {
    var k, n := len / b, bound / b;
    DivMod(len, b);
    DivMod(bound, b);
    assert (n + 1) * b == n * b + b;
    MulCancelLess(k, n + 1, b);
    MulMonotone(k, n, b);
  }

  lemma MulCancelLess(a: int, c: int, b: int)
    requires b > 0 && a * b < c * b
    ensures a < c
  {
    if a >= c {
      MulMonotone(c, a, b);
    }
  }

  /** A payload that passed the fit check (`size <= mtd.size`) on a device
      made of whole erase blocks satisfies the condition of
      EraseLengthRounds, and its erase range lies inside the device. */
  lemma FitsOnDevice(size: nat, devSize: nat, erasesize: nat)
    requires IsPowerOfTwo(erasesize) && erasesize < U32
    requires devSize < U32 && devSize % erasesize == 0 && size <= devSize
    ensures size <= U32 - erasesize
    ensures EraseLength(size, erasesize) <= devSize
  {
    AlignedBelow(devSize, erasesize);
    EraseLengthRounds(size, erasesize);
    RoundedStaysBelow(size, EraseLength(size, erasesize), devSize, erasesize);
  }

  /** The verbose policy's block count is the true quotient except for
      one-byte erase blocks and erase lengths of 2 GiB or more. */
  lemma VerboseBlockCountExact(length: nat, erasesize: nat)
    requires 2 <= erasesize && length < U32
    ensures VerboseBlockCount(length, erasesize) == length / erasesize
  {
    var q := length / erasesize;
    DivMod(length, erasesize);
    MulMonotone(2, erasesize, q);
    assert 2 * q <= length;
  }

  /** A block count that does not wrap counts whole blocks of a
      block-aligned length. */
  lemma VerboseBlockCountCovers(length: nat, erasesize: nat)
    requires 0 < erasesize && length < U32 && length % erasesize == 0
    requires VerboseBlockCount(length, erasesize) >= 0
    ensures VerboseBlockCount(length, erasesize) * erasesize == length
  {
    DivMod(length, erasesize);
    assert VerboseBlockCount(length, erasesize) == length / erasesize;
  }

  /** The block count turns negative only for one-byte erase blocks and an
      erase length of 2 GiB or more. */
  lemma VerboseBlockCountNegative(length: nat, erasesize: nat)
    requires 0 < erasesize && length < U32
    ensures VerboseBlockCount(length, erasesize) < 0 <==> erasesize == 1 && length >= 0x8000_0000
  {
    if erasesize >= 2 {
      VerboseBlockCountExact(length, erasesize);
    }
  }

  // ---------------------------------------------------------------------
  // Which bytes a list of erase commands covers

  /** The byte range `[start, start + len)` of one MEMERASE command. */
  datatype Span = Span(start: nat, len: nat)

  /** Byte `x` lies in the range of erase command `s`. */
  predicate InSpan(s: Span, x: nat)
  {
    s.start <= x < s.start + s.len
  }

  /** Some command of `ss` erases byte `x`. */
  predicate Covers(ss: seq<Span>, x: nat)
  {
    exists k :: 0 <= k < |ss| && InSpan(ss[k], x)
  }

  /** The commands of the verbose policy: `blocks` one-block erases at
      offsets 0, erasesize, 2 * erasesize, ... */
  function BlockSpans(blocks: nat, erasesize: nat): (ss: seq<Span>)
    ensures |ss| == blocks
    ensures forall k :: 0 <= k < blocks ==> ss[k] == Span(k * erasesize, erasesize)
  {
    seq(blocks, k requires 0 <= k < blocks => Span(k * erasesize, erasesize))
  }

  /** One more block appends one more command, at the next offset. */
  lemma BlockSpansSnoc(n: nat, b: nat)
    ensures BlockSpans(n + 1, b) == BlockSpans(n, b) + [Span(n * b, b)]
  {
    var lhs, rhs := BlockSpans(n + 1, b), BlockSpans(n, b) + [Span(n * b, b)];
    assert |lhs| == |rhs|;
    forall k | 0 <= k <= n ensures lhs[k] == rhs[k] {
    }
  }

  /** The block of the verbose policy that erases byte `x`. */
  lemma BlockOf(blocks: nat, b: nat, x: nat)
    requires x < blocks * b
    ensures b > 0 && x / b < blocks && InSpan(BlockSpans(blocks, b)[x / b], x)
  {
    var k := x / b;
    DivMod(x, b);
    if k >= blocks {
      MulMonotone(blocks, k, b);
    }
    assert (k * b) + b == (k + 1) * b;
  }

  /** The one-block erases of the verbose policy together erase exactly the
      bytes of the single erase of the silent policy: no byte is missed and
      none beyond it is touched. */
  lemma BlockSpansCover(blocks: nat, erasesize: nat)
    ensures forall x: nat :: Covers(BlockSpans(blocks, erasesize), x) <==> InSpan(Span(0, blocks * erasesize), x)
  {
    var b := erasesize;
    var ss := BlockSpans(blocks, b);
    forall x: nat
      ensures Covers(ss, x) <==> x < blocks * b
    {
      if x < blocks * b {
        BlockOf(blocks, b, x);
      }
      if Covers(ss, x) {
        var k :| 0 <= k < |ss| && InSpan(ss[k], x);
        assert k * b + b == (k + 1) * b;
        MulMonotone(k + 1, blocks, b);
      }
    }
  }

  /** Scenario: a 70 KiB payload on 64 KiB erase blocks needs a 128 KiB
      erase, which the verbose policy issues as two one-block erases. */
  lemma SeventyKiBOnSixtyFourKiBBlocks(size: nat, erasesize: nat)
    requires size == 70 * 1024 && erasesize == 64 * 1024
    ensures EraseLength(size, erasesize) == 128 * 1024
    ensures VerboseBlockCount(EraseLength(size, erasesize), erasesize) == 2
  {
    assert IsPowerOfTwo(0x1_0000);
    EraseLengthRounds(size, erasesize);
    ModUnique(size + erasesize - 1, erasesize, 2, 6143);
    assert EraseLength(size, erasesize) == 2 * erasesize;
    ModUnique(2 * erasesize, erasesize, 2, 0);
  }
}
