/** Integer widths of the demo and the rounding arithmetic of FlashData:
    a byte count is rounded up to whole 8-byte double words (the unit the
    flash programs) and to whole 4096-byte pages (the unit it erases). */
module FlashMath {

  /** C `int` on the target (32-bit two's complement). */
  type Int32 = x: int | -0x8000_0000 <= x < 0x8000_0000

  /** C `uint32_t`, the type of a flash address. */
  type Uint32 = x: int | 0 <= x < 0x1_0000_0000

  /** Bytes in one programmable double word. */
  const DoubleWordSize: nat := 8

  /** Bytes in one erasable flash page. */
  const PageSize: nat := 4096

  /** Number of whole units of `unit` bytes needed to hold `n` bytes,
      computed as the source does: the quotient plus one when there is a
      remainder. The result is the ceiling of n / unit: the smallest
      multiple of `unit` not below `n`. */
  function CeilDiv(n: nat, unit: nat): (q: nat)
    requires unit > 0
    ensures q * unit >= n
    ensures q * unit - n < unit
  {
    n / unit + (if n % unit != 0 then 1 else 0)
  }

  /** Every count of units that covers `n` bytes is at least CeilDiv(n, unit). */
  lemma CeilDivLeast(n: nat, unit: nat, m: nat)
    requires unit > 0
    requires m * unit >= n
    ensures m >= CeilDiv(n, unit)
  {
    var q := CeilDiv(n, unit);
    assert q > 0 ==> (q - 1) * unit == q * unit - unit;
    if m < q {
      MulMonotone(m, q - 1, unit);
    }
  }

  lemma MulMonotone(a: nat, b: nat, c: nat)
    requires a <= b
    ensures a * c <= b * c
  {
    assert b * c == a * c + (b - a) * c;
  }

  lemma MulCancelLess(a: nat, b: nat, c: nat)
    requires a * c < b * c
    ensures a < b
  {
    if b <= a {
      MulMonotone(b, a, c);
    }
  }

  /** The two bounds of CeilDiv's contract determine it: any count of units
      that covers `n` and overshoots by less than one unit is CeilDiv(n, unit). */
  lemma CeilDivUnique(n: nat, unit: nat, q: nat)
    requires unit > 0
    requires q * unit >= n && q * unit - n < unit
    ensures q == CeilDiv(n, unit)
  {
    var c := CeilDiv(n, unit);
    CeilDivLeast(n, unit, q);
    assert q * unit < (c + 1) * unit;
    MulCancelLess(q, c + 1, unit);
  }

  /** An exact multiple is not over-rounded: k whole units need exactly k. */
  lemma CeilDivExact(k: nat, unit: nat)
    requires unit > 0
    ensures CeilDiv(k * unit, unit) == k
  {
    CeilDivUnique(k * unit, unit, k);
  }

  /** Double words FlashData programs for `numberBytes` bytes. */
  function DoubleWords(numberBytes: nat): (d: nat)
  {
    CeilDiv(numberBytes, DoubleWordSize)
  }

  /** Pages FlashData erases for `numberBytes` bytes. */
  function Pages(numberBytes: nat): (p: nat)
  {
    CeilDiv(numberBytes, PageSize)
  }

  /** A whole number of units is unit-aligned. */
  lemma MultipleAligned(k: nat, unit: nat)
    requires unit > 0
    ensures (k * unit) % unit == 0
  {
    var q, r := (k * unit) / unit, (k * unit) % unit;
    assert (k - q) * unit == r;
    if k > q {
      MulMonotone(1, k - q, unit);
    } else if k < q {
      MulMonotone(1, q - k, unit);
    }
  }

  /** The rounded lengths are whole double words and whole pages. */
  lemma RoundedLengthsAligned(numberBytes: nat)
    ensures ProgramLength(numberBytes) % DoubleWordSize == 0
    ensures EraseLength(numberBytes) % PageSize == 0
  {
    var d, p := DoubleWords(numberBytes), Pages(numberBytes);
    MultipleAligned(d, DoubleWordSize);
    MultipleAligned(p, PageSize);
  }

  /** A page-aligned address is double-word aligned. */
  lemma PageAlignedIsDoubleWordAligned(address: nat)
    requires address % PageSize == 0
    ensures address % DoubleWordSize == 0
  {
    var k := 512 * (address / PageSize);
    assert address == k * DoubleWordSize;
    MultipleAligned(k, DoubleWordSize);
  }

  /** Bytes FlashData programs for `numberBytes` bytes. */
  function ProgramLength(numberBytes: nat): (len: nat)
  {
    DoubleWords(numberBytes) * DoubleWordSize
  }

  /** Bytes FlashData erases for `numberBytes` bytes. */
  function EraseLength(numberBytes: nat): (len: nat)
  {
    Pages(numberBytes) * PageSize
  }

  /** The erased length covers the programmed length: since a page is a
      whole number of double words, rounding up to pages never falls short
      of rounding up to double words. */
  lemma EraseCoversProgram(numberBytes: nat)
    ensures DoubleWords(numberBytes) * DoubleWordSize <= Pages(numberBytes) * PageSize
  {
    var p := Pages(numberBytes);
    assert (p * 512) * DoubleWordSize == p * PageSize;
    CeilDivLeast(numberBytes, DoubleWordSize, p * 512);
    MulMonotone(DoubleWords(numberBytes), p * 512, DoubleWordSize);
  }

  /** Exact multiples and the empty write: 8k bytes are k double words,
      4096 bytes are one page, and zero bytes are zero of each. */
  lemma RoundingBoundaries(k: nat)
    ensures DoubleWords(k * DoubleWordSize) == k
    ensures Pages(k * PageSize) == k
    ensures Pages(PageSize) == 1 && DoubleWords(DoubleWordSize) == 1
    ensures DoubleWords(0) == 0 && Pages(0) == 0
  {
    CeilDivExact(k, DoubleWordSize);
    CeilDivExact(k, PageSize);
    CeilDivExact(1, DoubleWordSize);
    CeilDivExact(1, PageSize);
  }

  /** Number of iterations of ReadData's loop: it repeats while the
      remaining count, decreased by 8 each time, is still positive. */
  function ReadIterations(numberBytes: int): (iterations: nat)
  {
    if numberBytes > 0 then DoubleWords(numberBytes) else 0
  }

  /** ReadIterations(n) is the first i at which the loop's remaining count
      n - 8 * i is no longer positive. */
  lemma ReadIterationsIsFirstExit(numberBytes: int, i: nat)
    ensures numberBytes - DoubleWordSize * ReadIterations(numberBytes) <= 0
    ensures i < ReadIterations(numberBytes) ==> numberBytes - DoubleWordSize * i > 0
  {
  }
}
