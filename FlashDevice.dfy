/** A stand-in for the vendor in-application-programming driver (mbed's
    FlashIAP) over one bank of memory-mapped NOR flash. Only what the demo
    relies on is modelled: init and deinit bracket a session, erase resets
    whole pages to the erased value, and program writes whole double words
    into cells that are erased. The driver's status codes are not modelled
    (the demo discards them). */
module FlashDevice {
  import opened FlashMath
  import opened Bytes

  /** Value of an erased flash byte (all bits set). */
  const ErasedByte: Byte := 0xFF

  /** `mem` with `len` bytes from offset `off` set to `b`. */
  function Fill(mem: seq<Byte>, off: nat, len: nat, b: Byte): (r: seq<Byte>)
    requires off + len <= |mem|
    ensures |r| == |mem|
  {
    mem[..off] + seq(len, _ => b) + mem[off + len..]
  }

  /** Fill sets exactly the bytes of its range. */
  lemma FillContents(mem: seq<Byte>, off: nat, len: nat, b: Byte)
    requires off + len <= |mem|
    ensures forall i :: off <= i < off + len ==> Fill(mem, off, len, b)[i] == b
    ensures forall i :: 0 <= i < |mem| && !(off <= i < off + len) ==> Fill(mem, off, len, b)[i] == mem[i]
  {
  }

  /** `mem` with the bytes from offset `off` replaced by `src`. */
  function Overwrite(mem: seq<Byte>, off: nat, src: seq<Byte>): (r: seq<Byte>)
    requires off + |src| <= |mem|
    ensures |r| == |mem|
  {
    mem[..off] + src + mem[off + |src|..]
  }

  /** Overwrite replaces exactly the bytes of its range, by `src` in order. */
  lemma OverwriteContents(mem: seq<Byte>, off: nat, src: seq<Byte>)
    requires off + |src| <= |mem|
    ensures forall i :: off <= i < off + |src| ==> Overwrite(mem, off, src)[i] == src[i - off]
    ensures forall i :: 0 <= i < |mem| && !(off <= i < off + |src|) ==> Overwrite(mem, off, src)[i] == mem[i]
  {
  }

  /** The word whose eight bytes start at offset `off` of `mem`. */
  function WordAt(mem: seq<Byte>, off: nat): (w: Word)
    requires off + WordBytes <= |mem|
    ensures BytesOfWord(w) == mem[off .. off + WordBytes]
  {
    WordOf(mem[off .. off + WordBytes])
  }

  /** One call made on the driver, in the order it was made. */
  datatype Call =
    | Init
    | Erase(address: int, length: int)
    | Program(address: int, length: int)
    | Deinit

  class FlashIap {
    /** Address of the first byte of the bank. */
    const base: nat
    /** The bank's cells; byte i sits at address base + i. */
    const cells: array<Byte>
    /** True between init and deinit. */
    var ready: bool
    /** Every driver call made so far. */
    ghost var calls: seq<Call>

    /** The bank lies in the 32-bit address space and is smaller than 2 GiB,
        so byte counts over it fit in a C `int`. */
    ghost predicate Valid()
      reads this
    {
      base + cells.Length < 0x1_0000_0000 && cells.Length < 0x8000_0000
    }

    /** [address, address + length) lies inside the bank. */
    predicate InBank(address: int, length: nat)
      reads this
    {
      base <= address && address + length <= base + cells.Length
    }

    /** Every byte of [address, address + length) is erased. */
    ghost predicate Erased(address: int, length: nat)
      reads this, cells
      requires InBank(address, length)
    {
      forall i :: address - base <= i < address - base + length ==> cells[i] == ErasedByte
    }

    /** The 64-bit word stored at `address`, read directly from the
        memory-mapped bank as a `uint64_t` load (no driver call). */
    function LoadWord(address: int): (w: Word)
      reads this, cells
      requires InBank(address, WordBytes)
      ensures BytesOfWord(w) == cells[address - base .. address - base + WordBytes]
    {
      WordAt(cells[..], address - base)
    }

    /** A bank at `bankBase` holding `contents`, with no session open. */
    constructor (bankBase: nat, contents: seq<Byte>)
      requires bankBase + |contents| < 0x1_0000_0000 && |contents| < 0x8000_0000
      ensures Valid() && fresh(cells)
      ensures base == bankBase && cells[..] == contents && !ready && calls == []
    {
      base := bankBase;
      cells := new Byte[|contents|](i requires 0 <= i < |contents| => contents[i]);
      ready := false;
      calls := [];
    }

    /** Opens a driver session. */
    method Init()
      requires Valid()
      modifies this
      ensures Valid() && ready
      ensures calls == old(calls) + [Call.Init]
    {
      ready := true;
      calls := calls + [Call.Init];
    }

    /** Closes the driver session. */
    method Deinit()
      requires Valid()
      modifies this
      ensures Valid() && !ready
      ensures calls == old(calls) + [Call.Deinit]
    {
      ready := false;
      calls := calls + [Call.Deinit];
    }

    /** Resets [address, address + length) to the erased value. The range
        must be inside the bank and made of whole pages. */
    method Erase(address: int, length: nat)
      requires Valid() && ready
      requires InBank(address, length)
      requires address % PageSize == 0 && length % PageSize == 0
      modifies this, cells
      ensures Valid() && ready
      ensures calls == old(calls) + [Call.Erase(address, length)]
      ensures cells[..] == Fill(old(cells[..]), address - base, length, ErasedByte)
    {
      var off := address - base;
      forall i | off <= i < off + length {
        cells[i] := ErasedByte;
      }
      FillContents(old(cells[..]), off, length, ErasedByte);
      calls := calls + [Call.Erase(address, length)];
    }

    /** Writes the first `length` bytes of `src` to [address, address + length).
        The range must be inside the bank, made of whole double words, and
        erased: NOR cells are only programmed from the erased state. */
    method Program(src: seq<Byte>, address: int, length: nat)
      requires Valid() && ready
      requires InBank(address, length) && Erased(address, length)
      requires address % DoubleWordSize == 0 && length % DoubleWordSize == 0
      requires length <= |src|
      modifies this, cells
      ensures Valid() && ready
      ensures calls == old(calls) + [Call.Program(address, length)]
      ensures cells[..] == Overwrite(old(cells[..]), address - base, src[..length])
    {
      var off := address - base;
      forall i | off <= i < off + length {
        cells[i] := src[i - off];
      }
      OverwriteContents(old(cells[..]), off, src[..length]);
      calls := calls + [Call.Program(address, length)];
    }
  }
}
