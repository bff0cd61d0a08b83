/** The demo program: FlashData erases the pages a byte count needs and
    programs the data rounded up to whole double words; ReadData copies
    words back from the memory-mapped flash; the entry point writes a
    string literal at a fixed address and reads it back. */
module FlashDemo {
  import opened FlashMath
  import opened Bytes
  import opened FlashDevice

  /** Bank contents after FlashData at offset `off` of a bank holding `mem`:
      the erase of EraseLength(numberBytes) bytes, then the program of the
      image of `words`. */
  ghost function Flashed(mem: seq<Byte>, off: nat, numberBytes: nat, words: seq<Word>): (r: seq<Byte>)
    requires off + EraseLength(numberBytes) <= |mem|
    requires |words| == DoubleWords(numberBytes)
  {
    EraseCoversProgram(numberBytes);
    Overwrite(Fill(mem, off, EraseLength(numberBytes), ErasedByte), off, BytesOfWords(words))
  }

  /** What FlashData leaves in the bank: the programmed bytes are the image
      of the words, the rest of the erased pages reads as erased, and every
      byte outside those pages is as it was. */
  lemma FlashedContents(mem: seq<Byte>, off: nat, numberBytes: nat, words: seq<Word>)
    requires off + EraseLength(numberBytes) <= |mem|
    requires |words| == DoubleWords(numberBytes)
    ensures |Flashed(mem, off, numberBytes, words)| == |mem|
    ensures forall j :: 0 <= j < |words| ==>
      Flashed(mem, off, numberBytes, words)[off + WordBytes * j .. off + WordBytes * j + WordBytes] == BytesOfWord(words[j])
    ensures forall i :: off + ProgramLength(numberBytes) <= i < off + EraseLength(numberBytes) ==>
      Flashed(mem, off, numberBytes, words)[i] == ErasedByte
    ensures forall i :: 0 <= i < |mem| && !(off <= i < off + EraseLength(numberBytes)) ==>
      Flashed(mem, off, numberBytes, words)[i] == mem[i]
  {
    EraseCoversProgram(numberBytes);
    var r := Flashed(mem, off, numberBytes, words);
    var image := BytesOfWords(words);
    var erased := Fill(mem, off, EraseLength(numberBytes), ErasedByte);
    FillContents(mem, off, EraseLength(numberBytes), ErasedByte);
    OverwriteContents(erased, off, image);
    forall j | 0 <= j < |words|
      ensures r[off + WordBytes * j .. off + WordBytes * j + WordBytes] == BytesOfWord(words[j])
    {
      BytesOfWordsAt(words, j);
      assert r[off + WordBytes * j .. off + WordBytes * j + WordBytes] == image[WordBytes * j .. WordBytes * j + WordBytes];
    }
  }

  /** Reading the bank after FlashData word by word from offset `off` gives
      back the words that were programmed. */
  lemma FlashedWords(mem: seq<Byte>, off: nat, numberBytes: nat, words: seq<Word>)
    requires off + EraseLength(numberBytes) <= |mem|
    requires |words| == DoubleWords(numberBytes)
    ensures forall j :: 0 <= j < |words| ==>
      off + WordBytes * j + WordBytes <= |mem| &&
      WordAt(Flashed(mem, off, numberBytes, words), off + WordBytes * j) == words[j]
  {
    FlashedContents(mem, off, numberBytes, words);
    EraseCoversProgram(numberBytes);
    var r := Flashed(mem, off, numberBytes, words);
    forall j | 0 <= j < |words|
      ensures off + WordBytes * j + WordBytes <= |mem| && WordAt(r, off + WordBytes * j) == words[j]
    {
      assert WordBytes * j + WordBytes <= WordBytes * |words|;
      assert BytesOfWord(WordAt(r, off + WordBytes * j)) == BytesOfWord(words[j]);
    }
  }

  /** Erases Pages(numberBytes) pages at `address`, then programs
      DoubleWords(numberBytes) words of `data` there, inside one driver
      session. `data` must hold every word that is programmed, including
      the last, partly used one. */
  method FlashData(flash: FlashIap, address: Uint32, data: array<Word>, numberBytes: Int32)
    requires flash.Valid()
    requires numberBytes >= 0
    requires data.Length >= DoubleWords(numberBytes)
    requires address % PageSize == 0
    requires flash.InBank(address, EraseLength(numberBytes))
    modifies flash, flash.cells
    ensures flash.Valid() && !flash.ready
    ensures flash.calls == old(flash.calls) + [
      Call.Init,
      Call.Erase(address, EraseLength(numberBytes)),
      Call.Program(address, ProgramLength(numberBytes)),
      Call.Deinit]
    ensures flash.cells[..] == Flashed(old(flash.cells[..]), address - flash.base, numberBytes,
                                       old(data[..DoubleWords(numberBytes)]))
  {
    ghost var log, mem, words := flash.calls, flash.cells[..], data[..DoubleWords(numberBytes)];
    flash.Init();

    var numberDoubleWords: Int32 := CeilDiv(numberBytes, DoubleWordSize);
    var numberPages: Int32 := CeilDiv(numberBytes, PageSize);

    var eraseLength: Int32 := numberPages * PageSize;
    RoundedLengthsAligned(numberBytes);
    flash.Erase(address, eraseLength);
    ghost var erased := flash.cells[..];
    assert flash.calls == log + [Call.Init, Call.Erase(address, eraseLength)];
    FillContents(mem, address - flash.base, eraseLength, ErasedByte);

    var programLength: Int32 := numberDoubleWords * DoubleWordSize;
    var image := BytesOfWords(data[..numberDoubleWords]);
    assert programLength <= eraseLength && |image| == programLength by {
      EraseCoversProgram(numberBytes);
    }
    PageAlignedIsDoubleWordAligned(address);
    flash.Program(image, address, programLength);
    assert flash.calls == log + [Call.Init, Call.Erase(address, eraseLength), Call.Program(address, programLength)];

    flash.Deinit();

    assert eraseLength == EraseLength(numberBytes) && programLength == ProgramLength(numberBytes);
    assert erased == Fill(mem, address - flash.base, eraseLength, ErasedByte);
    assert image[..programLength] == image && image == BytesOfWords(words);
    assert flash.cells[..] == Overwrite(erased, address - flash.base, image);
  }

  /** Copies ReadIterations(numberBytes) words, one per iteration, from the
      flash at `address` into `buff`: word j comes from address + 8j. A
      count that is not positive copies nothing; no word of `buff` past the
      copied ones is touched. */
  method ReadData(flash: FlashIap, address: Uint32, buff: array<Word>, numberBytes: Int32)
    requires flash.Valid()
    requires buff.Length >= ReadIterations(numberBytes)
    requires ReadIterations(numberBytes) > 0 ==>
      flash.InBank(address, ReadIterations(numberBytes) * DoubleWordSize)
    modifies buff
    ensures forall j :: 0 <= j < ReadIterations(numberBytes) ==>
      buff[j] == flash.LoadWord(address + DoubleWordSize * j)
    ensures forall j :: ReadIterations(numberBytes) <= j < buff.Length ==> buff[j] == old(buff[j])
  {
    var source: Uint32 := address;
    var remaining: Int32 := numberBytes;
    var dest := 0;
    while remaining > 0
      invariant 0 <= dest <= ReadIterations(numberBytes)
      invariant source == address + DoubleWordSize * dest
      invariant remaining == numberBytes - DoubleWordSize * dest
      invariant forall j :: 0 <= j < dest ==> buff[j] == flash.LoadWord(address + DoubleWordSize * j)
      invariant forall j :: dest <= j < buff.Length ==> buff[j] == old(buff[j])
    {
      ReadIterationsIsFirstExit(numberBytes, dest);
      buff[dest] := flash.LoadWord(source);
      dest := dest + 1;
      source := source + DoubleWordSize;
      remaining := remaining - DoubleWordSize;
    }
    ReadIterationsIsFirstExit(numberBytes, dest);
  }

  /** FlashData followed by ReadData of the same count at the same address:
      the words read back are the words written. */
  method WriteThenRead(flash: FlashIap, address: Uint32, data: array<Word>, buff: array<Word>, numberBytes: Int32)
    requires flash.Valid()
    requires numberBytes >= 0
    requires data.Length >= DoubleWords(numberBytes) && buff.Length >= DoubleWords(numberBytes)
    requires address % PageSize == 0
    requires flash.InBank(address, EraseLength(numberBytes))
    modifies flash, flash.cells, buff
    ensures flash.calls == old(flash.calls) + [
      Call.Init,
      Call.Erase(address, EraseLength(numberBytes)),
      Call.Program(address, ProgramLength(numberBytes)),
      Call.Deinit]
    ensures buff[..DoubleWords(numberBytes)] == old(data[..DoubleWords(numberBytes)])
  {
    ghost var before := flash.cells[..];
    ghost var written := data[..DoubleWords(numberBytes)];
    FlashData(flash, address, data, numberBytes);
    ghost var after := flash.cells[..];
    FlashedWords(before, address - flash.base, numberBytes, written);
    EraseCoversProgram(numberBytes);
    ReadData(flash, address, buff, numberBytes);
    assert flash.cells[..] == after;
  }

  /** Address the demo writes, page-aligned (a multiple of 4096). That the
      page lies inside the flash bank is an assumption about the board,
      stated as RunDemo's precondition. */
  const DemoAddress: Uint32 := 0x081F_F000

  /** The string literal the demo writes. */
  const Message: string := "Hello From Keil Studio!!!"

  /** The bytes of an ASCII string followed by its terminating NUL, as a
      C character array initialised from a literal holds them. */
  function CString(s: string): (bs: seq<Byte>)
    requires forall i :: 0 <= i < |s| ==> s[i] as int < 0x100
    ensures |bs| == |s| + 1 && bs[|s|] == 0
    ensures forall i :: 0 <= i < |s| ==> bs[i] == s[i] as int
  {
    seq(|s|, i requires 0 <= i < |s| => s[i] as int as Byte) + [0]
  }

  /** The demo's entry point as written passes a 26-byte array (25
      characters and the NUL) to FlashData and a 26-byte allocation to
      ReadData. Both calls move 4 whole words, 32 bytes, so neither buffer
      holds the words FlashData and ReadData require: 26 bytes are only 3
      whole words. */
  lemma MainBuffersTooSmall()
    ensures |CString(Message)| == 26
    ensures DoubleWords(|CString(Message)|) * DoubleWordSize == 32
    ensures ReadIterations(|CString(Message)|) == 4
    ensures |CString(Message)| / WordBytes < DoubleWords(|CString(Message)|)
  {
  }

  /** The demo's entry point with its buffers sized to whole words: the
      string and its NUL, padded with zero bytes to 4 words, are flashed at
      DemoAddress and read back into a fresh 4-word buffer whose first 26
      bytes are the string and its NUL. One page is erased and 32 bytes are
      programmed. */
  method RunDemo(flash: FlashIap) returns (readData: array<Word>)
    requires flash.Valid()
    requires flash.InBank(DemoAddress, PageSize)
    modifies flash, flash.cells
    ensures fresh(readData) && readData.Length == 4
    ensures BytesOfWords(readData[..])[..26] == CString(Message)
    ensures flash.calls == old(flash.calls) + [
      Call.Init, Call.Erase(DemoAddress, PageSize), Call.Program(DemoAddress, 32), Call.Deinit]
  {
    var text := CString(Message);
    var dataLength: Int32 := |text|;
    var padded := text + [0, 0, 0, 0, 0, 0];
    var words := WordsOf(padded);
    var data := new Word[|words|](i requires 0 <= i < |words| => words[i]);
    assert data[..] == words;
    RoundingBoundaries(1);
    readData := new Word[DoubleWords(dataLength)];
    WriteThenRead(flash, DemoAddress, data, readData, dataLength);
    assert readData[..] == words;
    BytesOfWordsOf(padded);
  }
}
