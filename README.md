# Flash write/read demo: a verified model

The demo program writes a short string into the on-chip flash of an mbed
microcontroller board and reads it back. It has two functions.

- `FlashData(address, data, numberBytes)` first opens a driver session. It
  then rounds the byte count up to whole 8-byte double words, which is the
  program unit, and to whole 4096-byte pages, which is the erase unit. It
  erases the pages, programs the double words from the `uint64_t` buffer
  `data`, and closes the session.
- `ReadData(address, buff, numberBytes)` copies one 64-bit word per
  iteration from the memory-mapped flash into `buff`. Each iteration moves
  the address on by 8 and takes 8 off the remaining count. It stops once the
  count is no longer positive.

`main` writes `"Hello From Keil Studio!!!"` and its NUL, 26 bytes, at
`0x081FF000`. It then reads the bytes back into a 26-byte allocation.

The model has four modules.

- `FlashMath` (FlashMath.dfy) covers the C integer widths and the rounding.
  `CeilDiv` is the source's `n / unit + (n % unit != 0)`. Its lemmas prove that
  it is the ceiling: it is the least count that covers, it is the only count
  that covers with less than one unit spare, and exact multiples are not
  over-rounded. Further lemmas prove that the erased length covers the
  programmed length, and give the iteration count of the read loop.
- `Bytes` (Bytes.dfy) covers bytes, `uint64_t` words and the little-endian
  layout of the Cortex-M target. The lemmas prove that a word array and its
  byte image convert into each other in both directions.
- `FlashDevice` (FlashDevice.dfy) is a class `FlashIap` that stands in for
  the vendor driver over one bank of NOR flash. It has init and deinit, and
  a page-aligned erase that sets bytes to `0xFF`. Its program writes whole
  double words, and only into erased cells. The class also holds a log of
  the driver calls and the memory-mapped 64-bit load.
- `FlashDemo` (FlashDemo.dfy) holds `FlashData` and `ReadData` as methods.
  `ReadData` keeps the source's `while` loop. The module also has the
  write-then-read round trip and the entry-point scenario.

## Model

| member | source | states |
|---|---|---|
| FlashMath.CeilDiv | main.cpp:11-16 | the quotient-plus-remainder-flag count covers `n` bytes (count*unit >= n) with less than one unit to spare |
| FlashMath.CeilDivLeast | main.cpp:11-16 | every count of units that covers `n` bytes is at least CeilDiv(n, unit), so the rounding never over-allocates |
| FlashMath.CeilDivUnique | main.cpp:11-16 | any count that covers `n` with less than one unit spare equals CeilDiv(n, unit): the source's formula is exactly the ceiling of n/unit |
| FlashMath.CeilDivExact | main.cpp:11-16 | an exact multiple k*unit rounds to exactly k units, not k+1 |
| FlashMath.RoundingBoundaries | main.cpp:11-22 | 8k bytes are k double words, 4096k bytes are k pages, 4096 bytes are one page, and 0 bytes are zero double words and zero pages (so erase and program get length 0) |
| FlashMath.EraseCoversProgram | main.cpp:16-22 | the erased length numberPages*4096 is at least the programmed length numberDoubleWords*8, so the erased range contains the programmed range |
| FlashMath.RoundedLengthsAligned | main.cpp:19-22 | the erase length is a whole number of pages and the program length a whole number of double words |
| FlashMath.PageAlignedIsDoubleWordAligned | main.cpp:19-22 | a page-aligned start address is also double-word aligned, so the program call at the erased page's start is aligned |
| FlashMath.ReadIterationsIsFirstExit | main.cpp:30-35 | ReadIterations(n) is the first iteration at which the remaining count n - 8i is no longer positive: ceil(n/8) iterations for n > 0, none otherwise |
| Bytes.LeOfLeBytes | main.cpp:32 | storing a value that fits in k bytes and loading it back gives the value |
| Bytes.LeBytesOfLe | main.cpp:32 | loading k bytes as a value and storing it back gives the same bytes |
| Bytes.WordOf | main.cpp:32 | the 64-bit word loaded from eight bytes lays out as those same eight bytes |
| Bytes.BytesOfWord | main.cpp:22 | the eight bytes a word occupies load back as that word |
| Bytes.BytesOfWordsAt | main.cpp:22 | word j of a buffer occupies bytes 8j to 8j+8 of its image |
| Bytes.WordsOfBytesOfWords | main.cpp:22 | reading a buffer's byte image back as words gives the buffer's words |
| Bytes.BytesOfWordsOf | main.cpp:43-46 | a byte array packed into words and laid out again gives the same bytes |
| FlashDevice.FillContents | main.cpp:19 | erasing sets exactly the bytes of the range to the erased value and leaves every other byte as it was |
| FlashDevice.OverwriteContents | main.cpp:22 | programming sets byte `off+i` to source byte `i` across the range and leaves every other byte as it was |
| FlashDevice.WordAt | main.cpp:32 | the word at an offset is the one whose eight bytes are stored there |
| FlashDevice.FlashIap.LoadWord | main.cpp:32 | the `uint64_t` load at an address returns the word whose bytes are the bank's eight bytes at that address |
| FlashDevice.FlashIap.Init | main.cpp:8 | opens the session and logs Init; the cells do not change |
| FlashDevice.FlashIap.Deinit | main.cpp:24 | closes the session and logs Deinit; the cells do not change |
| FlashDevice.FlashIap.Erase | main.cpp:19 | needs an open session and a page-aligned range in the bank; the new bank is Fill of the old bank over the range; the call is logged |
| FlashDevice.FlashIap.Program | main.cpp:22 | needs an open session and a double-word-aligned range that is in the bank and already erased; the new bank is Overwrite of the old bank with the first `length` source bytes; the call is logged |
| FlashDemo.FlashedContents | main.cpp:19-22 | after FlashData, the programmed bytes hold the image of the data words, the erased tail of the pages reads 0xFF, and the bytes outside the pages are unchanged |
| FlashDemo.FlashedWords | main.cpp:19-36 | reading the bank after FlashData word by word from the write address gives back every programmed word |
| FlashDemo.FlashData | main.cpp:5-26 | needs numberBytes >= 0, a page-aligned address, the pages inside the bank, and a `data` buffer of at least ceil(n/8) words; logs exactly Init, Erase(address, ceil(n/4096)*4096), Program(address, ceil(n/8)*8), Deinit in that order; leaves the bank as Flashed(old bank); every C `int` product stays in range |
| FlashDemo.ReadData | main.cpp:28-37 | the loop runs ReadIterations(n) times; word j of `buff` is the word loaded at address + 8j; words of `buff` past the copied ones are unchanged; needs `buff` to hold ReadIterations(n) words |
| FlashDemo.WriteThenRead | main.cpp:46-49 | FlashData and then ReadData at the same address and count give `buff[0..ceil(n/8))` equal to `data[0..ceil(n/8))`, with the driver calls in the order init, erase, program, deinit |
| FlashDemo.CString | main.cpp:43-44 | a character array initialised from a string literal holds the characters and then a NUL, one byte more than the literal |
| FlashDemo.MainBuffersTooSmall | main.cpp:43-49 | the entry point's `dataLength` is 26, 32 bytes (4 words) are programmed and read, and a 26-byte buffer holds only 3 whole words, fewer than FlashData and ReadData need |
| FlashDemo.RunDemo | main.cpp:41-50 | with word-sized buffers, the scenario erases one 4096-byte page at 0x081FF000 and programs 32 bytes there; the first 26 bytes read back are the string and its NUL |

## Left out

- The vendor driver is not part of this model: its internals, its status codes (the demo discards them), and its sector and alignment queries. `FlashIap` replaces it. The page and double-word requirements and the program-only-erased-cells rule in its `requires` come from the NOR flash discipline that the demo depends on. They are not read from the driver's code.
- The page size and the program unit are fixed at 4096 and 8 bytes, because the demo hard-codes them. The model does not query the driver for them.
- When `numberBytes` is 0, erase and program are called with length 0, because the code does that. The model does not skip those calls.
- `printf`, `malloc` and the endless idle loop of `main` are left out, because they are I/O and embedded control flow. `RunDemo` returns the read buffer instead.
- The raw pointer casts `(uint64_t*)address` and `(uint64_t*)data` are not modelled as casts. Memory is a byte array indexed by offset from the bank base, and buffers are word arrays. The layout is little-endian, as on the Cortex-M target.
- Threading is left out, because the program is strictly sequential.
- FlashData: negative byte counts are excluded by `requires numberBytes >= 0`. C's truncating `/` and `%` would give one double word for a small negative count; the model does not capture that.
- FlashData: the products `numberPages * 4096` and `numberDoubleWords * 8` are C `int`. The model keeps them in range by requiring the erased pages to lie in a bank smaller than 2 GiB (`FlashIap.Valid`). It does not model signed overflow for larger counts.
- ReadData: it reads only inside the modelled flash bank, because memory outside the bank is not modelled. A 32-bit wrap of `address` cannot happen inside the bank.
- The repository's second, near-identical demo file is not part of this model.

## Findings

| source | as written | input that shows it | evidently intended | confidence | as-written member | corrected member |
|---|---|---|---|---|---|---|
| main.cpp:43-49 | `data` and `readData` are 26-byte buffers. FlashData programs 32 bytes from `data`, and ReadData stores 4 words (32 bytes) into `readData`. | `dataLength = 26` (25 characters and the NUL) | both buffers hold ceil(26/8) = 4 whole words, with the string padded by zero bytes | not executed | FlashDemo.MainBuffersTooSmall | FlashDemo.RunDemo |
