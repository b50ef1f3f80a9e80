# TFile transfer buffer, modelled in Dafny

Tesseract serialises its models through `tesseract::TFile`, a small transfer
buffer. A read session loads a whole file, a memory block or a slice of an
open stream into a growable byte vector and hands it out through a cursor:
line by line (`FGets`), or as `count` elements of `size` bytes (`FRead`).
`FReadEndian` reverses the bytes of each element when the data was written in
the other byte order. A write session appends bytes to a vector with `FWrite`.
That vector is either owned by the TFile or borrowed from the caller.
`CloseWrite` hands the vector to a saver.

The project has three modules:

- `Bytes` (`bytes.dfy`) holds the pure specification functions and the lemmas
  proved about them:
  - `Consumed` and `ReadCount` give the bytes a clamped read takes and the
    elements it reports.
  - `SwappedFrom` maps each destination position of a window-by-window
    reversal back to the position its byte came from. `Span` gives the bytes
    that `k` windows cover.
  - `EndianFrom` gives, for each destination position of an endian read,
    the position of the read bytes it holds: itself without swap, and
    `SwappedFrom` of it with swap.
  - `LineLen` gives the bytes a line read copies.
  - `Concat` gives a sequence of chunks laid end to end.
- `Serialis` (`tfile.dfy`) holds the mutable objects:
  - `ByteVector` stands for `GenericVector<char>`.
  - `TFile` is a class with the source's five fields (`offset`, `data`,
    `dataIsOwned`, `isWriting`, `swap`). Its methods update them in place.
    The reading methods are proved against the `Bytes` functions: `FGets`
    against `LineLen`, `FRead` against `Consumed` and `ReadCount`, and
    `FReadEndian` against those and `EndianFrom`. `OpenStream` is proved
    against `SliceSize`, a function of this module. The other methods state
    their new field values and vector contents directly.
  - `ReverseN` and `ReverseEach` are in-place array loops.
- `TFileScenarios` (`scenarios.dfy`) holds client sessions proved from the
  `TFile` contracts and the `Bytes` lemmas:
  - a write/read round trip;
  - chunked writes into a borrowed vector;
  - a swapped read of bytes written in the other byte order;
  - three worked examples: a byte swap, a clamped short read, and successive
    line reads.

Conventions:

- C `char` data is `Byte` (0..255).
- A read-only C source (`const char*`, `const void*`) is a `seq<Byte>`.
- A destination the source writes into is an `array<Byte>`. A nullable one is
  an `array?<Byte>`.
- `ASSERT_HOST` mode checks (serialis.cpp:91, 113, 125, 145, 153) are
  preconditions on `isWriting`.
- The reading and writing operations (`FGets`, `FRead`, `FReadEndian`,
  `FWrite`, `CloseWrite`) require an opened vector (`data != null`).
  `Rewind` and `SetSwap` need no vector.
- `Valid()` is the invariant every operation keeps:
  - without a vector the cursor is 0 and no session is open;
  - the cursor never passes the end of the vector;
  - a write session keeps the cursor at 0.

## Model

| member | source | states |
|---|---|---|
| Bytes.SpanIsProduct | src/ccutil/serialis.cpp:105 | The `i`-th window starts `i * size` bytes into the destination: `k` windows of `size` bytes cover `k * size` bytes. |
| Bytes.WindowInside | src/ccutil/serialis.cpp:105-106 | Every window the loop visits lies inside the bytes read: window `j < k` ends no later than window `k-1`. |
| Bytes.SwappedFrom | src/ccutil/serialis.cpp:103-107 | After the window reversals, a position inside the windows still takes its byte from inside them. A position past the windows keeps its own byte. |
| Bytes.SwappedFromWindow | src/ccutil/serialis.cpp:105-106 | Byte `o` of window `j` ends up holding byte `size-1-o` of the same window: each element is reversed, and elements keep their order. |
| Bytes.SwappedFromInvolution | src/ccutil/serialis.cpp:103-107 | Swapping the same windows twice restores every byte, so a swapped read undoes a write in the other byte order. |
| Bytes.EndianFrom | src/ccutil/serialis.cpp:103-107 | Without swap, or with no whole element read, every byte stays where FRead put it. With swap on, positions inside the elements read map inside them, and positions past them map to themselves. |
| Bytes.Consumed | src/ccutil/serialis.cpp:114-117 | A read never consumes more bytes than remain after the cursor. |
| Bytes.ReadCount | src/ccutil/serialis.cpp:114-121 | A read that reports elements had a positive element size. |
| Bytes.ReadCountSpec | src/ccutil/serialis.cpp:114-121 | The reported count covers the consumed bytes up to a trailing partial element, which is consumed but not counted. The count never exceeds `count`. A non-positive `count` reports 0. |
| Bytes.ReadCountWhole | src/ccutil/serialis.cpp:114-121 | When `count` whole elements remain, the read consumes exactly them and reports `count`. |
| Bytes.LineLen | src/ccutil/serialis.cpp:92-96 | A line read copies at most the bytes left and at most `limit` bytes. It copies nothing when `limit <= 0`. |
| Bytes.LineLenSpec | src/ccutil/serialis.cpp:93-95 | No newline comes before the last copied byte. Copying stops after a newline, at the end of the data, or when the buffer is full. |
| Bytes.LineLenUnique | src/ccutil/serialis.cpp:93-95 | These stop conditions determine the copied length uniquely. |
| Bytes.ConcatSnoc | src/ccutil/serialis.cpp:159-160 | Appending one more chunk extends the concatenation by exactly that chunk. |
| Serialis.ByteVector.constructor | src/ccutil/serialis.cpp:39-41 | A newly allocated vector is empty. |
| Serialis.ReverseN | src/ccutil/serialis.cpp:106 | Each byte of the window `[start, start+len)` becomes its mirror byte. Every byte outside the window is unchanged. |
| Serialis.ReverseEach | src/ccutil/serialis.cpp:104-107 | After the loop over `num` windows, each position holds the old byte at `SwappedFrom` of that position. Bytes past the windows are unchanged. |
| Serialis.SwappedRead | src/ccutil/serialis.cpp:102-107 | Reversing the windows of a destination that starts with the read slice leaves each copied position holding the slice byte it is swapped from. Bytes after the slice are untouched. |
| Serialis.SliceBytes | src/ccutil/serialis.cpp:86-87 | The resized vector has exactly the slice's length and starts with the bytes `fread` delivered. The bytes that never arrived stand for uninitialised memory (NUL in the model). |
| Serialis.SliceSize | src/ccutil/serialis.cpp:67-79 | The slice length is unknown exactly when `ftell` fails, or when no end offset is given and a seek fails. Otherwise it is the end offset (given, or the stream's end) minus the current position. |
| Serialis.TFile.constructor | src/ccutil/serialis.cpp:26-31 | A new TFile has cursor 0, no vector, no ownership, no write session and no swap. |
| Serialis.TFile.EnsureOwned | src/ccutil/serialis.cpp:39-42 | Afterwards the vector is owned. An owned vector is kept. A borrowed one is replaced by a fresh empty vector. |
| Serialis.TFile.OpenFile | src/ccutil/serialis.cpp:38-50 | The vector ends up owned (the old one if owned, else fresh), with cursor 0, a read session and swap off. The result and the new contents are what the reader returns for the file name and the previous contents. |
| Serialis.TFile.OpenMemory | src/ccutil/serialis.cpp:52-63 | The vector ends up owned and holds exactly the first `size` bytes, with cursor 0, a read session and swap off. The open always succeeds. |
| Serialis.TFile.OpenStream | src/ccutil/serialis.cpp:65-88 | A failed positioning query returns false and resets only the cursor. Otherwise the owned vector has the slice's length and starts with the bytes that arrived, the session is reset, and the open succeeds iff the whole slice arrived. |
| Serialis.TFile.FGets | src/ccutil/serialis.cpp:90-99 | The cursor advances by `LineLen` of the rest with limit `bufferSize-1`. The buffer starts with exactly those bytes, followed by NUL when there is room, and is unchanged after that. A non-positive `bufferSize` leaves the whole buffer untouched. The result is null iff nothing was copied. |
| Serialis.TFile.FRead | src/ccutil/serialis.cpp:112-122 | The cursor advances by the clamped byte count `Consumed`, and the result is `ReadCount`. A non-null destination starts with exactly the consumed slice and is unchanged after it. A non-positive `size*count` reads nothing and returns 0. |
| Serialis.TFile.FReadEndian | src/ccutil/serialis.cpp:101-110 | The cursor and count are as for FRead. The elements read fit in the consumed bytes. Each copied byte is the slice byte at `EndianFrom`: the same byte without swap, the mirrored byte of its element with swap. Bytes past the consumed slice are untouched. |
| Serialis.TFile.Rewind | src/ccutil/serialis.cpp:124-127 | In a read session the cursor returns to 0 and nothing else changes. |
| Serialis.TFile.SetSwap | src/ccutil/serialis.cpp:103 | The swap flag that line 103 consults becomes the given value, and nothing else changes. The setter itself is in serialis.h, which is not part of this model. |
| Serialis.TFile.OpenWrite | src/ccutil/serialis.cpp:129-142 | A given vector is borrowed; with none, the owned vector is kept or a fresh one is allocated. The vector is emptied, the cursor is 0, a write session starts and swap is off. A previously borrowed vector that is not passed again keeps its contents. |
| Serialis.TFile.CloseWrite | src/ccutil/serialis.cpp:144-150 | The result is the saver's verdict on exactly the written bytes, and the TFile is unchanged. |
| Serialis.TFile.FWrite | src/ccutil/serialis.cpp:152-162 | A non-positive `size*count` changes nothing and returns 0. Otherwise the first `size*count` source bytes are appended to the vector and `count` is returned. |
| TFileScenarios.UpToNul | src/ccutil/serialis.cpp:97 | The C string in a buffer is its prefix before the first NUL, which FGets writes after the line. |
| TFileScenarios.UpToFirstNul | src/ccutil/serialis.cpp:97 | A buffer whose first NUL is at `k` holds the string of its first `k` bytes. |
| TFileScenarios.RoundTrip | src/ccutil/serialis.cpp:52-162 | Writing any payload of `count` elements of `size` bytes, opening the written bytes and reading `count` elements of `size` bytes gives back the payload. Both the write and the read report `count`. |
| TFileScenarios.WriteChunks | src/ccutil/serialis.cpp:129-142 | Successive writes into a borrowed vector leave it holding the chunks end to end. |
| TFileScenarios.ForeignOrderRestored | src/ccutil/serialis.cpp:101-110 | Bytes stored with every element reversed, read back through the swap, give the original elements. |
| TFileScenarios.ForeignOrderRoundTrip | src/ccutil/serialis.cpp:101-122 | With the swap flag set, reading `count` elements of data written in the other byte order gives the elements as written. |
| TFileScenarios.SixteenSwapped | src/ccutil/serialis.cpp:103-107 | Swapping four 4-byte windows of bytes 1..16 gives 4 3 2 1 8 7 6 5 12 11 10 9 16 15 14 13. |
| TFileScenarios.EndianSwapExample | src/ccutil/serialis.cpp:101-110 | Reading 4 elements of 4 bytes with swap on gives each element reversed. After Rewind, reading them with swap off gives the stored bytes. |
| TFileScenarios.ClampedReadExample | src/ccutil/serialis.cpp:112-122 | From 10 bytes with the cursor at 8, a request for 5 one-byte elements copies the last 2 bytes, reports 2 and ends at 10. A null destination only moves the cursor. |
| TFileScenarios.LineReadExample | src/ccutil/serialis.cpp:90-99 | Line reads of "ab\ncd" into a 10-byte buffer give "ab\n" (cursor 3), then "cd" (cursor 5), then null. |

## Left out

- The destructor and the `delete`/`new` calls: memory is not modelled. Dropping an owned vector is just losing the reference.
- Serialis.TFile.OpenFile: `LoadDataFromFile` and the caller's `FileReader` are one function-valued parameter. From the file name and the vector's previous contents it gives the success flag and the new contents. File I/O itself is not modelled.
- Serialis.TFile.CloseWrite: `SaveDataToFile` and the caller's `FileWriter` are one function-valued parameter that decides success from the bytes and the file name.
- Serialis.TFile.OpenStream:
  - The stdio calls are parameters: the position `ftell` reports, the end position found by seeking (or a failed seek), and the bytes `fread` delivers.
  - The bytes of the slice that never arrived are NUL in the model. In the source, `resize_no_init` leaves them uninitialised.
  - The model requires the arrived bytes to fit in a non-negative slice length. A negative length is undefined behaviour in the source.
- Serialis.TFile.OpenWrite: requires that a vector passed in is not the vector this TFile owns. The source would delete it and then adopt the freed vector.
- Serialis.TFile.FReadEndian: requires a non-null destination whenever the swap would touch it. With swap on, a null destination and at least one element read, the source dereferences a null pointer.
- Serialis.TFile.FGets, FRead, FReadEndian, FWrite and CloseWrite require an opened vector and the right session mode. The source stops the program on a mode violation (`ASSERT_HOST`). On a TFile that was never opened, `FWrite` and `CloseWrite` stop at that check. `FRead` and `FReadEndian` with a positive `size*count`, and `FGets` with `buffer_size >= 2`, dereference the null vector. The model also excludes the calls on a never-opened TFile that return without touching the vector. These are `FRead` and `FReadEndian` with `size*count <= 0`, which return 0, and `FGets` with `buffer_size <= 1`, which returns null after at most writing a NUL.
- Serialis.TFile.Rewind requires only a read session, as its `ASSERT_HOST` demands. It touches nothing but the cursor, so it needs no vector.
- Integers are unbounded. The `int` overflow of `size * count`, of the slice length and of the cursor is not modelled. Division in `ReadCount` only sees non-negative numerators, where Dafny's division agrees with C's.
- `ReverseN` is defined in helpers.h, which is not part of this model. It is modelled from its use as an in-place reversal of one window.
- The `GenericVector` operations (`resize_no_init`, `truncate`, `push_back`) are operations on the `contents` sequence.
- `ReverseEach` is the loop of `FReadEndian`, split out as a method of its own. The cursor arithmetic `char_buffer += size` becomes a running window start.
