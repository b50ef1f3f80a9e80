/** tesseract::TFile: an in-memory transfer buffer that reads binary blobs
    from, and appends them to, a growable byte vector. */
module Serialis {
  import opened Bytes

  datatype Option<T> = None | Some(value: T)

  /** A GenericVector<char>: a growable byte vector on the heap that a TFile
      either owns or borrows from its caller. */
  class ByteVector {
    var contents: seq<Byte>

    constructor()
      ensures contents == []
    {
      contents := [];
    }
  }

  /** ReverseN: reverses the `len` bytes of `a` that start at `start`. */
  method ReverseN(a: array<Byte>, start: nat, len: nat)
    requires start + len <= a.Length
    modifies a
    ensures forall j :: start <= j < start + len ==> a[j] == old(a[2 * start + len - 1 - j])
    ensures forall j :: 0 <= j < start || start + len <= j < a.Length ==> a[j] == old(a[j])
  {
    var lo, hi := start, start + len;
    while lo + 1 < hi
      invariant start <= lo <= hi <= start + len && lo - start == start + len - hi
      invariant forall j :: start <= j < lo || hi <= j < start + len ==> a[j] == old(a[2 * start + len - 1 - j])
      invariant forall j :: 0 <= j < start || lo <= j < hi || start + len <= j < a.Length ==> a[j] == old(a[j])
    {
      a[lo], a[hi - 1] := a[hi - 1], a[lo];
      lo, hi := lo + 1, hi - 1;
    }
  }

  /** The loop of FReadEndian: reverses, in order, each of the first `num`
      windows of `size` bytes of `a` in place. */
  method ReverseEach(a: array<Byte>, size: nat, num: nat)
    requires Span(num, size) <= a.Length
    modifies a
    ensures forall q :: 0 <= q < a.Length ==> a[q] == old(a[SwappedFrom(q, size, num)])
  {
    ghost var orig := a[..];
    var i, p := 0, 0;
    while i < num
      invariant 0 <= i <= num
      invariant p == Span(i, size) <= a.Length
      invariant forall q :: 0 <= q < p ==> a[q] == orig[SwappedFrom(q, size, i)]
      invariant forall q :: p <= q < a.Length ==> a[q] == orig[q]
    {
      WindowInside(i, num, size);
      ReverseN(a, p, size);
      i, p := i + 1, p + size;
    }
  }

  /** What ReverseEach does to a destination whose first bytes are `slice`:
      each of them is replaced by the byte of `slice` it is swapped from, and
      the bytes after `slice` are left alone. */
  lemma SwappedRead(slice: seq<Byte>, read: seq<Byte>, final: seq<Byte>, size: nat, num: nat)
    requires |slice| <= |read| == |final|
    requires Span(num, size) <= |slice|
    requires read[..|slice|] == slice
    requires forall q :: 0 <= q < |final| ==> final[q] == read[SwappedFrom(q, size, num)]
    ensures forall q :: 0 <= q < |slice| ==> final[q] == slice[SwappedFrom(q, size, num)]
    ensures final[|slice|..] == read[|slice|..]
  {
    forall q | 0 <= q < |slice|
      ensures final[q] == slice[SwappedFrom(q, size, num)]
    {
      assert read[SwappedFrom(q, size, num)] == read[..|slice|][SwappedFrom(q, size, num)];
    }
  }

  /** The byte vector a stream slice of `size` bytes occupies when only
      `arrived` of them were delivered: the rest stands for memory left
      uninitialised. */
  function SliceBytes(arrived: seq<Byte>, size: nat): (v: seq<Byte>)
    requires |arrived| <= size
    ensures |v| == size && v[..|arrived|] == arrived
    ensures forall i :: |arrived| <= i < size ==> v[i] == NUL
  {
    arrived + seq(size - |arrived|, _ => NUL)
  }

  /** Length of the slice Open(FILE*, end_offset) reads: from the stream's
      current position to `endOffset`, or to the end of the stream when
      `endOffset` is negative; None when a positioning query fails. */
  function SliceSize(position: int, endOffset: int, streamEnd: Option<int>): (r: Option<int>)
    ensures r.None? <==> position < 0 || (endOffset < 0 && streamEnd.None?)
    ensures r.Some? ==> r.value == (if endOffset >= 0 then endOffset else streamEnd.value) - position
  {
    if position < 0 then None
    else if endOffset >= 0 then Some(endOffset - position)
    else if streamEnd.None? then None
    else Some(streamEnd.value - position)
  }

  class TFile {
    /** Read cursor into `data`. */
    var offset: nat
    /** The vector being read or written; null until the first Open. */
    var data: ByteVector?
    /** True when `data` was allocated by this TFile, false when borrowed. */
    var dataIsOwned: bool
    /** True in a write session, false in a read session. */
    var isWriting: bool
    /** Whether FReadEndian reverses the bytes of each element. */
    var swap: bool

    ghost predicate Valid()
      reads this, data
    {
      && (data == null ==> offset == 0 && !dataIsOwned && !isWriting)
      && (data != null ==> offset <= |data.contents|)
      && (isWriting ==> offset == 0)
    }

    /** A fresh TFile has no vector, no cursor and no session. */
    constructor()
      ensures Valid()
      ensures offset == 0 && data == null && !dataIsOwned && !isWriting && !swap
    {
      offset := 0;
      data := null;
      dataIsOwned := false;
      isWriting := false;
      swap := false;
    }

    /** Makes sure `data` is a vector this TFile owns, allocating a new one
        when the current one is borrowed (or missing). */
    method EnsureOwned()
      requires Valid()
      modifies this`data, this`dataIsOwned
      ensures dataIsOwned && data != null
      ensures old(dataIsOwned) ==> data == old(data)
      ensures !old(dataIsOwned) ==> fresh(data) && data.contents == []
    {
      if !dataIsOwned {
        data := new ByteVector();
        dataIsOwned := true;
      }
    }

    /** Open(filename, reader): starts a read session on an owned vector that
        `reader` fills. `reader` stands for the caller's FileReader, or for
        LoadDataFromFile when none is given: from the file name and the
        vector's contents before the load it yields whether the load succeeded
        and the contents after it. */
    method OpenFile(filename: string, reader: (string, seq<Byte>) -> (bool, seq<Byte>)) returns (ok: bool)
      requires Valid()
      modifies this, if dataIsOwned then data else null
      ensures Valid() && data != null
      ensures dataIsOwned && offset == 0 && !isWriting && !swap
      ensures old(dataIsOwned) ==> data == old(data)
      ensures !old(dataIsOwned) ==> fresh(data)
      ensures (ok, data.contents) == reader(filename, if old(dataIsOwned) then old(data.contents) else [])
    {
      EnsureOwned();
      offset := 0;
      isWriting := false;
      swap := false;
      var result := reader(filename, data.contents);
      ok, data.contents := result.0, result.1;
    }

    /** Open(data, size): starts a read session on an owned copy of the first
        `size` bytes of `src`. */
    method OpenMemory(src: seq<Byte>, size: int) returns (ok: bool)
      requires Valid()
      requires 0 <= size <= |src|
      modifies this, if dataIsOwned then data else null
      ensures Valid() && data != null
      ensures ok
      ensures dataIsOwned && offset == 0 && !isWriting && !swap
      ensures data.contents == src[..size]
      ensures old(dataIsOwned) ==> data == old(data)
      ensures !old(dataIsOwned) ==> fresh(data)
    {
      offset := 0;
      EnsureOwned();
      isWriting := false;
      swap := false;
      data.contents := src[..size];
      ok := true;
    }

    /** Open(fp, end_offset): starts a read session on the bytes of an open
        stream from its current position. `position` is what ftell reports
        (negative on failure), `streamEnd` the end position found by seeking
        to the end and back (None when a seek fails) and `arrived` the bytes
        fread delivers. It succeeds exactly when every byte of the slice
        arrived. */
    method OpenStream(position: int, endOffset: int, streamEnd: Option<int>, arrived: seq<Byte>)
      returns (ok: bool)
      requires Valid()
      requires SliceSize(position, endOffset, streamEnd).Some? ==>
                 0 <= |arrived| <= SliceSize(position, endOffset, streamEnd).value
      modifies this, if dataIsOwned then data else null
      ensures Valid() && offset == 0
      ensures SliceSize(position, endOffset, streamEnd).None? ==>
                !ok && data == old(data) && dataIsOwned == old(dataIsOwned) &&
                isWriting == old(isWriting) && swap == old(swap) &&
                (data != null ==> data.contents == old(data.contents))
      ensures SliceSize(position, endOffset, streamEnd).Some? ==>
                data != null && dataIsOwned && !isWriting && !swap &&
                (old(dataIsOwned) ==> data == old(data)) &&
                (!old(dataIsOwned) ==> fresh(data)) &&
                |data.contents| == SliceSize(position, endOffset, streamEnd).value &&
                data.contents[..|arrived|] == arrived &&
                (ok <==> |arrived| == SliceSize(position, endOffset, streamEnd).value)
    {
      offset := 0;
      if position < 0 {
        return false;
      }
      var end := endOffset;
      if end < 0 {
        if streamEnd.None? {
          return false;
        }
        end := streamEnd.value;
      }
      var size := end - position;
      isWriting := false;
      swap := false;
      EnsureOwned();
      data.contents := SliceBytes(arrived, size);
      ok := |arrived| == size;
    }

    /** FGets: copies one line, newline included, into `buffer`, at most
        `bufferSize - 1` bytes, and terminates it with NUL when there is room.
        Returns `buffer`, or null when nothing was left to copy. */
    method FGets(buffer: array<Byte>, bufferSize: int) returns (line: array?<Byte>)
      requires Valid() && data != null && !isWriting
      requires bufferSize <= buffer.Length
      modifies this`offset, buffer
      ensures Valid()
      ensures offset == old(offset) + LineLen(data.contents[old(offset)..], bufferSize - 1)
      ensures buffer[..offset - old(offset)] == data.contents[old(offset)..offset]
      ensures offset - old(offset) < bufferSize ==> buffer[offset - old(offset)] == NUL
      ensures forall i :: offset - old(offset) < i < buffer.Length ==> buffer[i] == old(buffer[i])
      ensures bufferSize <= 0 ==> buffer[..] == old(buffer[..])
      ensures line == (if offset == old(offset) then null else buffer)
    {
      var d := data.contents;
      ghost var start, orig := offset, buffer[..];
      ghost var s := d[start..];
      var size := 0;
      while size + 1 < bufferSize && offset < |d|
        invariant offset == start + size <= |d|
        invariant size <= buffer.Length && (size == 0 || size < bufferSize)
        invariant forall i :: 0 <= i < size ==> s[i] != NEWLINE
        invariant forall i :: 0 <= i < size ==> buffer[i] == s[i]
        invariant forall i :: size <= i < buffer.Length ==> buffer[i] == orig[i]
      {
        buffer[size] := d[offset];
        size := size + 1;
        offset := offset + 1;
        if d[offset - 1] == NEWLINE {
          break;
        }
      }
      LineLenUnique(s, bufferSize - 1, size);
      assert buffer[..size] == d[start..offset];
      if size < bufferSize {
        buffer[size] := NUL;
      }
      line := if size > 0 then buffer else null;
    }

    /** FRead: copies up to `count` elements of `size` bytes from the cursor
        into `buffer` (skipped when it is null), clamped to the bytes left, and
        returns the number of whole elements read. */
    method FRead(buffer: array?<Byte>, size: int, count: int) returns (numRead: int)
      requires Valid() && data != null && !isWriting
      requires buffer != null ==> Consumed(size, count, |data.contents| - offset) <= buffer.Length
      modifies this`offset, buffer
      ensures Valid()
      ensures var n := Consumed(size, count, |data.contents| - old(offset));
              && offset == old(offset) + n
              && numRead == ReadCount(size, count, |data.contents| - old(offset))
              && (buffer != null ==> buffer[..n] == data.contents[old(offset)..offset])
              && (buffer != null ==> buffer[n..] == old(buffer[n..]))
    {
      var required := size * count;
      if required <= 0 {
        return 0;
      }
      if |data.contents| - offset < required {
        required := |data.contents| - offset;
      }
      if required > 0 && buffer != null {
        forall i | 0 <= i < required {
          buffer[i] := data.contents[offset + i];
        }
      }
      offset := offset + required;
      numRead := required / size;
    }

    /** FReadEndian: FRead, then, when `swap` is set, reverses the bytes of
        each element read in place; elements keep their order. */
    method FReadEndian(buffer: array?<Byte>, size: int, count: int) returns (numRead: int)
      requires Valid() && data != null && !isWriting
      requires buffer != null ==> Consumed(size, count, |data.contents| - offset) <= buffer.Length
      requires buffer == null && swap ==> ReadCount(size, count, |data.contents| - offset) <= 0
      modifies this`offset, buffer
      ensures Valid()
      ensures var n := Consumed(size, count, |data.contents| - old(offset));
              && offset == old(offset) + n
              && numRead == ReadCount(size, count, |data.contents| - old(offset))
              && (numRead > 0 ==> size > 0 && Span(numRead, size) <= n)
              && (buffer != null ==> buffer[n..] == old(buffer[n..]))
              && (buffer != null ==> forall q :: 0 <= q < n ==>
                    buffer[q] == data.contents[old(offset)..offset][EndianFrom(q, size, numRead, swap)])
    {
      ghost var start := offset;
      numRead := FRead(buffer, size, count);
      if size > 0 {
        ReadCountSpec(size, count, |data.contents| - start);
      }
      // With no whole element read the source's loop does not run.
      if swap && numRead > 0 {
        ghost var read := buffer[..];
        ReverseEach(buffer, size, numRead);
        SwappedRead(data.contents[start..offset], read, buffer[..], size, numRead);
      }
    }

    /** Rewind: moves the cursor back to the start. */
    method Rewind()
      requires Valid() && !isWriting
      modifies this`offset
      ensures Valid() && offset == 0
    {
      offset := 0;
    }

    /** The swap flag's setter. */
    method SetSwap(value: bool)
      requires Valid()
      modifies this`swap
      ensures Valid() && swap == value
    {
      swap := value;
    }

    /** OpenWrite(v): starts a write session on `v` (borrowed) or, when `v` is
        null, on an owned vector; either way the vector is emptied. A vector
        borrowed before and not passed in again is left alone. */
    method OpenWrite(v: ByteVector?)
      requires Valid()
      // Deleting the owned vector and then adopting it is a use after free.
      requires v != null && dataIsOwned ==> v != data
      modifies this, v, if dataIsOwned then data else null
      ensures Valid() && data != null
      ensures offset == 0 && isWriting && !swap && data.contents == []
      ensures v != null ==> data == v && !dataIsOwned
      ensures v == null ==> dataIsOwned
      ensures v == null && old(dataIsOwned) ==> data == old(data)
      ensures v == null && !old(dataIsOwned) ==> fresh(data)
      ensures old(data) != null && !old(dataIsOwned) && old(data) != v ==>
                old(data).contents == old(data.contents)
    {
      offset := 0;
      if v != null {
        data := v;
        dataIsOwned := false;
      } else if !dataIsOwned {
        data := new ByteVector();
        dataIsOwned := true;
      }
      isWriting := true;
      swap := false;
      data.contents := [];
    }

    /** CloseWrite(filename, writer): hands the written bytes to `writer`,
        which stands for the caller's FileWriter or for SaveDataToFile, and
        reports its result. Nothing in the TFile changes. */
    method CloseWrite(filename: string, writer: (seq<Byte>, string) -> bool) returns (ok: bool)
      requires Valid() && data != null && isWriting
      ensures ok == writer(data.contents, filename)
    {
      ok := writer(data.contents, filename);
    }

    /** FWrite: appends the first `size * count` bytes of `src` to the vector
        and returns `count`; writes nothing and returns 0 when that product is
        not positive. */
    method FWrite(src: seq<Byte>, size: int, count: int) returns (written: int)
      requires Valid() && data != null && isWriting
      requires size * count <= |src|
      modifies data
      ensures Valid()
      ensures size * count <= 0 ==> written == 0 && data.contents == old(data.contents)
      ensures size * count > 0 ==> written == count && data.contents == old(data.contents) + src[..size * count]
    {
      var total := size * count;
      if total <= 0 {
        return 0;
      }
      var i := 0;
      while i < total
        invariant 0 <= i <= total
        invariant data.contents == old(data.contents) + src[..i]
      {
        data.contents := data.contents + [src[i]];
        assert src[..i + 1] == src[..i] + [src[i]];
        i := i + 1;
      }
      written := count;
    }
  }
}
