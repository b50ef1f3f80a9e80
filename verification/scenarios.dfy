/** Client sessions on a TFile: the round trips and worked examples the
    transfer buffer is meant to support, proved from its method contracts. */
module TFileScenarios {
  import opened Bytes
  import opened Serialis

  /** The C string a NUL-terminated buffer holds: its bytes before the first NUL. */
  function UpToNul(s: seq<Byte>): (t: seq<Byte>)
    ensures |t| <= |s| && t == s[..|t|]
    ensures forall i :: 0 <= i < |t| ==> t[i] != NUL
    ensures |t| < |s| ==> s[|t|] == NUL
  {
    if s == [] || s[0] == NUL then [] else [s[0]] + UpToNul(s[1..])
  }

  /** A buffer whose first NUL is at `k` holds the C string of its first `k` bytes. */
  lemma UpToFirstNul(s: seq<Byte>, k: nat)
    requires k < |s| && s[k] == NUL
    requires forall i :: 0 <= i < k ==> s[i] != NUL
    ensures UpToNul(s) == s[..k]
  {
  }

  /** Writing `count` elements of `size` bytes in one write session, opening
      the saved bytes for reading and reading `count` elements of `size` bytes
      gives back the payload; both calls report `count`. */
  method RoundTrip(payload: seq<Byte>, size: nat, count: nat) returns (back: seq<Byte>, written: int, numRead: int)
    requires size > 0 && |payload| == Span(count, size)
    ensures back == payload && written == count && numRead == count
  {
    SpanIsProduct(count, size);
    var writer := new TFile();
    writer.OpenWrite(null);
    written := writer.FWrite(payload, size, count);
    var saved := writer.data.contents;
    assert saved == payload;
    var reader := new TFile();
    var ok := reader.OpenMemory(saved, |saved|);
    var buffer := new Byte[|payload|];
    ReadCountWhole(size, count, |saved|);
    numRead := reader.FRead(buffer, size, count);
    assert buffer[..] == saved[..|payload|];
    back := buffer[..];
  }

  /** Several writes into a borrowed vector leave the chunks, one after
      another, in the caller's vector. */
  method WriteChunks(chunks: seq<seq<Byte>>) returns (saved: seq<Byte>)
    ensures saved == Concat(chunks)
  {
    var f := new TFile();
    var v := new ByteVector();
    f.OpenWrite(v);
    var i := 0;
    while i < |chunks|
      invariant 0 <= i <= |chunks|
      invariant f.Valid() && f.data == v && f.isWriting
      invariant v.contents == Concat(chunks[..i])
    {
      var written := f.FWrite(chunks[i], 1, |chunks[i]|);
      ConcatSnoc(chunks[..i], chunks[i]);
      assert chunks[..i + 1] == chunks[..i] + [chunks[i]];
      i := i + 1;
    }
    assert chunks[..i] == chunks;
    saved := v.contents;
  }

  /** Bytes stored in the other byte order and read back swapped are the
      elements as they were before the reversal. */
  lemma ForeignOrderRestored(elements: seq<Byte>, foreign: seq<Byte>, read: seq<Byte>, size: nat, count: nat)
    requires |foreign| == |elements| == Span(count, size) && |read| >= |elements|
    requires forall q :: 0 <= q < |foreign| ==> foreign[q] == elements[SwappedFrom(q, size, count)]
    requires forall q :: 0 <= q < |foreign| ==> read[q] == foreign[SwappedFrom(q, size, count)]
    ensures read[..|elements|] == elements
  {
    forall q | 0 <= q < |elements|
      ensures read[q] == elements[q]
    {
      SwappedFromInvolution(q, size, count);
    }
  }

  /** A file of `count` elements of `size` bytes each, written on a machine of
      the other byte order, read back with the swap flag set gives the
      elements as they were written. */
  method ForeignOrderRoundTrip(elements: seq<Byte>, size: nat, count: nat) returns (back: seq<Byte>)
    requires size > 0 && |elements| == Span(count, size)
    ensures back == elements
  {
    var foreign := seq(|elements|, q requires 0 <= q < |elements| => elements[SwappedFrom(q, size, count)]);
    var f := new TFile();
    var ok := f.OpenMemory(foreign, |foreign|);
    f.SetSwap(true);
    var buffer := new Byte[|elements|];
    ReadCountWhole(size, count, |foreign|);
    var numRead := f.FReadEndian(buffer, size, count);
    assert f.data.contents[0..|foreign|] == foreign;
    ForeignOrderRestored(elements, foreign, buffer[..], size, count);
    back := buffer[..];
  }

  /** The bytes 1 to 16, taken through the swap of four 4-byte windows. */
  lemma SixteenSwapped(stored: seq<Byte>, read: seq<Byte>)
    requires stored == [1, 2, 3, 4, 5, 6, 7, 8, 9, 10, 11, 12, 13, 14, 15, 16]
    requires |read| == 16
    requires forall q :: 0 <= q < 16 ==> read[q] == stored[EndianFrom(q, 4, 4, true)]
    ensures read == [4, 3, 2, 1, 8, 7, 6, 5, 12, 11, 10, 9, 16, 15, 14, 13]
  {
  }

  /** Four 4-byte elements read with the swap flag set come out with the
      bytes of each element reversed; read again without it they come out
      as stored. */
  method EndianSwapExample() returns (swapped: seq<Byte>, plain: seq<Byte>)
    ensures swapped == [4, 3, 2, 1, 8, 7, 6, 5, 12, 11, 10, 9, 16, 15, 14, 13]
    ensures plain == [1, 2, 3, 4, 5, 6, 7, 8, 9, 10, 11, 12, 13, 14, 15, 16]
  {
    var stored: seq<Byte> := [1, 2, 3, 4, 5, 6, 7, 8, 9, 10, 11, 12, 13, 14, 15, 16];
    var f := new TFile();
    var ok := f.OpenMemory(stored, 16);
    f.SetSwap(true);
    var buffer := new Byte[16];
    var numRead := f.FReadEndian(buffer, 4, 4);
    assert f.data.contents[0..16] == stored;
    SixteenSwapped(stored, buffer[..]);
    swapped := buffer[..];
    f.Rewind();
    f.SetSwap(false);
    numRead := f.FReadEndian(buffer, 4, 4);
    plain := buffer[..];
  }

  /** With ten bytes stored and the cursor at 8, asking for five 1-byte
      elements copies the last two bytes and reports 2. Skipping to 8 uses
      a read with no destination. */
  method ClampedReadExample() returns (copied: seq<Byte>, numRead: int, cursor: int)
    ensures copied == [8, 9] && numRead == 2 && cursor == 10
  {
    var stored: seq<Byte> := [0, 1, 2, 3, 4, 5, 6, 7, 8, 9];
    var f := new TFile();
    var ok := f.OpenMemory(stored, 10);
    var skipped := f.FRead(null, 1, 8);
    assert f.offset == 8;
    assert f.data.contents == stored;
    var buffer := new Byte[5];
    numRead := f.FRead(buffer, 1, 5);
    assert Consumed(1, 5, 2) == 2;
    assert f.offset == 10;
    assert buffer[..2] == stored[8..10];
    copied := buffer[..2];
    cursor := f.offset;
  }

  /** Reading lines from "ab\ncd" into a 10-byte buffer gives "ab\n", then
      "cd", then null once the bytes are used up. */
  method LineReadExample() returns (first: seq<Byte>, second: seq<Byte>, cursors: seq<int>, thirdIsNull: bool)
    ensures first == [97, 98, NEWLINE] && second == [99, 100]
    ensures cursors == [3, 5] && thirdIsNull
  {
    var stored: seq<Byte> := [97, 98, NEWLINE, 99, 100];
    var f := new TFile();
    var ok := f.OpenMemory(stored, 5);
    var buffer := new Byte[10];
    assert f.data.contents[0..] == stored;
    LineLenUnique(stored, 9, 3);
    var line := f.FGets(buffer, 10);
    assert buffer[..3] == stored[..3];
    UpToFirstNul(buffer[..], 3);
    first := UpToNul(buffer[..]);
    cursors := [f.offset];
    LineLenUnique(stored[3..], 9, 2);
    line := f.FGets(buffer, 10);
    assert buffer[..2] == stored[3..];
    UpToFirstNul(buffer[..], 2);
    second := UpToNul(buffer[..]);
    cursors := cursors + [f.offset];
    line := f.FGets(buffer, 10);
    thirdIsNull := line == null;
  }
}
