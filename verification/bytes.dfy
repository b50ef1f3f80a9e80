/** Byte sequences and the pure specification functions that describe what the
    transfer buffer's reads and writes do to them. */
module Bytes {

  /** A C `char` as an unsigned 8-bit value. */
  newtype Byte = b: int | 0 <= b < 256

  const NEWLINE: Byte := 10
  const NUL: Byte := 0

  /** Number of bytes `k` consecutive windows of `size` bytes cover. */
  function Span(k: nat, size: nat): nat
  {
    if k == 0 then 0 else Span(k - 1, size) + size
  }

  /** `k` windows of `size` bytes cover `k * size` bytes. */
  lemma {:induction false} SpanIsProduct(k: nat, size: nat)
    ensures Span(k, size) == k * size
  {
    if k > 0 {
      SpanIsProduct(k - 1, size);
    }
  }

  /** Window `j` ends no later than window `k-1` whenever `j < k`. */
  lemma {:induction false} WindowInside(j: nat, k: nat, size: nat)
    requires j < k
    ensures Span(j, size) + size <= Span(k, size)
    decreases k
  {
    if j < k - 1 {
      WindowInside(j, k - 1, size);
    }
  }

  /** The position whose byte ends up at position `p` once each of the first
      `k` windows of `size` bytes has been reversed in place, window by
      window. Positions past the windows keep their own byte. */
  function SwappedFrom(p: nat, size: nat, k: nat): (q: nat)
    ensures p < Span(k, size) ==> q < Span(k, size)
    ensures p >= Span(k, size) ==> q == p
    decreases k
  {
    if k == 0 then p
    else if Span(k - 1, size) <= p < Span(k, size) then Span(k - 1, size) + (Span(k, size) - 1 - p)
    else SwappedFrom(p, size, k - 1)
  }

  /** Byte `o` of window `j` comes from byte `size-1-o` of the same window:
      each window is reversed and windows keep their order. */
  lemma {:induction false} SwappedFromWindow(j: nat, o: nat, size: nat, k: nat)
    requires j < k && o < size
    ensures Span(j, size) + size <= Span(k, size)
    ensures SwappedFrom(Span(j, size) + o, size, k) == Span(j, size) + size - 1 - o
    decreases k
  {
    WindowInside(j, k, size);
    if j < k - 1 {
      SwappedFromWindow(j, o, size, k - 1);
    }
  }

  /** The position of the read bytes that FReadEndian leaves at position `q`
      of its destination after reading `numRead` elements of `size` bytes. */
  function EndianFrom(q: nat, size: int, numRead: int, swap: bool): (r: nat)
    ensures !swap || numRead <= 0 || size <= 0 ==> r == q
    ensures numRead > 0 && size > 0 && q >= Span(numRead, size) ==> r == q
    ensures numRead > 0 && size > 0 && q < Span(numRead, size) ==> r < Span(numRead, size)
  {
    if swap && numRead > 0 && size > 0 then SwappedFrom(q, size, numRead) else q
  }

  /** Reversing the same windows twice puts every byte back, so a swapped read
      of bytes written in the other byte order recovers them. */
  lemma {:induction false} SwappedFromInvolution(p: nat, size: nat, k: nat)
    ensures SwappedFrom(SwappedFrom(p, size, k), size, k) == p
    decreases k
  {
    if k > 0 && p < Span(k - 1, size) {
      SwappedFromInvolution(p, size, k - 1);
    }
  }

  /** Number of bytes a clamped binary read of `count` elements of `size`
      bytes consumes when `remaining` bytes are left after the cursor. */
  function Consumed(size: int, count: int, remaining: nat): (n: nat)
    ensures n <= remaining
  {
    var required := size * count;
    if required <= 0 then 0
    else if remaining < required then remaining
    else required
  }

  /** Number of whole elements such a read reports. */
  function ReadCount(size: int, count: int, remaining: nat): (r: int)
    ensures r > 0 ==> size > 0
  {
    var required := size * count;
    if required <= 0 then 0 else Consumed(size, count, remaining) / size
  }

  /** The count covers the consumed bytes up to a trailing partial element,
      which is consumed but not counted, and never exceeds the request. */
  lemma ReadCountSpec(size: int, count: int, remaining: nat)
    requires size > 0
    ensures var r, n := ReadCount(size, count, remaining), Consumed(size, count, remaining);
            && 0 <= r * size <= n < r * size + size
            && Span(r as nat, size as nat) <= n
            && (count > 0 ==> r <= count)
            && (count <= 0 ==> r == 0)
  {
    var r, n := ReadCount(size, count, remaining), Consumed(size, count, remaining);
    SpanIsProduct(r as nat, size as nat);
    if size * count > 0 {
      assert count > 0;
      assert r * size <= n <= size * count;
    } else {
      assert count <= 0;
    }
  }

  /** When `count` whole elements are left, a read consumes exactly them
      and reports `count`. */
  lemma ReadCountWhole(size: int, count: int, remaining: nat)
    requires size > 0 && count >= 0 && Span(count, size) <= remaining
    ensures Consumed(size, count, remaining) == Span(count, size)
    ensures ReadCount(size, count, remaining) == count
  {
    SpanIsProduct(count, size);
    if count > 0 {
      ReadCountSpec(size, count, remaining);
      var r := ReadCount(size, count, remaining);
      SpanIsProduct(r as nat, size);
      if r < count {
        WindowInside(r as nat, count, size);
      }
    }
  }

  /** Number of bytes a line read copies from `s` into a buffer that holds
      `limit` bytes before its terminator. */
  function LineLen(s: seq<Byte>, limit: int): (k: nat)
    ensures k <= |s|
    ensures limit <= 0 ==> k == 0
    ensures limit > 0 ==> k <= limit
    decreases |s|
  {
    if limit <= 0 || s == [] then 0
    else if s[0] == NEWLINE then 1
    else 1 + LineLen(s[1..], limit - 1)
  }

  /** A line read copies no newline before its last byte, and stops after the first
      newline, at the end of `s`, or when the buffer is full. */
  lemma {:induction false} LineLenSpec(s: seq<Byte>, limit: int)
    ensures var k := LineLen(s, limit);
            && (forall i :: 0 <= i < k - 1 ==> s[i] != NEWLINE)
            && (k == |s| || k >= limit || (0 < k && s[k - 1] == NEWLINE))
    decreases |s|
  {
    if limit > 0 && s != [] && s[0] != NEWLINE {
      LineLenSpec(s[1..], limit - 1);
    }
  }

  /** The three facts LineLenSpec states determine LineLen: any count that copies no
      newline before its last byte and stops at one of the three stop
      conditions is the one LineLen gives. */
  lemma {:induction false} LineLenUnique(s: seq<Byte>, limit: int, k: nat)
    requires k <= |s| && (limit <= 0 ==> k == 0) && (limit > 0 ==> k <= limit)
    requires forall i :: 0 <= i < k - 1 ==> s[i] != NEWLINE
    requires k == |s| || k >= limit || (0 < k && s[k - 1] == NEWLINE)
    ensures k == LineLen(s, limit)
    decreases |s|
  {
    if limit <= 0 || s == [] {
    } else if s[0] == NEWLINE {
      assert k == 1;
    } else {
      assert k > 0;
      var t := s[1..];
      forall i | 0 <= i < k - 2
        ensures t[i] != NEWLINE
      {
        assert t[i] == s[i + 1];
      }
      LineLenUnique(t, limit - 1, k - 1);
    }
  }

  /** The chunks of `cs` one after another. */
  function Concat(cs: seq<seq<Byte>>): seq<Byte>
  {
    if cs == [] then [] else cs[0] + Concat(cs[1..])
  }

  /** Appending one more chunk extends the concatenation by that chunk. */
  lemma {:induction false} ConcatSnoc(cs: seq<seq<Byte>>, c: seq<Byte>)
    ensures Concat(cs + [c]) == Concat(cs) + c
  {
    if cs == [] {
      assert [] + [c] == [c];
    } else {
      assert (cs + [c])[1..] == cs[1..] + [c];
      ConcatSnoc(cs[1..], c);
    }
  }
}
