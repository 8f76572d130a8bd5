/**
 The bitmap of a heap node (`mem/vmalloc.c`): bytes whose bits, most significant first, say which
 sections are used; marking a range of bits, and the scan for a run of free ones.
 */
module Bitmap {
  import opened Basics
  import opened KMath

  // ---------------------------------------------------------------- one byte

  /** The bit at `pos`, counted from the most significant one. */
  function Mask(pos: nat): bv8
    requires pos < 8
  {
    match pos case 0 => 0x80 case 1 => 0x40 case 2 => 0x20 case 3 => 0x10
              case 4 => 0x08 case 5 => 0x04 case 6 => 0x02 case 7 => 0x01
  }

  predicate QueryBit(b: Byte, pos: nat)
    requires pos < 8
  {
    b.bits & Mask(pos) != 0
  }

  function SetBit(b: Byte, pos: nat): Byte
    requires pos < 8
  {
    Byte(b.bits | Mask(pos))
  }

  function UnsetBit(b: Byte, pos: nat): Byte
    requires pos < 8
  {
    Byte(b.bits & !Mask(pos))
  }

  /** The shift in the macros `SET_BIT` and `UNSET_BIT` picks out that bit. */
  lemma SetShift(pos: nat)
    requires pos < 8
    ensures (1 as bv8) << (7 - pos) == Mask(pos)
  {
    match pos case 0 => case 1 => case 2 => case 3 => case 4 => case 5 => case 6 => case 7 =>
  }

  /** The shift in the macro `QUERY_BIT` picks out that bit. */
  lemma QueryShift(b: bv8, pos: nat)
    requires pos < 8
    ensures (b >> (7 - pos)) & 1 == 1 <==> b & Mask(pos) != 0
  {
    match pos case 0 => case 1 => case 2 => case 3 => case 4 => case 5 => case 6 => case 7 =>
  }

  lemma SetBitAt(b: Byte, pos: nat, q: nat)
    requires pos < 8 && q < 8
    ensures QueryBit(SetBit(b, pos), q) <==> q == pos || QueryBit(b, q)
    ensures QueryBit(UnsetBit(b, pos), q) <==> q != pos && QueryBit(b, q)
  {
  }

  lemma FullByte(q: nat)
    requires q < 8
    ensures QueryBit(Byte(0xFF), q) && !QueryBit(Byte(0), q)
  {
  }

  lemma ZeroByte(b: Byte)
    ensures b == Byte(0) <==> forall q :: 0 <= q < 8 ==> !QueryBit(b, q)
  {
    if forall q :: 0 <= q < 8 ==> !QueryBit(b, q) {
      assert !QueryBit(b, 0) && !QueryBit(b, 1) && !QueryBit(b, 2) && !QueryBit(b, 3);
      assert !QueryBit(b, 4) && !QueryBit(b, 5) && !QueryBit(b, 6) && !QueryBit(b, 7);
      assert b.bits == 0;
    }
  }

  // ---------------------------------------------------------------- a sequence of bytes

  /** Bit `i` of the bitmap: section `i` is used. */
  predicate Bit(bytes: seq<Byte>, i: nat)
    requires i < 8 * |bytes|
  {
    QueryBit(bytes[i / 8], i % 8)
  }

  /** The bits are those of the bytes. */
  ghost predicate Shows(bytes: seq<Byte>, bits: seq<bool>) {
    |bits| == 8 * |bytes| && forall i :: 0 <= i < |bits| ==> bits[i] == Bit(bytes, i)
  }

  /** The bits with those in the range overwritten. */
  function Marked(bits: seq<bool>, start: nat, count: nat, used: bool): (r: seq<bool>)
    requires start + count <= |bits|
    ensures |r| == |bits|
    ensures forall i :: 0 <= i < |bits| ==> r[i] == if start <= i < start + count then used else bits[i]
  {
    seq(|bits|, i requires 0 <= i < |bits| => if start <= i < start + count then used else bits[i])
  }

  /** Overwriting one bit in place. */
  method WriteBit(mem: array<Byte>, index: nat, pos: nat, used: bool, ghost bits: seq<bool>)
    requires index < mem.Length && pos < 8 && Shows(mem[..], bits)
    modifies mem
    ensures Shows(mem[..], bits[8 * index + pos := used])
  {
    mem[index] := if used then SetBit(mem[index], pos) else UnsetBit(mem[index], pos);
    forall i | 0 <= i < |bits|
      ensures bits[8 * index + pos := used][i] == Bit(mem[..], i)
    {
      assert bits[i] == old(Bit(mem[..], i));
      assert i == 8 * index + pos <==> i / 8 == index && i % 8 == pos;
      SetBitAt(old(mem[index]), pos, i % 8);
    }
  }

  function Filled(used: bool): Byte { if used then Byte(0xFF) else Byte(0) }

  /** Overwriting a whole byte in place. */
  method WriteByte(mem: array<Byte>, index: nat, used: bool, ghost bits: seq<bool>)
    requires index < mem.Length && Shows(mem[..], bits)
    modifies mem
    ensures mem[..] == old(mem[..])[index := Filled(used)]
    ensures Shows(mem[..], Marked(bits, 8 * index, 8, used))
  {
    mem[index] := Filled(used);
    forall i | 0 <= i < |bits|
      ensures Marked(bits, 8 * index, 8, used)[i] == Bit(mem[..], i)
    {
      assert bits[i] == old(Bit(mem[..], i));
      assert 8 * index <= i < 8 * index + 8 <==> i / 8 == index;
      FullByte(i % 8);
    }
  }

  lemma MarkedStep(bits: seq<bool>, start: nat, count: nat, more: nat, used: bool)
    requires start + count + more <= |bits|
    ensures Marked(Marked(bits, start, count, used), start + count, more, used) ==
            Marked(bits, start, count + more, used)
  {
  }

  /** A run of single bits inside one byte, as the three bit loops of `mark_bitmap` write it. */
  method WriteBits(mem: array<Byte>, index: nat, from: nat, to: nat, used: bool, ghost bits: seq<bool>)
    requires index < mem.Length && from <= to <= 8 && Shows(mem[..], bits)
    modifies mem
    ensures Shows(mem[..], Marked(bits, 8 * index + from, to - from, used))
  {
    ghost var start := 8 * index + from;
    assert Marked(bits, start, 0, used) == bits;
    for i := from to to
      invariant Shows(mem[..], Marked(bits, start, i - from, used))
    {
      ghost var marked := Marked(bits, start, i - from, used);
      WriteBit(mem, index, i, used, marked);
      assert marked[start + (i - from) := used] == Marked(bits, start, i + 1 - from, used);
    }
  }

  // ---------------------------------------------------------------- the loop over whole bytes

  /** The loop of `mark_bitmap` over whole bytes: its 32-bit counter and the bytes. */
  datatype Loop = Loop(i: nat, bytes: seq<Byte>)

  /** The loop after at most `n` rounds; it stops when the counter reaches `end`. */
  function Rounds(l: Loop, end: nat, used: bool, n: nat): (r: Loop)
    requires end <= |l.bytes|
    ensures |r.bytes| == |l.bytes|
  {
    if n == 0 then l
    else
      var before := Rounds(l, end, used, n - 1);
      if before.i < end then Loop((before.i + 1) % U32_LIMIT, before.bytes[before.i := Filled(used)]) else before
  }

  ghost predicate Stops(l: Loop, end: nat, used: bool)
    requires end <= |l.bytes|
  {
    exists n: nat :: Rounds(l, end, used, n).i >= end
  }

  /** The counter of the loop stays below 2^32. */
  lemma {:induction false} CounterWraps(l: Loop, end: nat, used: bool, n: nat)
    requires U32_LIMIT <= end <= |l.bytes| && l.i < U32_LIMIT
    ensures Rounds(l, end, used, n).i < U32_LIMIT
  {
    if n > 0 {
      CounterWraps(l, end, used, n - 1);
    }
  }

  lemma {:induction false} CounterRises(l: Loop, end: nat, used: bool, n: nat)
    requires l.i + n <= end <= |l.bytes| && end < U32_LIMIT
    ensures Rounds(l, end, used, n).i == l.i + n
  {
    if n > 0 {
      CounterRises(l, end, used, n - 1);
    }
  }

  /** The loop from `first` to `end` stops exactly when `end` is a 32-bit number. */
  lemma LoopStopsExactly(bytes: seq<Byte>, first: nat, end: nat, used: bool)
    requires first <= end <= |bytes|
    ensures Stops(Loop(first % U32_LIMIT, bytes), end, used) <==> end < U32_LIMIT
  {
    var l := Loop(first % U32_LIMIT, bytes);
    if end < U32_LIMIT {
      CounterRises(l, end, used, end - first);
    } else {
      forall n: nat
        ensures Rounds(l, end, used, n).i < end
      {
        CounterWraps(l, end, used, n);
      }
    }
  }

  /** `mark_bitmap` comes to an end: the range lies in one byte, or the loop over whole bytes stops. */
  ghost predicate MarkEnds(bytes: seq<Byte>, start: nat, count: nat, used: bool)
    requires count > 0 && start + count <= 8 * |bytes|
  {
    var first, end := start / 8, (start + count - 1) / 8;
    first == end || Stops(Loop((first + 1) % U32_LIMIT, bytes), end, used)
  }

  /** The range lies in one byte, or its last byte has a 32-bit index. */
  predicate Markable(start: nat, count: nat)
    requires count > 0
  {
    start / 8 == (start + count - 1) / 8 || (start + count - 1) / 8 < U32_LIMIT
  }

  lemma MarkEndsExactly(bytes: seq<Byte>, start: nat, count: nat, used: bool)
    requires count > 0 && start + count <= 8 * |bytes|
    ensures MarkEnds(bytes, start, count, used) <==> Markable(start, count)
  {
    var first, end := start / 8, (start + count - 1) / 8;
    if first != end {
      LoopStopsExactly(bytes, first + 1, end, used);
    }
  }

  /** That loop in place: it writes the bytes that the rounds write, and those are exactly the whole bytes. */
  method WriteBytes(mem: array<Byte>, ghost start: nat, first: nat, end: nat, used: bool, ghost bits: seq<bool>)
    requires start <= 8 * first && first <= end <= mem.Length && end < U32_LIMIT
    requires |bits| == 8 * mem.Length && Shows(mem[..], Marked(bits, start, 8 * first - start, used))
    modifies mem
    ensures mem[..] == Rounds(Loop(first % U32_LIMIT, old(mem[..])), end, used, end - first).bytes
    ensures Shows(mem[..], Marked(bits, start, 8 * end - start, used))
  {
    var i := first % U32_LIMIT;
    ghost var l := Loop(i, mem[..]);
    while i < end
      invariant first <= i <= end
      invariant Rounds(l, end, used, i - first) == Loop(i, mem[..])
      invariant Shows(mem[..], Marked(bits, start, 8 * i - start, used))
    {
      MarkedStep(bits, start, 8 * i - start, 8, used);
      WriteByte(mem, i, used, Marked(bits, start, 8 * i - start, used));
      assert (i + 1) % U32_LIMIT == i + 1;
      i := (i + 1) % U32_LIMIT;
    }
  }

  /** `mark_bitmap`: exactly the bits in the range are overwritten. */
  method Mark(mem: array<Byte>, start: nat, count: nat, used: bool, ghost bits: seq<bool>)
    requires Shows(mem[..], bits) && count > 0 && start + count <= |bits| && Markable(start, count)
    modifies mem
    ensures Shows(mem[..], Marked(bits, start, count, used))
  {
    var startIndex, startBit := start / 8, start % 8;
    var endIndex, endBit := (start + count - 1) / 8, (start + count - 1) % 8;
    if startIndex == endIndex {
      WriteBits(mem, startIndex, startBit, endBit + 1, used, bits);
      return;
    }
    WriteBits(mem, startIndex, startBit, 8, used, bits);
    WriteBytes(mem, start, startIndex + 1, endIndex, used, bits);
    MarkedStep(bits, start, 8 * endIndex - start, endBit + 1, used);
    WriteBits(mem, endIndex, 0, endBit + 1, used, Marked(bits, start, 8 * endIndex - start, used));
  }

  // ---------------------------------------------------------------- the scan

  /** The sections from `start` on are free, `need` of them. */
  predicate FreeRun(bits: seq<bool>, start: nat, need: nat) {
    start + need <= |bits| && forall i :: start <= i < start + need ==> !bits[i]
  }

  /** Plain first fit: the first section at or after `from` where a run starts, or the length. */
  function FirstRun(bits: seq<bool>, need: nat, from: nat): (k: nat)
    requires from <= |bits|
    ensures from <= k <= |bits|
    ensures forall s :: from <= s < k ==> !FreeRun(bits, s, need)
    ensures k < |bits| ==> FreeRun(bits, k, need)
    decreases |bits| - from
  {
    if from == |bits| || FreeRun(bits, from, need) then from else FirstRun(bits, need, from + 1)
  }

  lemma ByteIsZero(bytes: seq<Byte>, k: nat, bits: seq<bool>)
    requires k < |bytes| && Shows(bytes, bits)
    ensures bytes[k] == Byte(0) <==> FreeRun(bits, 8 * k, 8)
  {
    ZeroByte(bytes[k]);
    forall q | 0 <= q < 8
      ensures bits[8 * k + q] == QueryBit(bytes[k], q)
    {
      assert (8 * k + q) / 8 == k && (8 * k + q) % 8 == q;
    }
    if bytes[k] == Byte(0) {
      forall i | 8 * k <= i < 8 * k + 8
        ensures !bits[i]
      {
        assert bits[8 * k + (i - 8 * k)] == QueryBit(bytes[k], i - 8 * k);
      }
    }
  }

  /** The 64-bit load at a byte index is zero. */
  method WordIsZero(mem: array<Byte>, index: nat, ghost bits: seq<bool>) returns (zero: bool)
    requires index + 8 <= mem.Length && Shows(mem[..], bits)
    ensures zero <==> FreeRun(bits, 8 * index, 64)
  {
    zero := true;
    for j := 0 to 8
      invariant zero <==> FreeRun(bits, 8 * index, 8 * j)
    {
      ByteIsZero(mem[..], index + j, bits);
      if mem[index + j] != Byte(0) {
        zero := false;
      }
    }
  }

  /**
   The scan of `vmalloc` over one node, which skips 64 sections at a time inside a long free run.
   It finds the same start as plain first fit, and stays inside the bitmap because the number of
   sections is a multiple of 504.
   */
  method Scan(mem: array<Byte>, need: nat, ghost bits: seq<bool>) returns (found: bool, blockStart: nat)
    requires Shows(mem[..], bits) && need > 0 && |bits| > 0 && |bits| % 504 == 0
    ensures found == (FirstRun(bits, need, 0) < |bits|)
    ensures found ==> blockStart == FirstRun(bits, need, 0)
  {
    var size := 8 * mem.Length;
    assert size >= 64;  // so the 64-bit subtraction below does not wrap
    var sectionsFound, i := 0, 0;
    blockStart := 0;
    while i < size
      invariant i <= size && sectionsFound <= i && sectionsFound < need
      invariant sectionsFound > 0 ==> blockStart == i - sectionsFound
      invariant forall j :: i - sectionsFound <= j < i ==> !bits[j]
      invariant forall s :: 0 <= s < i - sectionsFound ==> !FreeRun(bits, s, need)
      decreases size - i
    {
      if QueryBit(mem[i / 8], i % 8) {
        assert bits[i];
        sectionsFound := 0;
      } else {
        assert !bits[i];
        if sectionsFound == 0 {
          blockStart := i;
        }
        if i % 8 == 0 && i < size - 64 && sectionsFound + 64 < need {
          var zero := WordIsZero(mem, i / 8, bits);
          if zero {
            sectionsFound := sectionsFound + 64;
            i := i + 64;
            continue;
          }
        }
        sectionsFound := sectionsFound + 1;
      }
      if sectionsFound == need {
        assert FreeRun(bits, blockStart, need);
        return true, blockStart;
      }
      i := i + 1;
    }
    found := false;
  }
}
