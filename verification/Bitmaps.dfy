/** The allocation bitmap of internal/network/ipam.go: bit operations on a byte buffer, in place,
    and the byte-skipping scan for the first clear bit. */
module Bitmaps {
  type Byte = bv8

  function BitMask(k: nat): Byte
    requires k < 8
  {
    (1 as bv8) << k
  }

  predicate ByteBit(b: Byte, k: nat)
    requires k < 8
  {
    b & BitMask(k) != 0
  }

  /** Bit i of the buffer; bits past its end read as clear. */
  predicate Bit(s: seq<Byte>, i: nat) {
    i / 8 < |s| && ByteBit(s[i / 8], i % 8)
  }

  /** The lowest bit of a byte comes first; a new bitmap, with bits 0 and 1 set, starts with the byte 3. */
  lemma MaskValues()
    ensures BitMask(0) == 1 && BitMask(1) == 2 && BitMask(2) == 4 && BitMask(3) == 8
    ensures BitMask(4) == 16 && BitMask(5) == 32 && BitMask(6) == 64 && BitMask(7) == 128
    ensures 0 | BitMask(0) | BitMask(1) == 3
  {
  }

  // ----- Single bytes

  lemma OrBit(b: Byte, k: nat, j: nat)
    requires k < 8 && j < 8
    ensures ByteBit(b | BitMask(k), j) <==> j == k || ByteBit(b, j)
  {
  }

  lemma AndNotBit(b: Byte, k: nat, j: nat)
    requires k < 8 && j < 8
    ensures ByteBit(b & !BitMask(k), j) <==> j != k && ByteBit(b, j)
  {
  }

  lemma FullByte()
    ensures forall k :: 0 <= k < 8 ==> ByteBit(0xFF, k)
  {
  }

  lemma ShiftedComplement(b: Byte, start: nat, k: nat)
    requires start <= k < 8
    ensures ByteBit(!b >> start, k - start) <==> !ByteBit(b, k)
  {
  }

  lemma ShiftClearsTop(b: Byte, start: nat, k: nat)
    requires start < 8 && 8 - start <= k < 8
    ensures !ByteBit(b >> start, k)
  {
  }

  /** Index of the lowest set bit, 8 for zero. */
  function TrailingZeros8(b: Byte): (n: nat)
    ensures n <= 8 && (n == 8 <==> b == 0)
    ensures n < 8 ==> ByteBit(b, n)
    ensures forall j :: 0 <= j < n ==> !ByteBit(b, j)
  {
    if ByteBit(b, 0) then 0
    else if ByteBit(b, 1) then 1
    else if ByteBit(b, 2) then 2
    else if ByteBit(b, 3) then 3
    else if ByteBit(b, 4) then 4
    else if ByteBit(b, 5) then 5
    else if ByteBit(b, 6) then 6
    else if ByteBit(b, 7) then 7
    else 8
  }

  /** What one step of the scan learns about a byte: the first clear bit at or after `start`. */
  lemma ClearBitInByte(b: Byte, start: nat)
    requires start < 8
    ensures var inverted := !b >> start;
            if inverted == 0 then
              forall k :: start <= k < 8 ==> ByteBit(b, k)
            else
              var k := start + TrailingZeros8(inverted);
              k < 8 && !ByteBit(b, k) && forall j :: start <= j < k ==> ByteBit(b, j)
  {
    var inverted := !b >> start;
    var n := TrailingZeros8(inverted);
    if inverted == 0 {
      forall k | start <= k < 8
        ensures ByteBit(b, k)
      {
        ShiftedComplement(b, start, k);
      }
    } else {
      if start + n >= 8 {
        ShiftClearsTop(!b, start, n);
      }
      ShiftedComplement(b, start, start + n);
      forall j | start <= j < start + n
        ensures ByteBit(b, j)
      {
        ShiftedComplement(b, start, j);
      }
    }
  }

  // ----- The buffer

  method SetBit(bitmap: array<Byte>, offset: nat)
    requires offset / 8 < bitmap.Length
    modifies bitmap
    ensures forall i: nat :: Bit(bitmap[..], i) <==> i == offset || Bit(old(bitmap[..]), i)
  {
    bitmap[offset / 8] := bitmap[offset / 8] | BitMask(offset % 8);
    forall i: nat
      ensures Bit(bitmap[..], i) <==> i == offset || Bit(old(bitmap[..]), i)
    {
      if i / 8 == offset / 8 {
        OrBit(old(bitmap[offset / 8]), offset % 8, i % 8);
      }
    }
  }

  method ClearBit(bitmap: array<Byte>, offset: nat)
    requires offset / 8 < bitmap.Length
    modifies bitmap
    ensures forall i: nat :: Bit(bitmap[..], i) <==> i != offset && Bit(old(bitmap[..]), i)
  {
    bitmap[offset / 8] := bitmap[offset / 8] & !BitMask(offset % 8);
    forall i: nat
      ensures Bit(bitmap[..], i) <==> i != offset && Bit(old(bitmap[..]), i)
    {
      if i / 8 == offset / 8 {
        AndNotBit(old(bitmap[offset / 8]), offset % 8, i % 8);
      }
    }
  }

  predicate GetBit(bitmap: array<Byte>, offset: nat)
    requires offset / 8 < bitmap.Length
    reads bitmap
    ensures GetBit(bitmap, offset) <==> Bit(bitmap[..], offset)
  {
    bitmap[offset / 8] & BitMask(offset % 8) != 0
  }

  /** All bits of [from, to) that lie inside the buffer are set. */
  predicate AllSet(s: seq<Byte>, from: nat, to: int) {
    forall i :: from <= i < to && i / 8 < |s| ==> Bit(s, i)
  }

  lemma ByteSkipped(s: seq<Byte>, start: nat, i: nat)
    requires start <= i && AllSet(s, start, i) && i / 8 < |s|
    requires forall k :: i % 8 <= k < 8 ==> ByteBit(s[i / 8], k)
    ensures AllSet(s, start, (i / 8 + 1) * 8)
  {
    assert forall j :: i <= j < (i / 8 + 1) * 8 ==> j / 8 == i / 8 && i % 8 <= j % 8;
  }

  lemma ClearBitFound(s: seq<Byte>, start: nat, i: nat, k: nat)
    requires start <= i && AllSet(s, start, i) && i / 8 < |s|
    requires i % 8 <= k < 8 && !ByteBit(s[i / 8], k)
    requires forall j :: i % 8 <= j < k ==> ByteBit(s[i / 8], j)
    ensures var r := i / 8 * 8 + k;
            i <= r && r / 8 == i / 8 && !Bit(s, r) && AllSet(s, start, r)
  {
    var r := i / 8 * 8 + k;
    assert r / 8 == i / 8 && r % 8 == k;
    assert forall j :: i <= j < r ==> j / 8 == i / 8 && i % 8 <= j % 8 < k;
  }

  /** The least clear bit of [start, maxBits) inside the buffer, or -1 exactly when there is none. */
  method FindFirstUnset(bitmap: array<Byte>, start: nat, maxBits: nat) returns (r: int)
    ensures r == -1 || start <= r < maxBits
    ensures r == -1 <==> AllSet(bitmap[..], start, maxBits)
    ensures r >= 0 ==> r / 8 < bitmap.Length && !Bit(bitmap[..], r) && AllSet(bitmap[..], start, r)
  {
    var i := start;
    while i < maxBits
      invariant start <= i
      invariant AllSet(bitmap[..], start, i)
    {
      var byteIdx := i / 8;
      if byteIdx >= bitmap.Length {
        return -1;
      }
      var b := bitmap[byteIdx];
      ghost var s := bitmap[..];
      if b == 0xFF {
        FullByte();
        ByteSkipped(s, start, i);
        i := (byteIdx + 1) * 8;
        continue;
      }
      var bitStart := i % 8;
      var inverted := !b >> bitStart;
      ClearBitInByte(b, bitStart);
      if inverted == 0 {
        ByteSkipped(s, start, i);
        i := (byteIdx + 1) * 8;
        continue;
      }
      var bitPos := bitStart + TrailingZeros8(inverted);
      ClearBitFound(s, start, i, bitPos);
      var offset := byteIdx * 8 + bitPos;
      if offset >= maxBits {
        return -1;
      }
      return offset;
    }
    return -1;
  }
}
