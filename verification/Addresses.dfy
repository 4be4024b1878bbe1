/** IPv4 addresses, CIDR prefixes and the offset arithmetic of internal/network/ipam.go.

    A uint32 is a natural number below 2^32. Shifting a byte left and or-ing disjoint bytes is
    multiplication and addition; addition and subtraction of uint32 values wrap. */
module Addresses {
  import opened Wrappers

  const TWO_32: nat := 0x1_0000_0000

  type Octet = x: int | 0 <= x < 256

  datatype Addr = Addr(b0: Octet, b1: Octet, b2: Octet, b3: Octet)

  type PrefixLength = n: nat | n <= 32

  /** A CIDR prefix as the caller wrote it: host bits of `addr` need not be zero. */
  datatype Prefix = Prefix(addr: Addr, bits: PrefixLength)

  function ToUint32(a: Addr): nat {
    a.b0 * 0x100_0000 + a.b1 * 0x1_0000 + a.b2 * 0x100 + a.b3
  }

  function FromUint32(x: nat): Addr {
    Addr(x / 0x100_0000 % 256, x / 0x1_0000 % 256, x / 0x100 % 256, x % 256)
  }

  function Pow2(n: nat): (p: nat)
    ensures p > 0
  {
    if n == 0 then 1 else 2 * Pow2(n - 1)
  }

  /** Number of addresses the prefix covers. */
  function BlockSize(p: Prefix): nat
  {
    Pow2(32 - p.bits)
  }

  /** Number of bits the allocator keeps for the prefix: capped at 2^20. */
  function SubnetSize(p: Prefix): nat
  {
    Pow2(if 32 - p.bits > 20 then 20 else 32 - p.bits)
  }

  function ShiftRight(x: nat, k: nat): nat {
    if k == 0 then x else ShiftRight(x / 2, k - 1)
  }

  /** The first `bits` bits agree. */
  predicate Contains(p: Prefix, ip: Addr) {
    ShiftRight(ToUint32(ip), 32 - p.bits) == ShiftRight(ToUint32(p.addr), 32 - p.bits)
  }

  /** All host bits are zero (section 3.1 of RFC 4632). */
  predicate Canonical(p: Prefix)
  {
    ToUint32(p.addr) % BlockSize(p) == 0
  }

  function OffsetToIP(p: Prefix, offset: nat): Addr {
    FromUint32((ToUint32(p.addr) + offset) % TWO_32)
  }

  function IPToOffset(p: Prefix, ip: Addr): Option<nat>
  {
    if Contains(p, ip) then Some((ToUint32(ip) - ToUint32(p.addr)) % TWO_32) else None
  }

  // ----- Byte packing

  lemma PackUnpack(x: nat)
    requires x < TWO_32
    ensures ToUint32(FromUint32(x)) == x
  {
    var x1, x2, x3 := x / 0x100, x / 0x1_0000, x / 0x100_0000;
    assert x == x1 * 0x100 + x % 256;
    assert x2 == x1 / 0x100 && x1 == x2 * 0x100 + x1 % 256;
    assert x3 == x2 / 0x100 && x2 == x3 * 0x100 + x2 % 256;
    assert x3 < 256;
  }

  lemma ToUint32Bound(a: Addr)
    ensures ToUint32(a) < TWO_32
  {
  }

  lemma UnpackPack(a: Addr)
    ensures ToUint32(a) < TWO_32
    ensures FromUint32(ToUint32(a)) == a
  {
    var x := ToUint32(a);
    assert x / 0x100 == a.b0 * 0x1_0000 + a.b1 * 0x100 + a.b2;
    assert x / 0x1_0000 == a.b0 * 0x100 + a.b1;
    assert x / 0x100_0000 == a.b0;
  }

  // ----- Blocks of a power-of-two size

  lemma {:induction false} Pow2Add(a: nat, b: nat)
    ensures Pow2(a + b) == Pow2(a) * Pow2(b)
  {
    if a > 0 {
      Pow2Add(a - 1, b);
      assert Pow2(a + b) == 2 * Pow2(a - 1 + b);
    }
  }

  lemma {:induction false} Pow2Mono(a: nat, b: nat)
    requires a <= b
    ensures Pow2(a) <= Pow2(b)
  {
    Pow2Add(a, b - a);
    assert Pow2(a) * 1 <= Pow2(a) * Pow2(b - a);
  }

  lemma Pow2Values()
    ensures Pow2(2) == 4 && Pow2(12) == 0x1000 && Pow2(16) == 0x1_0000 && Pow2(20) == 0x10_0000 && Pow2(32) == TWO_32
  {
    assert Pow2(4) == 16;
    Pow2Add(4, 4);
    Pow2Add(8, 4);
    Pow2Add(8, 8);
    Pow2Add(16, 4);
    Pow2Add(16, 16);
  }

  lemma {:induction false} ShiftDivides(x: nat, k: nat)
    ensures ShiftRight(x, k) == x / Pow2(k)
  {
    if k > 0 {
      ShiftDivides(x / 2, k - 1);
      HalfThenDivide(x, Pow2(k - 1));
    }
  }

  lemma HalfThenDivide(x: nat, S: nat)
    requires S > 0
    ensures x / 2 / S == x / (2 * S)
  {
    var q := x / (2 * S);
    var r := x % (2 * S);
    assert x == q * (2 * S) + r;
    assert x / 2 == q * S + r / 2 && 0 <= r / 2 < S;
    QuotientUnique(x / 2, S, q, r / 2);
  }

  lemma QuotientUnique(x: nat, S: nat, q: nat, r: nat)
    requires S > 0 && x == q * S + r && r < S
    ensures x / S == q
  {
    var q', r' := x / S, x % S;
    assert x == q' * S + r';
    MulMono(q + 1, q', S);
    MulMono(q' + 1, q, S);
  }

  /** Division by S names the S-aligned block a number lies in. */
  lemma SameBlock(x: nat, y: nat, S: nat)
    requires S > 0
    ensures x / S == y / S <==> y - y % S <= x < y - y % S + S
  {
    assert x == (x / S) * S + x % S;
    assert y == (y / S) * S + y % S;
    if x / S < y / S {
      assert (x / S + 1) * S <= (y / S) * S;
    } else if x / S > y / S {
      assert (y / S + 1) * S <= (x / S) * S;
    }
  }

  lemma MulMono(a: nat, b: nat, S: nat)
    ensures a <= b ==> a * S <= b * S
  {
    if a <= b {
      assert b * S == a * S + (b - a) * S;
    }
  }

  lemma QuotientBound(x: nat, S: nat, n: nat)
    requires S > 0 && x < n * S
    ensures x - x % S + S <= n * S
  {
    var q := x / S;
    assert x == q * S + x % S;
    MulMono(n, q, S);
    MulMono(q + 1, n, S);
    assert (q + 1) * S == q * S + S;
  }

  lemma WrapSmall(x: nat)
    requires x < TWO_32
    ensures x % TWO_32 == x
  {
  }

  /** Blocks do not straddle the end of the address space. */
  lemma BlockFits(x: nat, bits: nat)
    requires bits <= 32 && x < TWO_32
    ensures x - x % Pow2(32 - bits) + Pow2(32 - bits) <= TWO_32
  {
    var S, n := Pow2(32 - bits), Pow2(bits);
    assert n * S == TWO_32 by {
      Pow2Add(bits, 32 - bits);
      Pow2Values();
    }
    QuotientBound(x, S, n);
  }

  lemma ContainsIsBlock(p: Prefix, ip: Addr)
    ensures Contains(p, ip) <==> ToUint32(ip) / BlockSize(p) == ToUint32(p.addr) / BlockSize(p)
  {
    SameShift(ToUint32(ip), ToUint32(p.addr), 32 - p.bits);
  }

  lemma SameShift(x: nat, y: nat, k: nat)
    ensures ShiftRight(x, k) == ShiftRight(y, k) <==> x / Pow2(k) == y / Pow2(k)
  {
    ShiftDivides(x, k);
    ShiftDivides(y, k);
  }

  lemma ContainsRange(p: Prefix, ip: Addr)
    ensures var base, S := ToUint32(p.addr), BlockSize(p);
            && base - base % S + S <= TWO_32
            && (Contains(p, ip) <==> base - base % S <= ToUint32(ip) < base - base % S + S)
  {
    ContainsIsBlock(p, ip);
    var x, base, S := ToUint32(ip), ToUint32(p.addr), BlockSize(p);
    assert base - base % S + S <= TWO_32 by {
      ToUint32Bound(p.addr);
      BlockFits(base, p.bits);
    }
    SameBlock(x, base, S);
  }

  // ----- The conversions undo each other

  /** The uint32 addition does not wrap. */
  lemma OffsetValue(p: Prefix, offset: nat)
    requires Canonical(p) && offset < BlockSize(p)
    ensures ToUint32(OffsetToIP(p, offset)) == ToUint32(p.addr) + offset
  {
    ContainsRange(p, p.addr);
    WrapSmall(ToUint32(p.addr) + offset);
    PackUnpack(ToUint32(p.addr) + offset);
  }

  lemma OffsetInBlock(p: Prefix, ip: Addr, offset: nat)
    requires Canonical(p) && offset < BlockSize(p)
    requires ToUint32(ip) == ToUint32(p.addr) + offset
    ensures Contains(p, ip) && IPToOffset(p, ip) == Some(offset)
  {
    assert Contains(p, ip) by {
      ContainsRange(p, ip);
    }
    assert IPToOffset(p, ip) == Some((ToUint32(p.addr) + offset - ToUint32(p.addr)) % TWO_32);
    assert offset < TWO_32 by {
      ToUint32Bound(ip);
    }
    WrapSmall(offset);
  }

  /** Every offset below the block size names its own address inside the subnet, and is read back. */
  lemma OffsetRoundTrip(p: Prefix, offset: nat)
    requires Canonical(p) && offset < BlockSize(p)
    ensures ToUint32(OffsetToIP(p, offset)) == ToUint32(p.addr) + offset
    ensures Contains(p, OffsetToIP(p, offset))
    ensures IPToOffset(p, OffsetToIP(p, offset)) == Some(offset)
  {
    OffsetValue(p, offset);
    OffsetInBlock(p, OffsetToIP(p, offset), offset);
  }

  /** Every address inside the subnet is the one its offset names. */
  lemma AddressRoundTrip(p: Prefix, ip: Addr)
    requires Canonical(p) && Contains(p, ip)
    ensures IPToOffset(p, ip).Some? && IPToOffset(p, ip).value < BlockSize(p)
    ensures OffsetToIP(p, IPToOffset(p, ip).value) == ip
  {
    var base, x := ToUint32(p.addr), ToUint32(ip);
    assert base <= x < base + BlockSize(p) && x < TWO_32 by {
      ContainsRange(p, ip);
      UnpackPack(ip);
    }
    WrapSmall(x - base);
    assert IPToOffset(p, ip) == Some(x - base);
    WrapSmall(x);
    UnpackPack(ip);
  }

  lemma SubnetSizeBound(p: Prefix)
    ensures SubnetSize(p) <= BlockSize(p)
    ensures p.bits >= 12 ==> SubnetSize(p) == BlockSize(p)
    ensures p.bits < 12 ==> SubnetSize(p) == 0x10_0000 && BlockSize(p) >= 0x20_0000
    ensures SubnetSize(p) <= 0x10_0000
    ensures p.bits <= 30 ==> SubnetSize(p) >= 4
  {
    Pow2Values();
    if p.bits < 12 {
      assert Pow2(21) == 2 * Pow2(20);
      Pow2Mono(21, 32 - p.bits);
    } else {
      Pow2Mono(32 - p.bits, 20);
    }
    if p.bits <= 30 {
      Pow2Mono(2, if 32 - p.bits > 20 then 20 else 32 - p.bits);
    }
  }

  /** The bitmap has a bit for every address the subnet contains. */
  ghost predicate BitmapCovers(p: Prefix)
  {
    forall ip :: Contains(p, ip) ==> IPToOffset(p, ip).value < SubnetSize(p)
  }

  lemma RemainderBound(x: nat, S: nat)
    requires S > 0
    ensures 0 <= x % S <= x && x % S < S
  {
    var q := x / S;
    assert x == q * S + x % S;
    assert q * S >= 0;
  }

  lemma BelowBase(p: Prefix, ip: Addr)
    requires Contains(p, ip)
    requires ToUint32(ip) == ToUint32(p.addr) - 1
    ensures IPToOffset(p, ip) == Some(TWO_32 - 1)
  {
    assert (-1) % TWO_32 == TWO_32 - 1;
  }

  /** The address just below a base that is not aligned lies in the block, and its offset wraps. */
  lemma UnalignedEscapes(p: Prefix)
    requires !Canonical(p)
    ensures exists ip :: Contains(p, ip) && IPToOffset(p, ip) == Some(TWO_32 - 1)
  {
    var base := ToUint32(p.addr);
    RemainderBound(base, BlockSize(p));
    var ip := FromUint32(base - 1);
    assert ToUint32(ip) == base - 1 by {
      UnpackPack(p.addr);
      PackUnpack(base - 1);
    }
    assert Contains(p, ip) by {
      ContainsRange(p, ip);
    }
    BelowBase(p, ip);
  }

  /** A subnet wider than /12 contains the address whose offset is one past the capped bitmap. */
  lemma WideEscapes(p: Prefix)
    requires p.bits < 12 && Canonical(p)
    ensures exists ip :: Contains(p, ip) && IPToOffset(p, ip) == Some(0x10_0000)
  {
    SubnetSizeBound(p);
    OffsetRoundTrip(p, 0x10_0000);
    var ip := OffsetToIP(p, 0x10_0000);
    assert Contains(p, ip) && IPToOffset(p, ip) == Some(0x10_0000);
  }

  /** Which prefixes the allocator can index without running off its bitmap. */
  lemma BitmapCoversExactly(p: Prefix)
    ensures BitmapCovers(p) <==> Canonical(p) && p.bits >= 12
  {
    SubnetSizeBound(p);
    if !Canonical(p) {
      UnalignedEscapes(p);
    } else if p.bits < 12 {
      WideEscapes(p);
    } else {
      forall ip | Contains(p, ip)
        ensures IPToOffset(p, ip).value < SubnetSize(p)
      {
        AddressRoundTrip(p, ip);
      }
    }
  }

  // ----- Overlap

  /** No address belongs to both. */
  ghost predicate Disjoint(p: Prefix, q: Prefix)
  {
    forall ip :: !(Contains(p, ip) && Contains(q, ip))
  }

  /** Aligned ranges that do not meet are disjoint prefixes. */
  lemma DisjointRanges(p: Prefix, q: Prefix)
    requires Canonical(p) && Canonical(q)
    requires ToUint32(p.addr) + BlockSize(p) <= ToUint32(q.addr)
    ensures Disjoint(p, q) && Disjoint(q, p)
  {
    forall ip | Contains(p, ip)
      ensures !Contains(q, ip)
    {
      ContainsRange(p, ip);
      ContainsRange(q, ip);
    }
  }
}
