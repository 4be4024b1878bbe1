/** The address allocator of internal/network/ipam.go over the bitmap bucket of
    internal/store/network.go. Each bucket access either succeeds or fails with no effect. */
module Ipam {
  import opened Wrappers
  import opened Addresses
  import opened Bitmaps

  /** The errors, and the panic of a bit access past the end of the bitmap. */
  datatype IpamError = LoadFailed | PersistFailed | NoAvailableIP | AlreadyAllocated | OutOfRange | IndexPanic

  type BitmapBucket = map<Prefix, seq<Byte>>

  function BitmapBytes(p: Prefix): nat {
    (SubnetSize(p) + 7) / 8
  }

  /** Length of the buffer the allocator works on: what is stored, grown to the subnet's size. */
  function LoadedBytes(bitmaps: BitmapBucket, p: Prefix): nat {
    if p in bitmaps && |bitmaps[p]| > BitmapBytes(p) then |bitmaps[p]| else BitmapBytes(p)
  }

  /** As many bytes as it takes to have a bit for each offset, and no more, unless more are stored. */
  lemma BytesSuffice(bitmaps: BitmapBucket, p: Prefix)
    ensures SubnetSize(p) <= 8 * LoadedBytes(bitmaps, p)
    ensures 8 * (LoadedBytes(bitmaps, p) - 1) < SubnetSize(p)
            || (p in bitmaps && LoadedBytes(bitmaps, p) == |bitmaps[p]|)
    ensures p in bitmaps ==> |bitmaps[p]| <= LoadedBytes(bitmaps, p)
  {
  }

  /** A bit of that buffer: a new bitmap reserves the network address and the gateway. */
  predicate LoadedBit(bitmaps: BitmapBucket, p: Prefix, i: nat) {
    if p in bitmaps then Bit(bitmaps[p], i) else i < 2
  }

  /** The allocation view of a subnet: its set bits, network address and gateway left aside. */
  function Offsets(bitmaps: BitmapBucket, p: Prefix): set<nat> {
    set o: nat | 2 <= o < SubnetSize(p) && LoadedBit(bitmaps, p, o)
  }

  /** The buckets differ for one subnet at most. */
  predicate SameElsewhere(b: BitmapBucket, c: BitmapBucket, p: Prefix) {
    b - {p} == c - {p}
  }

  /** The lowest free offset of [from, size). */
  function LowestFree(taken: set<nat>, from: nat, size: nat): (r: Option<nat>)
    ensures r.Some? ==> from <= r.value < size && r.value !in taken
    ensures r.Some? ==> forall o :: from <= o < r.value ==> o in taken
    ensures r.None? <==> forall o :: from <= o < size ==> o in taken
    decreases size - from
  {
    if from >= size then None
    else if from !in taken then Some(from)
    else LowestFree(taken, from + 1, size)
  }

  lemma LowestFreeUnique(taken: set<nat>, from: nat, size: nat, o: nat)
    requires from <= o < size && o !in taken
    requires forall j :: from <= j < o ==> j in taken
    ensures LowestFree(taken, from, size) == Some(o)
  {
  }

  /** One more bit set is one more offset allocated. */
  lemma OneMore(b: BitmapBucket, c: BitmapBucket, p: Prefix, o: nat)
    requires 2 <= o < SubnetSize(p) && !LoadedBit(b, p, o)
    requires forall i: nat :: LoadedBit(c, p, i) <==> i == o || LoadedBit(b, p, i)
    ensures Offsets(c, p) == Offsets(b, p) + {o} && |Offsets(c, p)| == |Offsets(b, p)| + 1
  {
    assert Offsets(c, p) == Offsets(b, p) + {o};
  }

  /** The first clear bit of the buffer is the lowest free offset. */
  lemma FoundIsLowest(b: BitmapBucket, p: Prefix, buffer: seq<Byte>, found: int)
    requires forall i: nat :: Bit(buffer, i) <==> LoadedBit(b, p, i)
    requires found >= 0 ==> 2 <= found < SubnetSize(p) && !Bit(buffer, found)
                            && forall o :: 2 <= o < found ==> Bit(buffer, o)
    requires found < 0 ==> forall o :: 2 <= o < SubnetSize(p) ==> Bit(buffer, o)
    ensures LowestFree(Offsets(b, p), 2, SubnetSize(p)) == if found < 0 then None else Some(found)
  {
    if found >= 0 {
      LowestFreeUnique(Offsets(b, p), 2, SubnetSize(p), found);
    }
  }

  class IPAM {
    var bitmaps: BitmapBucket

    constructor ()
      ensures bitmaps == map[]
    {
      bitmaps := map[];
    }

    method LoadOrCreateBitmap(subnet: Prefix, totalIPs: nat, loadOk: bool) returns (r: Result<array<Byte>, IpamError>)
      requires totalIPs == SubnetSize(subnet)
      ensures r.Ok? <==> loadOk
      ensures r.Ok? ==> fresh(r.value) && r.value.Length == LoadedBytes(bitmaps, subnet)
      ensures r.Ok? ==> forall i: nat :: Bit(r.value[..], i) <==> LoadedBit(bitmaps, subnet, i)
      ensures r.Err? ==> r.error == LoadFailed
    {
      if !loadOk {
        return Err(LoadFailed);
      }
      var bitmapBytes := (totalIPs + 7) / 8;
      if subnet !in bitmaps {
        var bitmap := new Byte[bitmapBytes](_ => 0);
        assert forall i: nat :: !Bit(bitmap[..], i);
        SetBit(bitmap, 0);
        SetBit(bitmap, 1);
        return Ok(bitmap);
      }
      var stored := bitmaps[subnet];
      if |stored| < bitmapBytes {
        var grown := new Byte[bitmapBytes](i => if 0 <= i < |stored| then stored[i] else 0);
        return Ok(grown);
      }
      var bitmap := new Byte[|stored|](i requires 0 <= i < |stored| => stored[i]);
      assert bitmap[..] == stored;
      return Ok(bitmap);
    }

    /** Lowest free address, or an error that leaves the bucket as it was. */
    method Allocate(subnet: Prefix, loadOk: bool, putOk: bool) returns (r: Result<Addr, IpamError>)
      modifies this
      ensures var free := LowestFree(old(Offsets(bitmaps, subnet)), 2, SubnetSize(subnet));
              && r == (if !loadOk then Err(LoadFailed)
                       else if free.None? then Err(NoAvailableIP)
                       else if !putOk then Err(PersistFailed)
                       else Ok(OffsetToIP(subnet, free.value)))
              && (r.Err? ==> bitmaps == old(bitmaps))
              && (r.Ok? ==> Offsets(bitmaps, subnet) == old(Offsets(bitmaps, subnet)) + {free.value})
              && (r.Ok? ==> |Offsets(bitmaps, subnet)| == |old(Offsets(bitmaps, subnet))| + 1)
              && (r.Ok? ==> forall i: nat ::
                    LoadedBit(bitmaps, subnet, i) <==> i == free.value || old(LoadedBit(bitmaps, subnet, i)))
      ensures SameElsewhere(old(bitmaps), bitmaps, subnet)
    {
      var totalIPs := SubnetSize(subnet);
      var loaded := LoadOrCreateBitmap(subnet, totalIPs, loadOk);
      if loaded.Err? {
        return Err(loaded.error);
      }
      var bitmap := loaded.value;
      var offset := FindFirstUnset(bitmap, 2, totalIPs);
      FoundIsLowest(bitmaps, subnet, bitmap[..], offset);
      if offset < 0 {
        return Err(NoAvailableIP);
      }
      var stored := MarkAndStore(subnet, bitmap, offset, putOk);
      if !stored {
        return Err(PersistFailed);
      }
      return Ok(OffsetToIP(subnet, offset));
    }

    /** Sets the bit of a free offset in the loaded bitmap, and stores that. */
    method MarkAndStore(subnet: Prefix, bitmap: array<Byte>, offset: nat, putOk: bool) returns (ok: bool)
      requires 2 <= offset < SubnetSize(subnet) && offset / 8 < bitmap.Length && !Bit(bitmap[..], offset)
      requires forall i: nat :: Bit(bitmap[..], i) <==> LoadedBit(bitmaps, subnet, i)
      modifies this, bitmap
      ensures ok == putOk && (!ok ==> bitmaps == old(bitmaps))
      ensures ok ==> forall i: nat ::
                LoadedBit(bitmaps, subnet, i) <==> i == offset || old(LoadedBit(bitmaps, subnet, i))
      ensures ok ==> Offsets(bitmaps, subnet) == old(Offsets(bitmaps, subnet)) + {offset}
                     && |Offsets(bitmaps, subnet)| == |old(Offsets(bitmaps, subnet))| + 1
      ensures SameElsewhere(old(bitmaps), bitmaps, subnet)
    {
      SetBit(bitmap, offset);
      if !putOk {
        return false;
      }
      bitmaps := bitmaps[subnet := bitmap[..]];
      OneMore(old(bitmaps), bitmaps, subnet, offset);
      return true;
    }

    /** The address's bit lies past the end of the bitmap. */
    predicate OffBitmap(subnet: Prefix, ip: Addr)
      reads this
    {
      Contains(subnet, ip) && IPToOffset(subnet, ip).value / 8 >= LoadedBytes(bitmaps, subnet)
    }

    /** Marks one given address. On a subnet never used before only the base address and the gateway's
        are taken. */
    method AllocateSpecific(subnet: Prefix, ip: Addr, loadOk: bool, putOk: bool) returns (r: Result<(), IpamError>)
      modifies this
      ensures r == (if !Contains(subnet, ip) then Err(OutOfRange)
                    else if !loadOk then Err(LoadFailed)
                    else if old(OffBitmap(subnet, ip)) then Err(IndexPanic)
                    else if old(LoadedBit(bitmaps, subnet, IPToOffset(subnet, ip).value)) then Err(AlreadyAllocated)
                    else if !putOk then Err(PersistFailed)
                    else Ok(()))
      ensures loadOk && putOk && subnet !in old(bitmaps) && Contains(subnet, ip)
              && IPToOffset(subnet, ip).value < SubnetSize(subnet) ==>
                r == if IPToOffset(subnet, ip).value < 2 then Err(AlreadyAllocated) else Ok(())
      ensures r.Err? ==> bitmaps == old(bitmaps)
      ensures r.Ok? ==> forall i: nat ::
                LoadedBit(bitmaps, subnet, i)
                <==> i == IPToOffset(subnet, ip).value || old(LoadedBit(bitmaps, subnet, i))
      ensures SameElsewhere(old(bitmaps), bitmaps, subnet)
    {
      var offset := IPToOffset(subnet, ip);
      if offset.None? {
        return Err(OutOfRange);
      }
      var loaded := LoadOrCreateBitmap(subnet, SubnetSize(subnet), loadOk);
      if loaded.Err? {
        return Err(loaded.error);
      }
      var bitmap := loaded.value;
      if offset.value / 8 >= bitmap.Length {
        return Err(IndexPanic);
      }
      if GetBit(bitmap, offset.value) {
        return Err(AlreadyAllocated);
      }
      SetBit(bitmap, offset.value);
      if !putOk {
        return Err(PersistFailed);
      }
      bitmaps := bitmaps[subnet := bitmap[..]];
      return Ok(());
    }

    /** Frees one address; the other offsets of the subnet keep their state. */
    method Release(subnet: Prefix, ip: Addr, loadOk: bool, putOk: bool) returns (r: Result<(), IpamError>)
      modifies this
      ensures r == (if !Contains(subnet, ip) then Err(OutOfRange)
                    else if !loadOk then Err(LoadFailed)
                    else if old(OffBitmap(subnet, ip)) then Err(IndexPanic)
                    else if !putOk then Err(PersistFailed)
                    else Ok(()))
      ensures r.Err? ==> bitmaps == old(bitmaps)
      ensures r.Ok? ==> forall i: nat ::
                LoadedBit(bitmaps, subnet, i)
                <==> i != IPToOffset(subnet, ip).value && old(LoadedBit(bitmaps, subnet, i))
      ensures r.Ok? ==> Offsets(bitmaps, subnet) == old(Offsets(bitmaps, subnet)) - {IPToOffset(subnet, ip).value}
      ensures SameElsewhere(old(bitmaps), bitmaps, subnet)
    {
      var offset := IPToOffset(subnet, ip);
      if offset.None? {
        return Err(OutOfRange);
      }
      var loaded := LoadOrCreateBitmap(subnet, SubnetSize(subnet), loadOk);
      if loaded.Err? {
        return Err(loaded.error);
      }
      var bitmap := loaded.value;
      if offset.value / 8 >= bitmap.Length {
        return Err(IndexPanic);
      }
      ClearBit(bitmap, offset.value);
      if !putOk {
        return Err(PersistFailed);
      }
      bitmaps := bitmaps[subnet := bitmap[..]];
      return Ok(());
    }

    /** How many addresses are taken, and how many could be. */
    method Count(subnet: Prefix, loadOk: bool) returns (used: nat, total: int)
      ensures total == SubnetSize(subnet) - 2
      ensures used == if loadOk then |Offsets(bitmaps, subnet)| else 0
    {
      var totalIPs: int := SubnetSize(subnet);
      used := 0;
      var loaded := LoadOrCreateBitmap(subnet, totalIPs, loadOk);
      if loaded.Err? {
        return 0, totalIPs - 2;
      }
      var bitmap := loaded.value;
      ghost var seen: set<nat> := {};
      var i := 2;
      while i < totalIPs
        invariant 2 <= i && (i <= totalIPs || totalIPs < 2)
        invariant forall o :: o in seen <==> 2 <= o < i && o < totalIPs && Bit(bitmap[..], o)
        invariant used == |seen|
      {
        if GetBit(bitmap, i) {
          used := used + 1;
          seen := seen + {i};
        }
        i := i + 1;
      }
      assert seen == Offsets(bitmaps, subnet);
      return used, totalIPs - 2;
    }

    /** Drops the bitmap of a subnet, and with it every allocation. */
    method ReleaseSubnet(subnet: Prefix, deleteOk: bool) returns (r: Result<(), IpamError>)
      modifies this
      ensures r == if deleteOk then Ok(()) else Err(PersistFailed)
      ensures bitmaps == if deleteOk then old(bitmaps) - {subnet} else old(bitmaps)
    {
      if !deleteOk {
        return Err(PersistFailed);
      }
      bitmaps := bitmaps - {subnet};
      return Ok(());
    }
  }

  // ----- Exhaustion

  function Interval(lo: nat, hi: nat): (s: set<nat>)
    requires lo <= hi
    ensures |s| == hi - lo
    ensures forall i :: i in s <==> lo <= i < hi
    decreases hi - lo
  {
    if lo == hi then {} else Interval(lo, hi - 1) + {hi - 1}
  }

  lemma FullSubset(s: set<nat>, t: set<nat>)
    requires s <= t
    ensures |s| == |t| <==> s == t
  {
    assert t == s + (t - s);
    assert |t| == |s| + |t - s|;
  }

  /** Running out of addresses is the same as the counters meeting, for every prefix but a /32,
      whose total is reported as -1. */
  lemma ExhaustedWhenCountersMeet(bitmaps: BitmapBucket, p: Prefix)
    ensures (LowestFree(Offsets(bitmaps, p), 2, SubnetSize(p)) == None
             <==> |Offsets(bitmaps, p)| == SubnetSize(p) - 2)
            <==> p.bits <= 31
  {
    if p.bits == 32 {
      assert Offsets(bitmaps, p) == {};
    } else {
      assert SubnetSize(p) >= 2;
      var all := Interval(2, SubnetSize(p));
      FullSubset(Offsets(bitmaps, p), all);
      if LowestFree(Offsets(bitmaps, p), 2, SubnetSize(p)) == None {
        assert Offsets(bitmaps, p) == all;
      } else {
        assert Offsets(bitmaps, p) != all;
      }
    }
  }
}
