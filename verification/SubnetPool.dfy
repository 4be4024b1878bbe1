/** Automatic subnet assignment of internal/network/manager.go: the first pool subnet whose text
    does not occur among the existing networks. */
module SubnetPool {
  import opened Wrappers
  import opened Addresses

  const POOL_SIZE: nat := 27

  /** 172.21.0.0/16 to 172.31.0.0/16, then 192.168.0.0/20 to 192.168.240.0/20. */
  function PoolSubnet(i: nat): Prefix
    requires i < POOL_SIZE
  {
    if i < 11 then Prefix(Addr(172, 21 + i, 0, 0), 16) else Prefix(Addr(192, 168, 16 * (i - 11), 0), 20)
  }

  const DEFAULT_SUBNET := Prefix(Addr(172, 20, 0, 0), 16)

  /** Index of the first pool subnet, from `from` on, that is not in use. */
  function FirstFree(used: set<Prefix>, from: nat): (r: Option<nat>)
    requires from <= POOL_SIZE
    ensures r.Some? ==> from <= r.value < POOL_SIZE && PoolSubnet(r.value) !in used
    ensures r.Some? ==> forall i :: from <= i < r.value ==> PoolSubnet(i) in used
    ensures r.None? <==> forall i :: from <= i < POOL_SIZE ==> PoolSubnet(i) in used
    decreases POOL_SIZE - from
  {
    if from == POOL_SIZE then None
    else if PoolSubnet(from) !in used then Some(from)
    else FirstFree(used, from + 1)
  }

  function SubnetsOf(existing: seq<Option<Prefix>>): set<Prefix> {
    set r <- existing | r.Some? :: r.value
  }

  /** The pool is 172.21 to 172.31 with 16 bits each, and 192.168 in pieces of 20 bits. */
  lemma PoolExactly(p: Prefix)
    ensures (exists i: nat :: i < POOL_SIZE && PoolSubnet(i) == p)
            <==> || (p.bits == 16 && p.addr.b0 == 172 && 21 <= p.addr.b1 <= 31 && p.addr.b2 == p.addr.b3 == 0)
                 || (p.bits == 20 && p.addr.b0 == 192 && p.addr.b1 == 168 && p.addr.b2 % 16 == 0 && p.addr.b3 == 0)
  {
    if p.bits == 16 && p.addr.b0 == 172 && 21 <= p.addr.b1 <= 31 && p.addr.b2 == p.addr.b3 == 0 {
      assert PoolSubnet(p.addr.b1 - 21) == p;
    }
    if p.bits == 20 && p.addr.b0 == 192 && p.addr.b1 == 168 && p.addr.b2 % 16 == 0 && p.addr.b3 == 0 {
      assert PoolSubnet(11 + p.addr.b2 / 16) == p;
    }
  }

  lemma FirstFreeUnique(used: set<Prefix>, i: nat)
    requires i < POOL_SIZE && PoolSubnet(i) !in used
    requires forall j :: 0 <= j < i ==> PoolSubnet(j) in used
    ensures FirstFree(used, 0) == Some(i)
  {
  }

  /** The subnet and the gateway of a new network; networks without a subnet are skipped. */
  method AutoAssignSubnet(existing: seq<Option<Prefix>>) returns (r: Option<(Prefix, Addr)>)
    ensures var i := FirstFree(SubnetsOf(existing), 0);
            r == if i.None? then None else Some((PoolSubnet(i.value), OffsetToIP(PoolSubnet(i.value), 1)))
  {
    var usedSubnets: set<Prefix> := {};
    for k := 0 to |existing|
      invariant usedSubnets == SubnetsOf(existing[..k])
    {
      if existing[k].Some? {
        usedSubnets := usedSubnets + {existing[k].value};
      }
      assert existing[..k + 1] == existing[..k] + [existing[k]];
    }
    assert existing[..|existing|] == existing;

    var second := 21;
    while second <= 31
      invariant 21 <= second <= 32
      invariant forall i :: 0 <= i < second - 21 ==> PoolSubnet(i) in usedSubnets
    {
      var subnet := Prefix(Addr(172, second, 0, 0), 16);
      if subnet !in usedSubnets {
        FirstFreeUnique(usedSubnets, second - 21);
        GatewayIsOffsetOne(second - 21);
        return Some((subnet, Addr(172, second, 0, 1)));
      }
      second := second + 1;
    }
    var third := 0;
    while third <= 240
      invariant 0 <= third <= 256 && third % 16 == 0
      invariant forall i :: 0 <= i < 11 + third / 16 ==> PoolSubnet(i) in usedSubnets
    {
      var subnet := Prefix(Addr(192, 168, third, 0), 20);
      if subnet !in usedSubnets {
        FirstFreeUnique(usedSubnets, 11 + third / 16);
        GatewayIsOffsetOne(11 + third / 16);
        return Some((subnet, Addr(192, 168, third, 1)));
      }
      third := third + 16;
    }
    return None;
  }

  lemma PoolRange(i: nat)
    requires i < POOL_SIZE
    ensures var p := PoolSubnet(i);
            && Canonical(p)
            && ToUint32(p.addr) == (if i < 11 then (172 * 256 + 21 + i) * 0x1_0000
                                    else (192 * 256 + 168) * 0x1_0000 + (i - 11) * 0x1000)
            && BlockSize(p) == (if i < 11 then 0x1_0000 else 0x1000)
  {
    Pow2Values();
  }

  lemma GatewayIsOffsetOne(i: nat)
    requires i < POOL_SIZE
    ensures OffsetToIP(PoolSubnet(i), 1) == PoolSubnet(i).addr.(b3 := 1)
  {
    PoolRange(i);
    OffsetValue(PoolSubnet(i), 1);
    var gateway := PoolSubnet(i).addr.(b3 := 1);
    assert ToUint32(gateway) == ToUint32(PoolSubnet(i).addr) + 1;
    WrapSmall(ToUint32(gateway));
    UnpackPack(gateway);
  }

  lemma PoolPairwiseDisjoint(i: nat, j: nat)
    requires i < POOL_SIZE && j < POOL_SIZE && i != j
    ensures PoolSubnet(i) != PoolSubnet(j) && Disjoint(PoolSubnet(i), PoolSubnet(j))
  {
    PoolRange(i);
    PoolRange(j);
    if i < j {
      DisjointRanges(PoolSubnet(i), PoolSubnet(j));
    } else {
      DisjointRanges(PoolSubnet(j), PoolSubnet(i));
    }
  }

  lemma DefaultOutsidePool(i: nat)
    requires i < POOL_SIZE
    ensures Canonical(DEFAULT_SUBNET) && Disjoint(DEFAULT_SUBNET, PoolSubnet(i))
  {
    PoolRange(i);
    Pow2Values();
    DisjointRanges(DEFAULT_SUBNET, PoolSubnet(i));
  }

  /** Either one of the pool's own subnets or apart from all of them. */
  ghost predicate PoolCompatible(q: Prefix) {
    forall i :: 0 <= i < POOL_SIZE ==> q == PoolSubnet(i) || Disjoint(q, PoolSubnet(i))
  }

  /** Comparing texts keeps assigned subnets apart from q, whatever else exists, exactly for the
      compatible q. */
  lemma TextComparisonSuffices(q: Prefix)
    ensures PoolCompatible(q) <==>
            forall used: set<Prefix> | q in used ::
              FirstFree(used, 0).Some? ==> Disjoint(q, PoolSubnet(FirstFree(used, 0).value))
  {
    if !PoolCompatible(q) {
      var i :| 0 <= i < POOL_SIZE && q != PoolSubnet(i) && !Disjoint(q, PoolSubnet(i));
      var used := {q} + set j | 0 <= j < i :: PoolSubnet(j);
      forall j | 0 <= j < i
        ensures PoolSubnet(j) != PoolSubnet(i)
      {
        PoolPairwiseDisjoint(j, i);
      }
      FirstFreeUnique(used, i);
      assert q in used;
    }
  }

  /** A user-given 172.16.0.0/12 is not compatible: the next assignment lies inside it. */
  lemma WideSubnetIsAssignedInto()
    ensures var q := Prefix(Addr(172, 16, 0, 0), 12);
            && Canonical(q)
            && FirstFree({q, DEFAULT_SUBNET}, 0) == Some(0)
            && !Disjoint(q, PoolSubnet(0))
  {
    var q := Prefix(Addr(172, 16, 0, 0), 12);
    Pow2Values();
    PoolRange(0);
    var ip := PoolSubnet(0).addr;
    ContainsRange(q, ip);
    ContainsRange(PoolSubnet(0), ip);
    assert Contains(q, ip) && Contains(PoolSubnet(0), ip);
  }
}
