/** What the guards of runs are for, and when automatic assignment meets them: overlapping subnets,
    networks on one subnet, the pool, and a name connected twice. */
module NetworkOverlap {
  import opened Wrappers
  import opened Addresses
  import Ipam
  import SubnetPool
  import opened NetworkSpec
  import opened NetworkInvariant
  import opened NetworkDisconnect
  import opened NetworkRuns

  // ----- Overlapping subnets

  predicate Allocatable(p: Prefix, x: nat) {
    2 <= x < SubnetSize(p)
  }

  lemma {:induction false} ShiftMore(x: nat, a: nat, b: nat)
    ensures ShiftRight(x, a + b) == ShiftRight(ShiftRight(x, a), b)
  {
    if a > 0 {
      ShiftMore(x / 2, a - 1, b);
    }
  }

  /** Of two prefixes that share an address the longer one lies inside the other. */
  lemma Nested(p: Prefix, q: Prefix, shared: Addr, ip: Addr)
    requires p.bits <= q.bits && Contains(p, shared) && Contains(q, shared) && Contains(q, ip)
    ensures Contains(p, ip)
  {
    var a, b := 32 - q.bits, q.bits - p.bits;
    ShiftMore(ToUint32(shared), a, b);
    ShiftMore(ToUint32(ip), a, b);
  }

  lemma OverlapShares(p: Prefix, q: Prefix, shared: Addr)
    requires BitmapCovers(p) && BitmapCovers(q) && p.bits <= q.bits <= 30
    requires Contains(p, shared) && Contains(q, shared)
    ensures exists x, y :: Allocatable(p, x) && Allocatable(q, y) && OffsetToIP(p, x) == OffsetToIP(q, y)
  {
    BitmapCoversExactly(p);
    BitmapCoversExactly(q);
    SubnetSizeBound(p);
    SubnetSizeBound(q);
    OffsetRoundTrip(q, 2);
    var ip := OffsetToIP(q, 2);
    Nested(p, q, shared, ip);
    AddressRoundTrip(p, ip);
    var x := IPToOffset(p, ip).value;
    assert Allocatable(p, x) by {
      OffsetRoundTrip(p, x);
      assert Contains(q, q.addr);
      Nested(p, q, shared, q.addr);
      AddressRoundTrip(p, q.addr);
      OffsetRoundTrip(p, IPToOffset(p, q.addr).value);
    }
    assert Allocatable(q, 2);
  }

  lemma SharesOverlap(p: Prefix, q: Prefix, x: nat, y: nat)
    requires BitmapCovers(p) && BitmapCovers(q)
    requires Allocatable(p, x) && Allocatable(q, y) && OffsetToIP(p, x) == OffsetToIP(q, y)
    ensures p.bits <= 30 && q.bits <= 30 && !Disjoint(p, q)
  {
    HasRoom(p, x);
    HasRoom(q, y);
    BitmapCoversExactly(p);
    BitmapCoversExactly(q);
    SubnetSizeBound(p);
    SubnetSizeBound(q);
    OffsetRoundTrip(p, x);
    OffsetRoundTrip(q, y);
    assert Contains(p, OffsetToIP(p, x)) && Contains(q, OffsetToIP(p, x));
  }

  lemma HasRoom(p: Prefix, x: nat)
    requires Allocatable(p, x)
    ensures p.bits <= 30
  {
    assert Pow2(1) == 2 * Pow2(0) == 2;
  }

  /** Two networks can hand out one and the same address exactly when their subnets overlap, equal subnets
      included, and neither is a /31 or /32, which has nothing to hand out. */
  lemma OverlapSharesAddressExactly(p: Prefix, q: Prefix)
    requires BitmapCovers(p) && BitmapCovers(q)
    ensures p.bits <= 30 && q.bits <= 30 && !Disjoint(p, q)
            <==> exists x, y :: Allocatable(p, x) && Allocatable(q, y) && OffsetToIP(p, x) == OffsetToIP(q, y)
  {
    if p.bits <= 30 && q.bits <= 30 && !Disjoint(p, q) {
      var shared :| Contains(p, shared) && Contains(q, shared);
      if p.bits <= q.bits {
        OverlapShares(p, q, shared);
      } else {
        OverlapShares(q, p, shared);
      }
    }
    if x, y :| Allocatable(p, x) && Allocatable(q, y) && OffsetToIP(p, x) == OffsetToIP(q, y) {
      SharesOverlap(p, q, x, y);
    }
  }

  /** Two networks on one subnet share one bitmap: removing the empty one drops every allocation of the
      other, whose endpoints stay. */
  lemma SharedSubnetLosesAllocations(s: NetState, i: string, j: string, env: RemoveEnv)
    requires NetworksIndexed(s) && IsBridge(s, i) && IsBridge(s, j) && i != j
    requires s.networks[i].subnet == s.networks[j].subnet && s.networks[j].name != DEFAULT_NAME
    requires !HasEndpoints(s, j) && env.releaseOk && env.deleteOk
    ensures var (t, r) := Remove(s, j, env);
            r.Ok? && t.endpoints == s.endpoints && t.networks == s.networks - {j}
            && AllocOf(t, t.networks[i].subnet) == {}
  {
    assert ResolveNetwork(s, j) == Ok(s.networks[j]);
  }

  /** On any network, coherent or not, a Connect that fails after the allocation gives the address back exactly
      when the release succeeds and the address lies in the subnet it was allocated from; with host bits
      set it may not. */
  lemma AddressTakenBackExactly(s: NetState, a: ConnectArgs)
    requires Allocates(s, a) && a.fault == AtVeth
    ensures var n := ResolveNetwork(s, a.networkID).value;
            Connect(s, a).0 == s <==> a.undo.releaseOk && Contains(n.subnet, AddressGiven(s, a))
  {
    var n := ResolveNetwork(s, a.networkID).value;
    var o := ConnectOffset(s, n);
    assert Connect(s, a) == ConnectBridge(s, n, a);
    assert SetAlloc(s.alloc, n.subnet, AllocOf(s, n.subnet) + {o}) != s.alloc;
  }

  lemma ShiftTwo(x: nat)
    ensures ShiftRight(x, 2) == x / 2 / 2
  {
    assert ShiftRight(x / 2, 1) == ShiftRight(x / 2 / 2, 0);
  }

  /** For example: the first address of 10.0.0.3/30 is 10.0.0.5, outside of it. */
  lemma HostBitsLeadOutside()
    ensures var p := Prefix(Addr(10, 0, 0, 3), 30);
            OffsetToIP(p, 2) == Addr(10, 0, 0, 5) && !Contains(p, Addr(10, 0, 0, 5))
  {
    UnpackPack(Addr(10, 0, 0, 5));
    ShiftTwo(ToUint32(Addr(10, 0, 0, 5)));
    ShiftTwo(ToUint32(Addr(10, 0, 0, 3)));
  }

  // ----- The pool

  /** Every live subnet is a pool subnet or apart from the pool. */
  ghost predicate AllPoolCompatible(s: NetState) {
    forall id :: IsBridge(s, id) ==> SubnetPool.PoolCompatible(s.networks[id].subnet)
  }

  /** The automatic choice meets no live subnet. */
  lemma AutoSubnetApart(s: NetState, i: nat)
    requires AllPoolCompatible(s) && SubnetPool.FirstFree(LiveSubnets(s), 0) == Some(i)
    ensures var p := SubnetPool.PoolSubnet(i);
            ApartFromAll(s, p) && BitmapCovers(p) && SubnetPool.PoolCompatible(p)
  {
    var p := SubnetPool.PoolSubnet(i);
    forall id | IsBridge(s, id)
      ensures Disjoint(s.networks[id].subnet, p) && Disjoint(p, s.networks[id].subnet)
    {
      assert s.networks[id].subnet in LiveSubnets(s);
      assert SubnetPool.PoolCompatible(s.networks[id].subnet);
    }
    SubnetPool.PoolRange(i);
    CanonicalCovered(p);
    forall j | 0 <= j < SubnetPool.POOL_SIZE && j != i
      ensures Disjoint(p, SubnetPool.PoolSubnet(j))
    {
      SubnetPool.PoolPairwiseDisjoint(i, j);
    }
  }

  /** A guard that says nothing of automatic choices: a user's subnet is covered by the bitmap, meets no
      live one, and is a pool subnet or apart from the pool. */
  ghost predicate PoolGuard(s: NetState, op: Op) {
    match op
    case OpCreate(a) =>
      && a.id !in s.networks && NoSlash(a.id)
      && (a.subnet.Some? ==>
            && BitmapCovers(a.subnet.value) && ApartFromAll(s, a.subnet.value)
            && SubnetPool.PoolCompatible(a.subnet.value))
    case _ => Guard(s, op)
  }

  ghost predicate PoolGuarded(s: NetState, ops: seq<Op>)
    decreases |ops|
  {
    ops == [] || (PoolGuard(s, ops[0]) && PoolGuarded(Step(s, ops[0]), ops[1..]))
  }

  lemma PoolChoice(s: NetState, a: CreateArgs)
    requires AllPoolCompatible(s) && PoolGuard(s, OpCreate(a)) && ChosenSubnet(s, a).Some?
    ensures var p := ChosenSubnet(s, a).value;
            ApartFromAll(s, p) && BitmapCovers(p) && SubnetPool.PoolCompatible(p)
  {
    if a.subnet.None? {
      AutoSubnetApart(s, SubnetPool.FirstFree(LiveSubnets(s), 0).value);
    }
  }

  lemma PoolCreate(s: NetState, a: CreateArgs)
    requires AllPoolCompatible(s) && PoolGuard(s, OpCreate(a))
    ensures CreateGuard(s, a) && AllPoolCompatible(Create(s, a).0)
  {
    if ChosenSubnet(s, a).Some? {
      PoolChoice(s, a);
    }
    CreateShape(s, a);
    var t := Create(s, a).0;
    if Create(s, a).1.Ok? {
      var p := ChosenSubnet(s, a).value;
      CreateOnShape(s, a, p, ChosenGateway(a, p));
      assert forall id :: IsBridge(t, id) && id != a.id ==> IsBridge(s, id) && t.networks[id] == s.networks[id];
    } else {
      SameNetworksCompatible(s, t);
    }
  }

  lemma PoolRemove(s: NetState, query: string, env: RemoveEnv)
    requires Coherent(s) && AllPoolCompatible(s)
    ensures AllPoolCompatible(Remove(s, query, env).0)
  {
    RemoveShape(s, query, env);
    var t := Remove(s, query, env).0;
    assert forall id :: IsBridge(t, id) ==> IsBridge(s, id) && t.networks[id] == s.networks[id];
  }

  lemma PoolStep(s: NetState, op: Op)
    requires Coherent(s) && AllPoolCompatible(s) && PoolGuard(s, op)
    ensures Guard(s, op) && AllPoolCompatible(Step(s, op))
  {
    match op
    case OpCreate(a) => PoolCreate(s, a);
    case OpRemove(query, env) => PoolRemove(s, query, env);
    case OpConnect(a) =>
      ConnectFrame(s, a);
      SameNetworksCompatible(s, Connect(s, a).0);
    case OpDisconnect(nid, cid, force, env) =>
      SameNetworksCompatible(s, DisconnectWith(s, nid, cid, force, env).0);
    case OpDisconnectAll(nids, cid, env) =>
      DisconnectEachRemoves(s, nids, cid, env, "");
      SameNetworksCompatible(s, DisconnectEach(s, nids, cid, env).0);
  }

  lemma SameNetworksCompatible(s: NetState, t: NetState)
    requires AllPoolCompatible(s) && t.networks == s.networks
    ensures AllPoolCompatible(t)
  {
    assert forall id :: IsBridge(t, id) <==> IsBridge(s, id);
  }

  /** With such subnets every automatic choice is apart from the live ones: the run meets its guard, and
      coherence comes without any condition on what is assigned. */
  lemma {:induction false} PoolRunsAreGuarded(s: NetState, ops: seq<Op>)
    requires Coherent(s) && AllPoolCompatible(s) && PoolGuarded(s, ops)
    ensures Guarded(s, ops) && Coherent(Run(s, ops)) && AllPoolCompatible(Run(s, ops))
    decreases |ops|
  {
    if ops != [] {
      PoolStep(s, ops[0]);
      StepKeepsCoherent(s, ops[0]);
      PoolRunsAreGuarded(Step(s, ops[0]), ops[1..]);
    }
  }

  lemma InitialPoolCompatible(b: string, h: string, n: string)
    requires b != h && h != n && b != n
    ensures AllPoolCompatible(Initial(b, h, n))
  {
    var s := Initial(b, h, n);
    forall i | 0 <= i < SubnetPool.POOL_SIZE
      ensures Disjoint(SubnetPool.DEFAULT_SUBNET, SubnetPool.PoolSubnet(i))
    {
      SubnetPool.DefaultOutsidePool(i);
    }
    assert forall id :: IsBridge(s, id) ==> s.networks[id].subnet == SubnetPool.DEFAULT_SUBNET;
  }

  // ----- A name connected twice

  lemma ConnectedNameRecorded(s: NetState, a: ConnectArgs, n: Network)
    requires Coherent(s) && Connects(s, a, n) && n.name != DEFAULT_NAME
    ensures Recorded(Connect(s, a).0.records, n.id, TrimSlash(a.containerName))
  {
    ConnectsAdds(s, a, n);
  }

  lemma FailedPersist(t: NetState, b: ConnectArgs, n: Network)
    requires ResolveNetwork(t, b.networkID) == Ok(n) && n.BridgeNetwork? && n.name != DEFAULT_NAME
    requires Connect(t, b).1 == Err(PersistFailed)
    ensures Connect(t, b).0.endpoints == t.endpoints
    ensures !Recorded(Connect(t, b).0.records, n.id, TrimSlash(b.containerName))
  {
  }

  /** "/web" is connected; connecting "web" then fails at the last step and takes the record of
      "/web" with it. */
  lemma RollbackLosesRecord(s: NetState, a: ConnectArgs, b: ConnectArgs, n: Network)
    requires Coherent(s) && Connects(s, a, n) && n.name != DEFAULT_NAME
    requires b.networkID == a.networkID && TrimSlash(b.containerName) == TrimSlash(a.containerName)
    requires Connect(Connect(s, a).0, b).1 == Err(PersistFailed)
    ensures var t := Connect(s, a).0;
            && Recorded(t.records, n.id, TrimSlash(a.containerName))
            && !Recorded(Connect(t, b).0.records, n.id, TrimSlash(a.containerName))
            && Connect(t, b).0.endpoints == t.endpoints
  {
    var t := Connect(s, a).0;
    ConnectedNameRecorded(s, a, n);
    assert ResolveNetwork(t, b.networkID) == Ok(n) by {
      ConnectFrame(s, a);
    }
    FailedPersist(t, b, n);
  }

  /** An automatic network after the first start. */
  lemma FirstNetwork(b: string, h: string, n: string, id: string)
    requires NoSlash(b) && NoSlash(h) && NoSlash(n) && NoSlash(id) && b != h && h != n && b != n && id !in {b, h, n, ""}
    ensures var s, c := Initial(b, h, n), CreateArgs("net", "", None, None, false, id, NoCreateFault, true);
            var t := Create(s, c).0;
            && Coherent(t) && id in t.networks && t.alloc == map[]
            && t.networks[id]
               == BridgeNetwork(id, "net", SubnetPool.PoolSubnet(0), OffsetToIP(SubnetPool.PoolSubnet(0), 1), false)
  {
    var s, c := Initial(b, h, n), CreateArgs("net", "", None, None, false, id, NoCreateFault, true);
    FirstChoice(b, h, n);
    FirstCoherent(b, h, n, c);
    assert "net"[0] == 'n' && DEFAULT_NAME[0] == 'b' && "host"[0] == 'h' && |"net"| != |"none"|;
    assert c.name !in s.names;
    Succeeds(s, c);
  }

  lemma FirstCoherent(b: string, h: string, n: string, c: CreateArgs)
    requires NoSlash(b) && NoSlash(h) && NoSlash(n) && b != h && h != n && b != n
    requires NoSlash(c.id) && c.id !in {b, h, n} && c.subnet.None?
    ensures Coherent(Create(Initial(b, h, n), c).0)
  {
    var s := Initial(b, h, n);
    InitialCoherent(b, h, n);
    InitialPoolCompatible(b, h, n);
    assert PoolGuard(s, OpCreate(c));
    PoolCreate(s, c);
    CreateKeepsCoherent(s, c);
  }

  /** What is not refused and does not fail is created. */
  lemma Succeeds(s: NetState, c: CreateArgs)
    requires Creatable(s, c) && c.fault.NoCreateFault?
    ensures Create(s, c).1.Ok?
    ensures var p := ChosenSubnet(s, c).value;
            && Create(s, c).0.networks
               == s.networks[c.id := BridgeNetwork(c.id, c.name, p, ChosenGateway(c, p), c.internal)]
            && Create(s, c).0.alloc == s.alloc
  {
  }

  lemma FirstChoice(b: string, h: string, n: string)
    requires b != h && h != n && b != n
    ensures SubnetPool.FirstFree(LiveSubnets(Initial(b, h, n)), 0) == Some(0)
  {
    assert SubnetPool.PoolSubnet(0) !in LiveSubnets(Initial(b, h, n));
  }

  /** Such a loss happens: on that network, two containers in. */
  lemma RollbackLossHappens(b: string, h: string, n: string, id: string)
    requires NoSlash(b) && NoSlash(h) && NoSlash(n) && NoSlash(id) && b != h && h != n && b != n && id !in {b, h, n, ""}
    ensures var s := Create(Initial(b, h, n), CreateArgs("net", "", None, None, false, id, NoCreateFault, true)).0;
            var first := ConnectArgs(id, "c1", "/web", [], "veth1", "mac1", NoFault, ALL_UNDONE);
            var second := ConnectArgs(id, "c2", "web", [], "veth2", "mac2", AtPersist, ALL_UNDONE);
            var t := Connect(s, first).0;
            && Connect(s, first).1.Ok? && Connect(t, second).1 == Err(PersistFailed)
            && Recorded(t.records, id, "web") && !Recorded(Connect(t, second).0.records, id, "web")
            && Connect(t, second).0.endpoints == t.endpoints
  {
    var s := Create(Initial(b, h, n), CreateArgs("net", "", None, None, false, id, NoCreateFault, true)).0;
    FirstNetwork(b, h, n, id);
    TwoContainers(s, id, ConnectArgs(id, "c1", "/web", [], "veth1", "mac1", NoFault, ALL_UNDONE),
                  ConnectArgs(id, "c2", "web", [], "veth2", "mac2", AtPersist, ALL_UNDONE));
  }

  lemma TwoContainers(s: NetState, id: string, first: ConnectArgs, second: ConnectArgs)
    requires Coherent(s) && IsBridge(s, id) && s.alloc == map[]
    requires s.networks[id].name != DEFAULT_NAME && s.networks[id].subnet.bits <= 29
    requires first.networkID == id == second.networkID && first.fault == NoFault && second.fault == AtPersist
    requires TrimSlash(first.containerName) == TrimSlash(second.containerName)
    ensures var t, x := Connect(s, first).0, TrimSlash(first.containerName);
            && Connect(s, first).1.Ok? && Connect(t, second).1 == Err(PersistFailed)
            && Recorded(t.records, id, x) && !Recorded(Connect(t, second).0.records, id, x)
            && Connect(t, second).0.endpoints == t.endpoints
  {
    var net := s.networks[id];
    var size := SubnetSize(net.subnet);
    assert size >= 8 by {
      WideEnough(net.subnet);
    }
    assert ResolveNetwork(s, id) == Ok(net) && net.id == id;
    assert AllocOf(s, net.subnet) == {};
    Ipam.LowestFreeUnique({}, 2, size, 2);
    Committed(s, net, first);
    ConnectsAdds(s, first, net);
    var t := Connect(s, first).0;
    assert AllocOf(t, net.subnet) == {2} by {
      assert ConnectOffset(s, net) == 2;
    }
    Ipam.LowestFreeUnique({2}, 2, size, 3);
    ConnectFrame(s, first);
    assert ResolveNetwork(t, id) == Ok(net);
    PersistFails(t, net, second);
    RollbackLosesRecord(s, first, second, net);
  }

  lemma WideEnough(p: Prefix)
    requires p.bits <= 29
    ensures SubnetSize(p) >= 8
  {
    Pow2Mono(3, if 32 - p.bits > 20 then 20 else 32 - p.bits);
    assert Pow2(3) == 8;
  }

  lemma PersistFails(t: NetState, n: Network, a: ConnectArgs)
    requires ResolveNetwork(t, a.networkID) == Ok(n) && n.BridgeNetwork? && a.fault == AtPersist
    requires Ipam.LowestFree(AllocOf(t, n.subnet), 2, SubnetSize(n.subnet)).Some?
    ensures Connect(t, a).1 == Err(PersistFailed)
  {
    var o := ConnectOffset(t, n);
    assert Connect(t, a) == ConnectBridge(t, n, a) == Published(t, n, a, o, OffsetToIP(n.subnet, o));
  }
}
