/** Whole runs of the network manager: creation and removal of networks, and the invariant over every
    guarded run. */
module NetworkRuns {
  import opened Wrappers
  import opened Addresses
  import Ipam
  import opened Lookup
  import SubnetPool
  import opened NetworkSpec
  import opened NetworkInvariant
  import opened NetworkDisconnect

  // ----- Creating a network

  /** The subnet a creation settles on. */
  ghost function ChosenSubnet(s: NetState, a: CreateArgs): Option<Prefix> {
    if a.subnet.Some? then a.subnet
    else
      var i := SubnetPool.FirstFree(LiveSubnets(s), 0);
      if i.None? then None else Some(SubnetPool.PoolSubnet(i.value))
  }

  ghost predicate ApartFromAll(s: NetState, p: Prefix) {
    forall id :: IsBridge(s, id) ==> Disjoint(s.networks[id].subnet, p) && Disjoint(p, s.networks[id].subnet)
  }

  /** The call is not refused: a known driver, a name that is free, a subnet to settle on, and keys that the
      database accepts. */
  ghost predicate Creatable(s: NetState, a: CreateArgs) {
    && (a.driver == "" || a.driver == "bridge")
    && a.name !in s.names && ChosenSubnet(s, a).Some? && ValidKeys(a.id, a.name)
  }

  /** A new ID without a slash, and a subnet that the bitmap covers and that meets no live one. */
  ghost predicate NewNetworkSound(s: NetState, a: CreateArgs)
    requires ChosenSubnet(s, a).Some?
  {
    && a.id !in s.networks && NoSlash(a.id)
    && BitmapCovers(ChosenSubnet(s, a).value) && ApartFromAll(s, ChosenSubnet(s, a).value)
  }

  /** What the caller of CreateNetwork has to see to. */
  ghost predicate CreateGuard(s: NetState, a: CreateArgs) {
    Creatable(s, a) ==> NewNetworkSound(s, a)
  }

  /** The new network has neither endpoints nor allocations nor records. */
  lemma NewNetworkKeepsCoherent(s: NetState, t: NetState, n: Network)
    requires Coherent(s) && n.BridgeNetwork?
    requires n.id !in s.networks && NoSlash(n.id) && n.name != "" && n.name !in s.names
    requires ApartFromAll(s, n.subnet) && BitmapCovers(n.subnet)
    requires t.networks == s.networks[n.id := n] && t.names == s.names[n.name := n.id]
    requires t.endpoints == s.endpoints && t.alloc == s.alloc && t.portKeys == s.portKeys && t.records == s.records
    ensures Coherent(t)
  {
    NewNetworkIndexed(s, t, n);
    NewNetworkApart(s, t, n);
    NewNetworkPlacement(s, t, n);
    NewNetworkAllocation(s, t, n);
    NewNetworkDns(s, t, n);
    SamePorts(s, t);
  }

  lemma SamePorts(s: NetState, t: NetState)
    requires PortsExact(s) && AddressesUnique(s) && t.endpoints == s.endpoints && t.portKeys == s.portKeys
    ensures PortsExact(t) && AddressesUnique(t)
  {
    assert forall pk :: Wanted(t, pk) <==> Wanted(s, pk);
  }

  lemma NewNetworkIndexed(s: NetState, t: NetState, n: Network)
    requires NetworksIndexed(s)
    requires n.id !in s.networks && NoSlash(n.id) && n.name != "" && n.name !in s.names
    requires t.networks == s.networks[n.id := n] && t.names == s.names[n.name := n.id]
    ensures NetworksIndexed(t)
  {
    assert NamesOf(t.networks) == NamesOf(s.networks)[n.id := n.name];
  }

  lemma NewNetworkApart(s: NetState, t: NetState, n: Network)
    requires SubnetsApart(s) && n.BridgeNetwork? && n.id !in s.networks
    requires ApartFromAll(s, n.subnet) && BitmapCovers(n.subnet)
    requires t.networks == s.networks[n.id := n]
    ensures SubnetsApart(t)
  {
    assert forall id :: IsBridge(t, id) <==> id == n.id || IsBridge(s, id);
  }

  lemma NewNetworkPlacement(s: NetState, t: NetState, n: Network)
    requires EndpointsPlaced(s) && n.id !in s.networks
    requires t.networks == s.networks[n.id := n] && t.endpoints == s.endpoints
    ensures EndpointsPlaced(t)
  {
    forall k | k in t.endpoints
      ensures Placed(t, k)
    {
      assert Placed(s, k);
    }
  }

  lemma NewNetworkAllocation(s: NetState, t: NetState, n: Network)
    requires EndpointsPlaced(s) && AllocationExact(s) && n.BridgeNetwork?
    requires n.id !in s.networks && ApartFromAll(s, n.subnet)
    requires t.networks == s.networks[n.id := n] && t.endpoints == s.endpoints && t.alloc == s.alloc
    ensures AllocationExact(t)
  {
    assert n.subnet !in LiveSubnets(s) by {
      ContainsRange(n.subnet, n.subnet.addr);
      assert Contains(n.subnet, n.subnet.addr);
      assert forall id :: IsBridge(s, id) ==> s.networks[id].subnet != n.subnet;
    }
    forall i, x: nat | IsBridge(t, i)
      ensures x in AllocOf(t, t.networks[i].subnet) <==> Taken(t, i, x)
    {
      forall j
        ensures TakenBy(t, i, x, j) <==> i != n.id && TakenBy(s, i, x, j)
      {
        if j in s.endpoints {
          assert Placed(s, j);
        }
      }
      if i != n.id {
        assert IsBridge(s, i);
        assert x in AllocOf(s, s.networks[i].subnet) <==> Taken(s, i, x);
      }
    }
    forall p | p in t.alloc
      ensures t.alloc[p] != {} && p in LiveSubnets(t)
    {
      var id :| IsBridge(s, id) && s.networks[id].subnet == p;
      assert t.networks[id] == s.networks[id];
    }
  }

  lemma NewNetworkDns(s: NetState, t: NetState, n: Network)
    requires EndpointsPlaced(s) && DnsExact(s)
    requires n.id !in s.networks
    requires t.networks == s.networks[n.id := n] && t.endpoints == s.endpoints && t.records == s.records
    ensures DnsExact(t)
  {
    forall k, nid, name
      ensures Carries(t, k, nid, name) <==> Carries(s, k, nid, name)
    {
      if k in s.endpoints {
        assert Placed(s, k);
      }
    }
  }

  function ChosenGateway(a: CreateArgs, p: Prefix): Addr {
    if a.subnet.Some? && a.gateway.Some? then a.gateway.value else OffsetToIP(p, 1)
  }

  /** A creation settles on a subnet and a gateway first; a failure touches the masquerade rules only. */
  lemma CreateShape(s: NetState, a: CreateArgs)
    ensures Create(s, a).1.Ok? ==>
              && ChosenSubnet(s, a).Some? && a.name !in s.names && ValidKeys(a.id, a.name)
              && Create(s, a) == CreateOn(s, a, ChosenSubnet(s, a).value, ChosenGateway(a, ChosenSubnet(s, a).value))
    ensures Create(s, a).1.Err? ==> Create(s, a).0 == s.(masq := Create(s, a).0.masq)
  {
    if a.subnet.Some? {
      CreateOnShape(s, a, a.subnet.value, ChosenGateway(a, a.subnet.value));
    } else if ChosenSubnet(s, a).Some? {
      CreateOnShape(s, a, ChosenSubnet(s, a).value, ChosenGateway(a, ChosenSubnet(s, a).value));
    }
  }

  lemma CreateOnShape(s: NetState, a: CreateArgs, p: Prefix, gateway: Addr)
    ensures var (t, r) := CreateOn(s, a, p, gateway);
            if r.Err? then t == s.(masq := t.masq)
            else
              && a.name !in s.names && ValidKeys(a.id, a.name)
              && t == s.(networks := s.networks[a.id := BridgeNetwork(a.id, a.name, p, gateway, a.internal)],
                         names := s.names[a.name := a.id],
                         masq := if a.internal then s.masq else s.masq + {p})
  {
  }

  /** CreateNetwork succeeds exactly when the driver is known, the keys are valid, the name is free, a
      subnet is given or left in the pool, and no call fails; the masquerade rule is asked for only where it
      is not there yet. */
  lemma CreateSucceedsExactly(s: NetState, a: CreateArgs)
    ensures Create(s, a).1.Ok?
            <==> && a.driver in {"", "bridge"} && a.id != "" && a.name != "" && a.name !in s.names
                 && (a.subnet.None? ==> exists i: nat :: i < SubnetPool.POOL_SIZE
                                                         && SubnetPool.PoolSubnet(i) !in LiveSubnets(s))
                 && !a.fault.AtBridge? && !a.fault.AtCreate?
                 && (a.fault.AtMasquerade? ==>
                       a.internal || (ChosenSubnet(s, a).Some? && ChosenSubnet(s, a).value in s.masq))
    ensures match Create(s, a).1
            case Ok(id) => id == a.id
            case Err(Unsupported) => a.driver !in {"", "bridge"}
            case Err(NoAvailableSubnets) => a.subnet.None?
            case Err(BridgeFailed) => a.fault.AtBridge?
            case Err(MasqueradeFailed) => a.fault.AtMasquerade?
            case Err(NameInUse) => a.name in s.names
            case Err(CreateFailed) => a.fault.AtCreate? || a.id == "" || a.name == ""
  {
    if a.subnet.None? && ChosenSubnet(s, a).Some? {
      var i := SubnetPool.FirstFree(LiveSubnets(s), 0).value;
      assert i < SubnetPool.POOL_SIZE && SubnetPool.PoolSubnet(i) !in LiveSubnets(s);
    }
  }

  /** The i-th pool subnet is the first that no network has. */
  ghost predicate FirstUnused(s: NetState, i: nat) {
    && i < SubnetPool.POOL_SIZE && SubnetPool.PoolSubnet(i) !in LiveSubnets(s)
    && forall j :: 0 <= j < i ==> SubnetPool.PoolSubnet(j) in LiveSubnets(s)
  }

  /** What a creation records: the name and the flag of the call; the subnet given, or else the first pool
      subnet not in use; the gateway given with a subnet, and otherwise the address at offset 1. Every other
      record and name stays. */
  lemma CreateRecords(s: NetState, a: CreateArgs)
    requires Create(s, a).1.Ok?
    ensures var t := Create(s, a).0;
            && Create(s, a).1 == Ok(a.id) && a.id in t.networks && t.networks[a.id].BridgeNetwork?
            && var n := t.networks[a.id];
            && t == s.(networks := s.networks[a.id := n], names := s.names[a.name := a.id], masq := t.masq)
            && n.id == a.id && n.name == a.name && n.internal == a.internal
            && (a.subnet.Some? ==> n.subnet == a.subnet.value)
            && (a.subnet.None? ==> exists i: nat :: FirstUnused(s, i) && n.subnet == SubnetPool.PoolSubnet(i))
            && (a.subnet.Some? && a.gateway.Some? ==> n.gateway == a.gateway.value)
            && (a.subnet.None? || a.gateway.None? ==> n.gateway == OffsetToIP(n.subnet, 1))
  {
    CreateShape(s, a);
    var p := ChosenSubnet(s, a).value;
    CreateOnShape(s, a, p, ChosenGateway(a, p));
    if a.subnet.None? {
      assert FirstUnused(s, SubnetPool.FirstFree(LiveSubnets(s), 0).value);
    }
  }

  lemma OnlyMasqueradeDiffers(s: NetState, t: NetState)
    requires Coherent(s) && t == s.(masq := t.masq)
    ensures Coherent(t)
  {
    assert forall id :: IsBridge(t, id) <==> IsBridge(s, id);
    assert forall nid, x: nat, j :: TakenBy(t, nid, x, j) <==> TakenBy(s, nid, x, j);
    assert forall nid, x: nat :: Taken(t, nid, x) <==> Taken(s, nid, x);
    assert LiveSubnets(t) == LiveSubnets(s);
    assert forall p :: AllocOf(t, p) == AllocOf(s, p);
    assert forall pk :: Wanted(t, pk) <==> Wanted(s, pk);
    assert forall k, nid, name :: Carries(t, k, nid, name) <==> Carries(s, k, nid, name);
    assert forall k :: k in s.endpoints ==> (Placed(t, k) <==> Placed(s, k));
  }

  /** A successful creation keeps the state coherent exactly when the ID is well-formed and new and the
      subnet is covered by the bitmap and meets no live one. */
  lemma CreateKeepsCoherentExactly(s: NetState, a: CreateArgs)
    requires Coherent(s) && Create(s, a).1.Ok?
    ensures ChosenSubnet(s, a).Some?
    ensures Coherent(Create(s, a).0) <==> NewNetworkSound(s, a)
  {
    CreateShape(s, a);
    var t, p := Create(s, a).0, ChosenSubnet(s, a).value;
    CreateOnShape(s, a, p, ChosenGateway(a, p));
    var n := BridgeNetwork(a.id, a.name, p, ChosenGateway(a, p), a.internal);
    if NewNetworkSound(s, a) {
      NewNetworkKeepsCoherent(s, t, n);
    } else {
      UnsoundNetwork(s, t, n);
    }
  }

  lemma UnsoundNetwork(s: NetState, t: NetState, n: Network)
    requires NetworksIndexed(s) && n.BridgeNetwork? && n.name !in s.names
    requires t.networks == s.networks[n.id := n] && t.names == s.names[n.name := n.id]
    requires !(n.id !in s.networks && NoSlash(n.id) && BitmapCovers(n.subnet) && ApartFromAll(s, n.subnet))
    ensures !(NetworksIndexed(t) && SubnetsApart(t))
  {
    if n.id in s.networks {
      var was := s.networks[n.id].name;
      assert NamesOf(s.networks)[n.id] == was;
      assert was in t.names && t.names[was] == n.id && NamesOf(t.networks)[n.id] == n.name != was;
    } else if !BitmapCovers(n.subnet) {
      assert IsBridge(t, n.id);
    } else if !ApartFromAll(s, n.subnet) {
      var id :| IsBridge(s, id) && !(Disjoint(s.networks[id].subnet, n.subnet)
                                     && Disjoint(n.subnet, s.networks[id].subnet));
      assert IsBridge(t, id) && IsBridge(t, n.id) && t.networks[id] == s.networks[id];
    } else {
      assert n.id in t.networks && t.networks[n.id] == n;
    }
  }

  /** Creating a network, or failing to, keeps the state coherent. */
  lemma CreateKeepsCoherent(s: NetState, a: CreateArgs)
    requires Coherent(s) && CreateGuard(s, a)
    ensures Coherent(Create(s, a).0)
  {
    CreateShape(s, a);
    if Create(s, a).1.Ok? {
      assert Creatable(s, a);
      CreateKeepsCoherentExactly(s, a);
    } else {
      OnlyMasqueradeDiffers(s, Create(s, a).0);
    }
  }

  /** Whatever call fails, CreateNetwork keeps the state coherent: exactly under its guard. */
  lemma CreateGuardExactly(s: NetState, a: CreateArgs)
    requires Coherent(s)
    ensures (forall f: CreateFault :: Coherent(Create(s, a.(fault := f)).0)) <==> CreateGuard(s, a)
  {
    if CreateGuard(s, a) {
      forall f: CreateFault ensures Coherent(Create(s, a.(fault := f)).0) {
        assert CreateGuard(s, a.(fault := f));
        CreateKeepsCoherent(s, a.(fault := f));
      }
    } else {
      var b := a.(fault := NoCreateFault);
      assert Create(s, b).1.Ok? && !NewNetworkSound(s, b);
      CreateKeepsCoherentExactly(s, b);
    }
  }

  /** Taking the masquerade rule back takes the one that was added and no other: the rule is deleted and was
      not there before, or it stays and none was added. */
  ghost predicate RuleSpared(s: NetState, a: CreateArgs) {
    ChosenSubnet(s, a).Some? ==>
      var p := ChosenSubnet(s, a).value;
      if a.undoOk then p !in s.masq else a.internal || p in s.masq
  }

  predicate SupportedDriver(a: CreateArgs) {
    a.driver == "" || a.driver == "bridge"
  }

  lemma RefusedRestores(s: NetState, a: CreateArgs, p: Prefix)
    ensures RefusedOn(s, a, p) == s <==> if a.undoOk then p !in s.masq else a.internal || p in s.masq
  {
    assert p !in s.masq ==> s.masq - {p} == s.masq;
    assert p in s.masq ==> s.masq + {p} == s.masq && p !in s.masq - {p};
  }

  lemma CreateOnFails(s: NetState, a: CreateArgs, p: Prefix, gateway: Addr)
    requires CreateOn(s, a, p, gateway).1.Err?
    ensures var (t, r) := CreateOn(s, a, p, gateway);
            t == if r.error.NameInUse? || r.error.CreateFailed? then RefusedOn(s, a, p) else s
  {
  }

  /** A creation that fails leaves everything as it was, except exactly when it is refused and its clean-up
      takes away a masquerade rule of another network, or leaves its own. */
  lemma FailedCreateRestores(s: NetState, a: CreateArgs)
    requires Create(s, a).1.Err?
    ensures Create(s, a).0 == s
            <==> !((Create(s, a).1.error.NameInUse? || Create(s, a).1.error.CreateFailed?) && !RuleSpared(s, a))
  {
    if SupportedDriver(a) && ChosenSubnet(s, a).Some? {
      var p := ChosenSubnet(s, a).value;
      assert Create(s, a) == CreateOn(s, a, p, ChosenGateway(a, p));
      CreateOnFails(s, a, p, ChosenGateway(a, p));
      RefusedRestores(s, a, p);
    }
  }

  lemma RefusedAtCreate(s: NetState, a: CreateArgs)
    requires a.fault.AtCreate? && SupportedDriver(a) && ChosenSubnet(s, a).Some?
    ensures Create(s, a) == (RefusedOn(s, a, ChosenSubnet(s, a).value),
                             Err(if a.name in s.names then NameInUse else CreateFailed))
  {
    var p := ChosenSubnet(s, a).value;
    assert Create(s, a) == CreateOn(s, a, p, ChosenGateway(a, p));
  }

  /** Whatever call fails, a creation that fails restores the state: exactly when its clean-up spares the
      rules of the subnet it settles on. */
  lemma CreateRestoresExactly(s: NetState, a: CreateArgs)
    ensures (forall f: CreateFault :: Create(s, a.(fault := f)).1.Err? ==> Create(s, a.(fault := f)).0 == s)
            <==> (SupportedDriver(a) ==> RuleSpared(s, a))
  {
    if SupportedDriver(a) ==> RuleSpared(s, a) {
      forall f: CreateFault | Create(s, a.(fault := f)).1.Err? ensures Create(s, a.(fault := f)).0 == s {
        FailedCreateRestores(s, a.(fault := f));
        assert RuleSpared(s, a.(fault := f)) == RuleSpared(s, a);
      }
    } else {
      var b := a.(fault := AtCreate);
      RefusedAtCreate(s, b);
      RefusedRestores(s, b, ChosenSubnet(s, a).value);
    }
  }

  /** A second "bridge" network on the default subnet is refused, and takes the default network's
      masquerade rule with it. */
  lemma RefusedCreateDropsMasquerade(b: string, h: string, n: string, id: string)
    ensures var a := CreateArgs(DEFAULT_NAME, "bridge", Some(SubnetPool.DEFAULT_SUBNET), None, false, id,
                                NoCreateFault, true);
            && Create(Initial(b, h, n), a).1 == Err(NameInUse)
            && Create(Initial(b, h, n), a).0.masq == {}
  {
  }

  // ----- Removing a network

  /** When the listing of a network is empty, no endpoint belongs to it. */
  lemma NoEndpointsListed(s: NetState, nid: string)
    requires NetworksIndexed(s) && EndpointsPlaced(s) && IsBridge(s, nid) && !HasEndpoints(s, nid)
    ensures forall k :: k in s.endpoints ==> s.endpoints[k].networkID != nid
  {
    forall k | k in s.endpoints
      ensures s.endpoints[k].networkID != nid
    {
      assert Placed(s, k);
      PrefixNamesNetwork(nid, s.endpoints[k].networkID, s.endpoints[k].containerID);
    }
  }

  lemma NoEndpointsNoTraces(s: NetState, nid: string)
    requires AllocationExact(s) && DnsExact(s) && IsBridge(s, nid)
    requires forall k :: k in s.endpoints ==> s.endpoints[k].networkID != nid
    ensures s.networks[nid].subnet !in s.alloc && nid !in s.records
  {
    var p := s.networks[nid].subnet;
    assert forall x: nat :: x in AllocOf(s, p) <==> Taken(s, nid, x);
    assert AllocOf(s, p) == {};
    if nid in s.records {
      var name :| name in s.records[nid];
      assert Recorded(s.records, nid, name);
    }
  }

  lemma RemovedNetworkKeepsCoherent(s: NetState, t: NetState, n: Network)
    requires Coherent(s) && IsBridge(s, n.id) && s.networks[n.id] == n
    requires forall k :: k in s.endpoints ==> s.endpoints[k].networkID != n.id
    requires n.subnet !in s.alloc
    requires t.networks == s.networks - {n.id} && t.names == s.names - {n.name}
    requires t.endpoints == s.endpoints && t.alloc == s.alloc && t.portKeys == s.portKeys && t.records == s.records
    ensures Coherent(t)
  {
    RemovedNetworkIndexed(s, t, n);
    RemovedNetworkPlacement(s, t, n);
    RemovedNetworkAllocation(s, t, n);
    SamePorts(s, t);
    RemovedNetworkDns(s, t, n);
  }

  lemma RemovedNetworkIndexed(s: NetState, t: NetState, n: Network)
    requires NetworksIndexed(s) && SubnetsApart(s) && n.id in s.networks && s.networks[n.id] == n
    requires t.networks == s.networks - {n.id} && t.names == s.names - {n.name}
    ensures NetworksIndexed(t) && SubnetsApart(t)
  {
    assert NamesOf(t.networks) == NamesOf(s.networks) - {n.id};
    assert NamesOf(s.networks)[n.id] == n.name;
    assert forall id :: IsBridge(t, id) <==> id != n.id && IsBridge(s, id);
  }

  lemma RemovedNetworkPlacement(s: NetState, t: NetState, n: Network)
    requires EndpointsPlaced(s) && forall k :: k in s.endpoints ==> s.endpoints[k].networkID != n.id
    requires t.networks == s.networks - {n.id} && t.endpoints == s.endpoints
    ensures EndpointsPlaced(t)
  {
    forall k | k in t.endpoints
      ensures Placed(t, k)
    {
      assert Placed(s, k);
    }
  }

  lemma RemovedNetworkDns(s: NetState, t: NetState, n: Network)
    requires DnsExact(s) && forall k :: k in s.endpoints ==> s.endpoints[k].networkID != n.id
    requires t.networks == s.networks - {n.id} && t.endpoints == s.endpoints && t.records == s.records
    ensures DnsExact(t)
  {
    assert forall k, nid, name :: Carries(t, k, nid, name) <==> Carries(s, k, nid, name);
  }

  lemma RemovedNetworkAllocation(s: NetState, t: NetState, n: Network)
    requires AllocationExact(s) && IsBridge(s, n.id) && s.networks[n.id] == n && n.subnet !in s.alloc
    requires t.networks == s.networks - {n.id} && t.endpoints == s.endpoints && t.alloc == s.alloc
    ensures AllocationExact(t)
  {
    assert forall i :: IsBridge(t, i) <==> i != n.id && IsBridge(s, i);
    forall i, x: nat | IsBridge(t, i)
      ensures x in AllocOf(t, t.networks[i].subnet) <==> Taken(t, i, x)
    {
      assert forall j :: TakenBy(t, i, x, j) <==> TakenBy(s, i, x, j);
      assert x in AllocOf(s, s.networks[i].subnet) <==> Taken(s, i, x);
    }
    forall p | p in t.alloc
      ensures t.alloc[p] != {} && p in LiveSubnets(t)
    {
      var id :| IsBridge(s, id) && s.networks[id].subnet == p;
      assert id != n.id;
      assert IsBridge(t, id) && t.networks[id].subnet == p;
    }
  }

  lemma RemoveEmpty(s: NetState, query: string, env: RemoveEnv, n: Network)
    requires ResolveNetwork(s, query) == Ok(n) && n.BridgeNetwork? && n.name != DEFAULT_NAME && n.name != ""
             && !HasEndpoints(s, n.id)
    requires n.subnet !in s.alloc && n.id !in s.records
    ensures var (t, r) := Remove(s, query, env);
            && (r.Ok? <==> env.deleteOk)
            && t == s.(networks := if r.Ok? then s.networks - {n.id} else s.networks,
                       names := if r.Ok? then s.names - {n.name} else s.names,
                       masq := if env.masqOk then s.masq - {n.subnet} else s.masq)
  {
    assert s.alloc - {n.subnet} == s.alloc && s.records - {n.id} == s.records;
  }

  /** A removal gets past its checks for an empty bridge network only, which has left no traces. */
  lemma RemoveShape(s: NetState, query: string, env: RemoveEnv)
    requires Coherent(s)
    ensures var (t, r) := Remove(s, query, env);
            if r.Ok? || r.error.DeleteFailed? then
              && ResolveNetwork(s, query).Ok?
              && var n := ResolveNetwork(s, query).value;
              && IsBridge(s, n.id) && s.networks[n.id] == n
              && (forall k :: k in s.endpoints ==> s.endpoints[k].networkID != n.id)
              && n.subnet !in s.alloc
              && t == s.(networks := if r.Ok? then s.networks - {n.id} else s.networks,
                         names := if r.Ok? then s.names - {n.name} else s.names,
                         masq := if env.masqOk then s.masq - {n.subnet} else s.masq)
            else t == s
  {
    if ResolveNetwork(s, query).Ok? {
      var n := ResolveNetwork(s, query).value;
      ResolvedIsStored(s, query);
      if n.BridgeNetwork? && n.name != DEFAULT_NAME && !HasEndpoints(s, n.id) {
        NoEndpointsListed(s, n.id);
        NoEndpointsNoTraces(s, n.id);
        RemoveEmpty(s, query, env, n);
      }
    }
  }

  /** RemoveNetwork refuses unknown networks, the predefined ones and those that containers are connected to,
      and no other. */
  lemma RemoveSucceedsExactly(s: NetState, query: string, env: RemoveEnv)
    requires Coherent(s)
    ensures var found, r := ResolveNetwork(s, query), Remove(s, query, env).1;
            if found.Err? then r == Err(NoSuchNetwork)
            else if found.value.VirtualNetwork? || found.value.name == "bridge" then r == Err(Predefined)
            else if exists k <- s.endpoints :: s.endpoints[k].networkID == found.value.id then r == Err(HasContainers)
            else r == if env.deleteOk then Ok(()) else Err(DeleteFailed)
  {
    var found := ResolveNetwork(s, query);
    if found.Ok? && found.value.BridgeNetwork? {
      ResolvedIsStored(s, query);
      var nid := found.value.id;
      if !HasEndpoints(s, nid) {
        NoEndpointsListed(s, nid);
      } else {
        var k :| k in s.endpoints && nid + "/" <= k;
        assert Placed(s, k);
        PrefixNamesNetwork(nid, s.endpoints[k].networkID, s.endpoints[k].containerID);
      }
    }
  }

  /** Removing a network keeps the state coherent whichever of its clean-up calls succeed. */
  lemma RemoveKeepsCoherent(s: NetState, query: string, env: RemoveEnv)
    requires Coherent(s)
    ensures Coherent(Remove(s, query, env).0)
  {
    RemoveShape(s, query, env);
    var (t, r) := Remove(s, query, env);
    if r.Ok? || r.error.DeleteFailed? {
      var n := ResolveNetwork(s, query).value;
      var u := s.(masq := t.masq);
      OnlyMasqueradeDiffers(s, u);
      if r.Ok? {
        RemovedNetworkKeepsCoherent(u, t, n);
      }
    }
  }

  // ----- Runs

  /** What the callers of each operation see to. */
  ghost predicate Guard(s: NetState, op: Op) {
    match op
    case OpCreate(a) => CreateGuard(s, a)
    case OpRemove(_, _) => true
    case OpConnect(a) => ConnectGuard(s, a)
    case OpDisconnect(nid, cid, _, env) => Harmless(s, nid, cid, env)
    case OpDisconnectAll(nids, cid, env) => HarmlessEach(s, nids, cid, env)
  }

  ghost predicate Guarded(s: NetState, ops: seq<Op>)
    decreases |ops|
  {
    ops == [] || (Guard(s, ops[0]) && Guarded(Step(s, ops[0]), ops[1..]))
  }

  ghost function Run(s: NetState, ops: seq<Op>): NetState
    decreases |ops|
  {
    if ops == [] then s else Run(Step(s, ops[0]), ops[1..])
  }

  predicate NetworksUnchanged(s: NetState, t: NetState) {
    t.networks == s.networks && t.names == s.names && t.masq == s.masq
  }

  lemma PublishedFrame(s: NetState, n: Network, a: ConnectArgs, o: nat, ip: Addr)
    requires n.BridgeNetwork?
    ensures NetworksUnchanged(s, Published(s, n, a, o, ip).0)
  {
  }

  lemma ConnectBridgeFrame(s: NetState, n: Network, a: ConnectArgs)
    requires n.BridgeNetwork?
    ensures NetworksUnchanged(s, ConnectBridge(s, n, a).0)
  {
    var free := Ipam.LowestFree(AllocOf(s, n.subnet), 2, SubnetSize(n.subnet));
    if free.Some? {
      PublishedFrame(s, n, a, free.value, OffsetToIP(n.subnet, free.value));
    }
  }

  lemma ConnectFrame(s: NetState, a: ConnectArgs)
    ensures NetworksUnchanged(s, Connect(s, a).0)
  {
    var found := ResolveNetwork(s, a.networkID);
    if found.Ok? && found.value.BridgeNetwork? {
      ConnectBridgeFrame(s, found.value, a);
    }
  }

  lemma StepKeepsCoherent(s: NetState, op: Op)
    requires Coherent(s) && Guard(s, op)
    ensures Coherent(Step(s, op))
  {
    match op
    case OpCreate(a) => CreateKeepsCoherent(s, a);
    case OpRemove(query, env) => RemoveKeepsCoherent(s, query, env);
    case OpConnect(a) => ConnectKeepsCoherent(s, a);
    case OpDisconnect(nid, cid, force, env) => DisconnectKeepsCoherentExactly(s, nid, cid, force, env);
    case OpDisconnectAll(nids, cid, env) => DisconnectEachKeepsCoherentExactly(s, nids, cid, env);
  }

  /** The same call, whichever step of a create, a connect or a removal fails. */
  ghost predicate SameCall(op: Op, other: Op) {
    match op
    case OpCreate(a) => other.OpCreate? && other.create == a.(fault := other.create.fault)
    case OpConnect(a) => other.OpConnect? && other.connect == a.(fault := other.connect.fault)
    case OpRemove(query, _) => other.OpRemove? && other.query == query
    case _ => other == op
  }

  /** A call on a coherent state keeps it coherent exactly under its guard: whichever step of a create, a
      connect or a removal fails, and for the given failures of a disconnect. */
  lemma GuardExactly(s: NetState, op: Op)
    requires Coherent(s)
    ensures (forall other: Op :: SameCall(op, other) ==> Coherent(Step(s, other))) <==> Guard(s, op)
  {
    if Guard(s, op) {
      forall other: Op | SameCall(op, other) ensures Coherent(Step(s, other)) {
        StepKeepsCoherent(s, other);
      }
    } else {
      match op
      case OpCreate(a) =>
        CreateGuardExactly(s, a);
        var f: CreateFault :| !Coherent(Create(s, a.(fault := f)).0);
        assert SameCall(op, OpCreate(a.(fault := f)));
      case OpConnect(a) =>
        ConnectGuardExactly(s, a);
        var f: Fault :| !Coherent(Connect(s, a.(fault := f)).0);
        assert SameCall(op, OpConnect(a.(fault := f)));
      case OpDisconnect(nid, cid, force, env) =>
        DisconnectKeepsCoherentExactly(s, nid, cid, force, env);
        assert SameCall(op, op);
      case OpDisconnectAll(nids, cid, env) =>
        DisconnectEachKeepsCoherentExactly(s, nids, cid, env);
        assert SameCall(op, op);
    }
  }

  /** Over every guarded run: allocated offsets, NAT rules and DNS records are exactly those of the
      endpoints, no two endpoints share an address, and all live subnets are apart. */
  lemma {:induction false} RunKeepsCoherent(s: NetState, ops: seq<Op>)
    requires Coherent(s) && Guarded(s, ops)
    ensures Coherent(Run(s, ops))
    decreases |ops|
  {
    if ops != [] {
      StepKeepsCoherent(s, ops[0]);
      RunKeepsCoherent(Step(s, ops[0]), ops[1..]);
    }
  }

  lemma IndexedThree(i: string, j: string, k: string, x: string, y: string, z: string)
    requires i != j && j != k && i != k && x != y && y != z && x != z
    ensures Indexed(map[i := x, j := y, k := z], map[x := i, y := j, z := k])
  {
  }

  lemma InitialIndexed(b: string, h: string, n: string)
    requires NoSlash(b) && NoSlash(h) && NoSlash(n) && b != h && h != n && b != n
    ensures NetworksIndexed(Initial(b, h, n))
  {
    var s := Initial(b, h, n);
    var x, y, z := DEFAULT_NAME, "host", "none";
    assert x[0] == 'b' && y[0] == 'h' && z[0] == 'n';
    assert NamesOf(s.networks) == map[b := x, h := y, n := z];
    IndexedThree(b, h, n, x, y, z);
  }

  lemma InitialCoherent(b: string, h: string, n: string)
    requires NoSlash(b) && NoSlash(h) && NoSlash(n) && b != h && h != n && b != n
    ensures Coherent(Initial(b, h, n))
  {
    var s := Initial(b, h, n);
    InitialIndexed(b, h, n);
    DefaultCovered();
    OneBridgeApart(s, b);
    NoEndpointsCoherent(s);
  }

  lemma DefaultCovered()
    ensures BitmapCovers(SubnetPool.DEFAULT_SUBNET)
  {
    assert Canonical(SubnetPool.DEFAULT_SUBNET) by {
      SubnetPool.DefaultOutsidePool(0);
    }
    CanonicalCovered(SubnetPool.DEFAULT_SUBNET);
  }

  lemma CanonicalCovered(p: Prefix)
    requires Canonical(p) && p.bits >= 12
    ensures BitmapCovers(p)
  {
    BitmapCoversExactly(p);
  }

  lemma OneBridgeApart(s: NetState, nid: string)
    requires IsBridge(s, nid) && BitmapCovers(s.networks[nid].subnet) && forall id :: IsBridge(s, id) ==> id == nid
    ensures SubnetsApart(s)
  {
  }

  /** Without endpoints, allocations, rules and records the rest is exact. */
  lemma NoEndpointsCoherent(s: NetState)
    requires NetworksIndexed(s) && SubnetsApart(s)
    requires s.endpoints == map[] && s.alloc == map[] && s.portKeys == {} && s.records == map[]
    ensures Coherent(s)
  {
    assert forall i, x: nat :: !Taken(s, i, x);
  }

  /** The first container on the default network: it is connected, at the address past the gateway's,
      and the state stays coherent. */
  lemma FirstConnect(b: string, h: string, n: string, a: ConnectArgs)
    requires NoSlash(b) && NoSlash(h) && NoSlash(n) && b != h && h != n && b != n
    requires a.networkID == b && NoSlash(a.containerID) && a.fault == NoFault
    ensures var s := Initial(b, h, n);
            && Connects(s, a, s.networks[b]) && FreshOn(s, a, s.networks[b])
            && Connect(s, a).1.value.ip == Addr(172, 20, 0, 2)
            && Coherent(Connect(s, a).0)
  {
    var s := Initial(b, h, n);
    var net := s.networks[b];
    assert Connects(s, a, net) && Connect(s, a).1.value.ip == Addr(172, 20, 0, 2) by {
      FirstAddress();
      Committed(s, net, a);
      assert Connect(s, a) == ConnectBridge(s, net, a);
    }
    assert FreshOn(s, a, net);
    assert Coherent(Connect(s, a).0) by {
      InitialCoherent(b, h, n);
      ConnectKeepsCoherentExactly(s, a, net);
    }
  }

  lemma FirstAddress()
    ensures Ipam.LowestFree({}, 2, SubnetSize(SubnetPool.DEFAULT_SUBNET)) == Some(2)
    ensures OffsetToIP(SubnetPool.DEFAULT_SUBNET, 2) == Addr(172, 20, 0, 2)
  {
    SubnetSizeBound(SubnetPool.DEFAULT_SUBNET);
    UnpackPack(Addr(172, 20, 0, 2));
  }

  // ----- The predefined networks

  predicate Permanent(n: Network) {
    n.VirtualNetwork? || n.name == DEFAULT_NAME
  }

  lemma RemoveSparesPermanent(s: NetState, query: string, env: RemoveEnv, id: string)
    requires NetworksIndexed(s) && id in s.networks && Permanent(s.networks[id])
    ensures var t := Remove(s, query, env).0;
            id in t.networks && t.networks[id] == s.networks[id]
  {
    if ResolveNetwork(s, query).Ok? {
      ResolvedIsStored(s, query);
    }
  }

  lemma CreateSparesOthers(s: NetState, a: CreateArgs, id: string)
    requires CreateGuard(s, a) && id in s.networks
    ensures id in Create(s, a).0.networks && Create(s, a).0.networks[id] == s.networks[id]
  {
    CreateShape(s, a);
    if Create(s, a).1.Ok? {
      var p := ChosenSubnet(s, a).value;
      CreateOnShape(s, a, p, ChosenGateway(a, p));
      assert Creatable(s, a);
    }
  }

  lemma PermanentStays(s: NetState, op: Op, id: string)
    requires Coherent(s) && Guard(s, op) && id in s.networks && Permanent(s.networks[id])
    ensures id in Step(s, op).networks && Step(s, op).networks[id] == s.networks[id]
  {
    match op
    case OpCreate(a) => CreateSparesOthers(s, a, id);
    case OpRemove(query, env) => RemoveSparesPermanent(s, query, env, id);
    case OpConnect(a) => ConnectFrame(s, a);
    case OpDisconnect(_, _, _, _) =>
    case OpDisconnectAll(nids, cid, env) => DisconnectEachRemoves(s, nids, cid, env, "");
  }

  lemma {:induction false} RunKeepsPermanent(s: NetState, ops: seq<Op>, id: string)
    requires Coherent(s) && Guarded(s, ops) && id in s.networks && Permanent(s.networks[id])
    ensures id in Run(s, ops).networks && Run(s, ops).networks[id] == s.networks[id]
    decreases |ops|
  {
    if ops != [] {
      StepKeepsCoherent(s, ops[0]);
      PermanentStays(s, ops[0], id);
      RunKeepsPermanent(Step(s, ops[0]), ops[1..], id);
    }
  }

  lemma FoundByOwnName(s: NetState, id: string)
    requires NetworksIndexed(s) && id in s.networks
    ensures ResolveNetwork(s, s.networks[id].name).Ok?
  {
    var name := s.networks[id].name;
    assert NamesOf(s.networks)[id] == name && s.names[name] == id;
    assert FirstNamed(s.networks, s.names, [name]) == Some(id);
  }

  /** After every guarded run from a first start the three predefined networks are found by their names, so
      that Init has none to create again. */
  lemma PredefinedStay(b: string, h: string, n: string, ops: seq<Op>, name: string)
    requires NoSlash(b) && NoSlash(h) && NoSlash(n) && b != h && h != n && b != n
    requires Guarded(Initial(b, h, n), ops) && name in {DEFAULT_NAME, "host", "none"}
    ensures ResolveNetwork(Run(Initial(b, h, n), ops), name).Ok?
  {
    var s := Initial(b, h, n);
    var id := if name == DEFAULT_NAME then b else if name == "host" then h else n;
    assert id in s.networks && s.networks[id].name == name && Permanent(s.networks[id]);
    InitialCoherent(b, h, n);
    RunKeepsCoherent(s, ops);
    RunKeepsPermanent(s, ops, id);
    FoundByOwnName(Run(s, ops), id);
  }

  /** Automatic assignment gives up exactly when all 27 pool subnets are in use. */
  lemma NoSubnetsExactly(s: NetState, a: CreateArgs)
    requires (a.driver == "" || a.driver == "bridge") && a.subnet.None?
    ensures Create(s, a).1 == Err(NoAvailableSubnets)
            <==> forall i :: 0 <= i < SubnetPool.POOL_SIZE ==> SubnetPool.PoolSubnet(i) in LiveSubnets(s)
  {
  }
}
