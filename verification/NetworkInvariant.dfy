/** Coherence of the allocator, the NAT rules, the DNS records and the endpoints, kept by every run
    of the network manager; and what the calls undo. */
module NetworkInvariant {
  import opened Wrappers
  import opened Addresses
  import Ipam
  import opened Lookup
  import opened NetworkSpec

  predicate NoSlash(id: string) {
    forall i :: 0 <= i < |id| ==> id[i] != '/'
  }

  predicate IsBridge(s: NetState, nid: string) {
    nid in s.networks && s.networks[nid].BridgeNetwork?
  }

  predicate UserDefined(s: NetState, nid: string) {
    IsBridge(s, nid) && s.networks[nid].name != DEFAULT_NAME
  }

  // ----- The invariant

  function NamesOf(networks: map<string, Network>): map<string, string> {
    map id <- networks :: networks[id].name
  }

  ghost predicate NetworksIndexed(s: NetState) {
    && Indexed(NamesOf(s.networks), s.names)
    && forall id :: id in s.networks ==> s.networks[id].id == id && NoSlash(id) && s.networks[id].name != ""
  }

  ghost predicate SubnetsApart(s: NetState) {
    && (forall id :: IsBridge(s, id) ==> BitmapCovers(s.networks[id].subnet))
    && (forall i, j :: IsBridge(s, i) && IsBridge(s, j) && i != j ==>
        Disjoint(s.networks[i].subnet, s.networks[j].subnet))
  }

  /** The endpoint stored under k belongs there and has an address of its network, at offset 2 or later. */
  ghost predicate Placed(s: NetState, k: string)
    requires k in s.endpoints
  {
    var ep := s.endpoints[k];
    && k == EndpointKey(ep.networkID, ep.containerID) && NoSlash(ep.containerID)
    && IsBridge(s, ep.networkID)
    && Contains(s.networks[ep.networkID].subnet, ep.ip)
    && 2 <= IPToOffset(s.networks[ep.networkID].subnet, ep.ip).value
  }

  ghost predicate EndpointsPlaced(s: NetState) {
    forall k :: k in s.endpoints ==> Placed(s, k)
  }

  ghost predicate AddressesUnique(s: NetState) {
    forall j, k :: j in s.endpoints && k in s.endpoints && j != k ==> s.endpoints[j].ip != s.endpoints[k].ip
  }

  /** Endpoint j of network i has the address at offset x. */
  ghost predicate TakenBy(s: NetState, i: string, x: nat, j: string) {
    && IsBridge(s, i)
    && j in s.endpoints && s.endpoints[j].networkID == i
    && IPToOffset(s.networks[i].subnet, s.endpoints[j].ip) == Some(x)
  }

  /** Some endpoint of the network has the address at this offset. */
  ghost predicate Taken(s: NetState, nid: string, o: nat) {
    exists k :: TakenBy(s, nid, o, k)
  }

  ghost predicate AllocationExact(s: NetState) {
    && (forall nid, o: nat :: IsBridge(s, nid) ==> (o in AllocOf(s, s.networks[nid].subnet) <==> Taken(s, nid, o)))
    && (forall p :: p in s.alloc ==> s.alloc[p] != {} && p in LiveSubnets(s))
  }

  /** Some endpoint generated the rule. */
  ghost predicate Wanted(s: NetState, pk: PortKey) {
    exists k :: k in s.endpoints && pk in KeysOf(s.endpoints[k].portMappings, s.endpoints[k].ip)
  }

  ghost predicate PortsExact(s: NetState) {
    forall pk :: pk in s.portKeys <==> Wanted(s, pk)
  }

  /** The endpoint k of a user-defined network carries this DNS name. */
  ghost predicate Carries(s: NetState, k: string, nid: string, name: string) {
    && k in s.endpoints
    && s.endpoints[k].networkID == nid
    && UserDefined(s, nid)
    && name in s.endpoints[k].dnsNames
  }

  ghost predicate DnsExact(s: NetState) {
    && (forall nid :: nid in s.records ==> s.records[nid] != map[])
    && (forall nid, name :: Recorded(s.records, nid, name) ==> exists k :: Carries(s, k, nid, name))
    && (forall k, nid, name :: Carries(s, k, nid, name) ==>
        Recorded(s.records, nid, name) && s.records[nid][name] == s.endpoints[k].ip)
  }

  ghost predicate Coherent(s: NetState) {
    && NetworksIndexed(s)
    && SubnetsApart(s)
    && EndpointsPlaced(s)
    && AddressesUnique(s)
    && AllocationExact(s)
    && PortsExact(s)
    && DnsExact(s)
  }

  /** Masquerade rules cover the bridge networks that are not internal, and nothing else. */
  ghost predicate MasqueradeExact(s: NetState) {
    forall p :: p in s.masq <==> exists id :: IsBridge(s, id) && s.networks[id].subnet == p && !s.networks[id].internal
  }

  // ----- Keys and names

  /** The only separator of a composite key stands between its parts. */
  lemma Separator(n: string, c: string, i: nat)
    requires i < |EndpointKey(n, c)|
    ensures NoSlash(c) && |n| < i ==> EndpointKey(n, c)[i] != '/'
    ensures NoSlash(n) && i < |n| ==> EndpointKey(n, c)[i] != '/'
    ensures i == |n| ==> EndpointKey(n, c)[i] == '/'
  {
    if i < |n| {
      assert EndpointKey(n, c)[i] == n[i];
    } else if |n| < i {
      assert EndpointKey(n, c)[i] == c[i - |n| - 1];
    }
  }

  /** The composite key is read back unambiguously: the container ID has no separator in it. */
  lemma EndpointKeyInjective(n1: string, c1: string, n2: string, c2: string)
    requires NoSlash(c1) && NoSlash(c2)
    requires EndpointKey(n1, c1) == EndpointKey(n2, c2)
    ensures n1 == n2 && c1 == c2
  {
    var k := EndpointKey(n1, c1);
    Separator(n1, c1, |n1|);
    Separator(n1, c1, |n2|);
    Separator(n2, c2, |n1|);
    Separator(n2, c2, |n2|);
    assert n1 == k[..|n1|] && c1 == k[|n1| + 1..];
    assert n2 == k[..|n2|] && c2 == k[|n2| + 1..];
  }

  /** Listing by the prefix "{networkID}/" finds the endpoints of that network only. */
  lemma PrefixNamesNetwork(nid: string, n: string, c: string)
    requires NoSlash(nid) && NoSlash(n)
    ensures nid + "/" <= EndpointKey(n, c) <==> nid == n
  {
    var k := EndpointKey(n, c);
    if nid + "/" <= k {
      assert nid == k[..|nid|] && n == k[..|n|];
      assert forall i :: 0 <= i < |nid| ==> k[i] == nid[i];
      Separator(n, c, |n|);
      Separator(n, c, |nid|);
    }
    if nid == n {
      assert k == nid + "/" + c;
    }
  }

  /** Two mappings share a rule only when they are the same mapping for the same address: host address,
      host port, container port and protocol all count. */
  lemma KeyOfInjective(a: PortMapping, ip: Addr, b: PortMapping, jp: Addr)
    ensures KeyOf(a, ip) == KeyOf(b, jp) <==> a == b && ip == jp
  {
  }

  lemma {:induction false} KeysOfSet(pms: set<PortMapping>, ip: Addr)
    ensures |(set pm <- pms :: KeyOf(pm, ip))| == |pms|
  {
    if pm :| pm in pms {
      var others := pms - {pm};
      var keys := set other <- others :: KeyOf(other, ip);
      KeysOfSet(others, ip);
      assert (set other <- pms :: KeyOf(other, ip)) == keys + {KeyOf(pm, ip)};
      assert KeyOf(pm, ip) !in keys;
    }
  }

  /** One rule for each distinct mapping. */
  lemma KeysCounted(pms: seq<PortMapping>, ip: Addr)
    ensures |KeysOf(pms, ip)| == |(set pm <- pms)|
  {
    var distinct := set pm <- pms;
    KeysOfSet(distinct, ip);
    assert KeysOf(pms, ip) == set pm <- distinct :: KeyOf(pm, ip);
  }

  lemma KeyIn(pm: PortMapping, pms: seq<PortMapping>, ip: Addr)
    ensures KeyOf(pm, ip) in KeysOf(pms, ip) <==> pm in pms
  {
    forall other | other in pms && KeyOf(other, ip) == KeyOf(pm, ip) ensures other == pm {
      KeyOfInjective(other, ip, pm, ip);
    }
  }

  lemma ResolvedIsStored(s: NetState, query: string)
    requires NetworksIndexed(s) && ResolveNetwork(s, query).Ok?
    ensures var n := ResolveNetwork(s, query).value;
            n.id in s.networks && s.networks[n.id] == n
  {
  }

  /** Networks that share no address share no subnet. */
  lemma SubnetOwner(s: NetState, i: string, j: string)
    requires SubnetsApart(s) && IsBridge(s, i) && IsBridge(s, j)
    requires s.networks[i].subnet == s.networks[j].subnet
    ensures i == j
  {
    if i != j {
      var p := s.networks[i].subnet;
      ContainsRange(p, p.addr);
      assert Contains(p, p.addr);
    }
  }

  lemma AddressTaken(s: NetState, nid: string, ip: Addr, k: string)
    requires Coherent(s) && IsBridge(s, nid) && k in s.endpoints
    requires Contains(s.networks[nid].subnet, ip)
    ensures s.endpoints[k].ip == ip ==> Taken(s, nid, IPToOffset(s.networks[nid].subnet, ip).value)
  {
    assert Placed(s, k);
    if s.endpoints[k].ip == ip {
      assert TakenBy(s, s.endpoints[k].networkID, IPToOffset(s.networks[s.endpoints[k].networkID].subnet, ip).value, k);
      var owner := s.endpoints[k].networkID;
      assert owner == nid by {
        assert owner != nid ==> Disjoint(s.networks[owner].subnet, s.networks[nid].subnet);
      }
    }
  }

  /** The address at an offset no endpoint holds belongs to no endpoint at all. */
  lemma FreshAddress(s: NetState, nid: string, o: nat)
    requires Coherent(s) && IsBridge(s, nid)
    requires 2 <= o < SubnetSize(s.networks[nid].subnet)
    requires o !in AllocOf(s, s.networks[nid].subnet)
    ensures var ip := OffsetToIP(s.networks[nid].subnet, o);
            && Contains(s.networks[nid].subnet, ip) && IPToOffset(s.networks[nid].subnet, ip) == Some(o)
            && (forall k :: k in s.endpoints ==> s.endpoints[k].ip != ip)
            && (forall pk :: pk in s.portKeys ==> pk.containerIP != ip)
  {
    var p := s.networks[nid].subnet;
    BitmapCoversExactly(p);
    SubnetSizeBound(p);
    OffsetRoundTrip(p, o);
    var ip := OffsetToIP(p, o);
    forall k | k in s.endpoints
      ensures s.endpoints[k].ip != ip
    {
      AddressTaken(s, nid, ip, k);
    }
    forall pk | pk in s.portKeys
      ensures pk.containerIP != ip
    {
      assert Wanted(s, pk);
    }
  }

  // ----- Adding an endpoint

  function Added(s: NetState, k: string, ep: Endpoint, o: nat): NetState
    requires IsBridge(s, ep.networkID) && |ep.dnsNames| == 1
  {
    var n := s.networks[ep.networkID];
    s.(endpoints := s.endpoints[k := ep],
       alloc := SetAlloc(s.alloc, n.subnet, AllocOf(s, n.subnet) + {o}),
       portKeys := s.portKeys + KeysOf(ep.portMappings, ep.ip),
       records := if n.name == DEFAULT_NAME then s.records else Register(s.records, n.id, ep.dnsNames[0], ep.ip))
  }

  /** The endpoint's key is new, its address is the one at the free offset o. */
  ghost predicate Addable(s: NetState, k: string, ep: Endpoint, o: nat) {
    && Coherent(s)
    && IsBridge(s, ep.networkID) && |ep.dnsNames| == 1
    && k == EndpointKey(ep.networkID, ep.containerID) && NoSlash(ep.containerID) && k !in s.endpoints
    && 2 <= o < SubnetSize(s.networks[ep.networkID].subnet)
    && o !in AllocOf(s, s.networks[ep.networkID].subnet)
    && ep.ip == OffsetToIP(s.networks[ep.networkID].subnet, o)
  }

  lemma AddPlacement(s: NetState, k: string, ep: Endpoint, o: nat)
    requires Addable(s, k, ep, o)
    ensures var t := Added(s, k, ep, o);
            NetworksIndexed(t) && SubnetsApart(t) && EndpointsPlaced(t) && AddressesUnique(t)
  {
    var t := Added(s, k, ep, o);
    FreshAddress(s, ep.networkID, o);
    assert forall id :: IsBridge(t, id) <==> IsBridge(s, id);
    forall j | j in t.endpoints
      ensures Placed(t, j)
    {
      if j != k {
        assert Placed(s, j);
      }
    }
  }

  lemma AddTaken(s: NetState, t: NetState, k: string, ep: Endpoint, i: string, x: nat)
    requires k !in s.endpoints && t.networks == s.networks && t.endpoints == s.endpoints[k := ep]
    ensures Taken(t, i, x) <==> Taken(s, i, x) || TakenBy(t, i, x, k)
  {
    if Taken(s, i, x) {
      var j :| TakenBy(s, i, x, j);
      assert TakenBy(t, i, x, j);
    }
    if Taken(t, i, x) {
      var j :| TakenBy(t, i, x, j);
      if j != k {
        assert TakenBy(s, i, x, j);
      }
    }
  }

  lemma AddAllocation(s: NetState, t: NetState, k: string, ep: Endpoint, p: Prefix, o: nat)
    requires SubnetsApart(s) && AllocationExact(s)
    requires k !in s.endpoints && t.networks == s.networks && t.endpoints == s.endpoints[k := ep]
    requires t.alloc == SetAlloc(s.alloc, p, AllocOf(s, p) + {o})
    requires IsBridge(s, ep.networkID) && p == s.networks[ep.networkID].subnet
    requires IPToOffset(p, ep.ip) == Some(o)
    ensures AllocationExact(t)
  {
    forall i, x: nat | IsBridge(t, i)
      ensures x in AllocOf(t, t.networks[i].subnet) <==> Taken(t, i, x)
    {
      AddTaken(s, t, k, ep, i, x);
      SetAllocLookup(s, t, p, AllocOf(s, p) + {o}, s.networks[i].subnet);
      assert x in AllocOf(s, s.networks[i].subnet) <==> Taken(s, i, x);
      if s.networks[i].subnet == p {
        SubnetOwner(s, i, ep.networkID);
      }
    }
    assert LiveSubnets(t) == LiveSubnets(s);
    assert p in LiveSubnets(s);
  }

  lemma AddPorts(s: NetState, t: NetState, k: string, ep: Endpoint)
    requires PortsExact(s)
    requires k !in s.endpoints && t.endpoints == s.endpoints[k := ep]
    requires t.portKeys == s.portKeys + KeysOf(ep.portMappings, ep.ip)
    ensures PortsExact(t)
  {
    forall pk
      ensures pk in t.portKeys <==> Wanted(t, pk)
    {
      assert t.endpoints[k] == ep;
      if Wanted(s, pk) {
        var j :| j in s.endpoints && pk in KeysOf(s.endpoints[j].portMappings, s.endpoints[j].ip);
        assert t.endpoints[j] == s.endpoints[j];
      }
      if Wanted(t, pk) {
        var j :| j in t.endpoints && pk in KeysOf(t.endpoints[j].portMappings, t.endpoints[j].ip);
        assert j != k ==> t.endpoints[j] == s.endpoints[j];
      }
    }
  }

  lemma AddDns(s: NetState, t: NetState, k: string, ep: Endpoint, name: string)
    requires DnsExact(s)
    requires k !in s.endpoints && t.networks == s.networks && t.endpoints == s.endpoints[k := ep]
    requires IsBridge(s, ep.networkID) && ep.dnsNames == [name]
    requires t.records == if UserDefined(s, ep.networkID) then Register(s.records, ep.networkID, name, ep.ip)
                          else s.records
    requires UserDefined(s, ep.networkID) ==> !Recorded(s.records, ep.networkID, name)
    ensures DnsExact(t)
  {
    var nid := ep.networkID;
    forall i | i in t.records
      ensures t.records[i] != map[]
    {
      if i == nid && UserDefined(s, nid) {
        assert name in t.records[i];
      }
    }
    forall i, x | Recorded(t.records, i, x)
      ensures exists j :: Carries(t, j, i, x)
    {
      if Recorded(s.records, i, x) {
        var j :| Carries(s, j, i, x);
        assert Carries(t, j, i, x);
      } else {
        assert Carries(t, k, i, x);
      }
    }
    forall j, i, x | Carries(t, j, i, x)
      ensures Recorded(t.records, i, x) && t.records[i][x] == t.endpoints[j].ip
    {
      if j != k {
        assert Carries(s, j, i, x);
      }
    }
  }

  lemma AddKeepsCoherent(s: NetState, k: string, ep: Endpoint, o: nat)
    requires Addable(s, k, ep, o)
    requires UserDefined(s, ep.networkID) ==> !Recorded(s.records, ep.networkID, ep.dnsNames[0])
    ensures Coherent(Added(s, k, ep, o))
  {
    var t := Added(s, k, ep, o);
    FreshAddress(s, ep.networkID, o);
    AddPlacement(s, k, ep, o);
    AddAllocation(s, t, k, ep, s.networks[ep.networkID].subnet, o);
    AddPorts(s, t, k, ep);
    AddDns(s, t, k, ep, ep.dnsNames[0]);
  }

  // ----- Dropping an endpoint

  /** An offset of a network has at most one holder. */
  lemma TakenOnce(s: NetState, i: string, x: nat, j: string, k: string)
    requires SubnetsApart(s) && AddressesUnique(s)
    requires TakenBy(s, i, x, j) && TakenBy(s, i, x, k)
    ensures j == k
  {
    var p := s.networks[i].subnet;
    BitmapCoversExactly(p);
    AddressRoundTrip(p, s.endpoints[j].ip);
    AddressRoundTrip(p, s.endpoints[k].ip);
  }

  lemma DropTaken(s: NetState, t: NetState, k: string, i: string, x: nat)
    requires SubnetsApart(s) && AddressesUnique(s)
    requires k in s.endpoints && t.networks == s.networks && t.endpoints == s.endpoints - {k}
    ensures Taken(t, i, x) <==> Taken(s, i, x) && !TakenBy(s, i, x, k)
  {
    if Taken(t, i, x) {
      var j :| TakenBy(t, i, x, j);
      assert TakenBy(s, i, x, j);
      if TakenBy(s, i, x, k) {
        TakenOnce(s, i, x, j, k);
      }
    }
    if Taken(s, i, x) && !TakenBy(s, i, x, k) {
      var j :| TakenBy(s, i, x, j);
      assert TakenBy(t, i, x, j);
    }
  }

  lemma SetAllocLookup(s: NetState, t: NetState, p: Prefix, offsets: set<nat>, q: Prefix)
    requires t.alloc == SetAlloc(s.alloc, p, offsets)
    ensures AllocOf(t, q) == if q == p then offsets else AllocOf(s, q)
  {
  }

  lemma DropAllocation(s: NetState, t: NetState, k: string)
    requires SubnetsApart(s) && AddressesUnique(s) && AllocationExact(s)
    requires k in s.endpoints && t.networks == s.networks && t.endpoints == s.endpoints - {k}
    requires IsBridge(s, s.endpoints[k].networkID)
    requires var p := s.networks[s.endpoints[k].networkID].subnet;
             && Contains(p, s.endpoints[k].ip)
             && t.alloc == ReleaseIn(s.alloc, p, s.endpoints[k].ip)
    ensures AllocationExact(t)
  {
    var nid := s.endpoints[k].networkID;
    var p := s.networks[nid].subnet;
    var o := IPToOffset(p, s.endpoints[k].ip).value;
    forall i, x: nat | IsBridge(t, i)
      ensures x in AllocOf(t, t.networks[i].subnet) <==> Taken(t, i, x)
    {
      DropTaken(s, t, k, i, x);
      SetAllocLookup(s, t, p, AllocOf(s, p) - {o}, s.networks[i].subnet);
      assert x in AllocOf(s, s.networks[i].subnet) <==> Taken(s, i, x);
      if s.networks[i].subnet == p {
        SubnetOwner(s, i, nid);
      }
    }
    assert LiveSubnets(t) == LiveSubnets(s);
  }

  lemma DropPorts(s: NetState, t: NetState, k: string)
    requires AddressesUnique(s) && PortsExact(s)
    requires k in s.endpoints && t.endpoints == s.endpoints - {k}
    requires t.portKeys == s.portKeys - KeysOf(s.endpoints[k].portMappings, s.endpoints[k].ip)
    ensures PortsExact(t)
  {
    forall pk
      ensures pk in t.portKeys <==> Wanted(t, pk)
    {
      if Wanted(t, pk) {
        var j :| j in t.endpoints && pk in KeysOf(t.endpoints[j].portMappings, t.endpoints[j].ip);
        assert j in s.endpoints && s.endpoints[j] == t.endpoints[j];
        assert pk.containerIP == s.endpoints[j].ip != s.endpoints[k].ip;
      }
      if pk in t.portKeys {
        var j :| j in s.endpoints && pk in KeysOf(s.endpoints[j].portMappings, s.endpoints[j].ip);
        assert t.endpoints[j] == s.endpoints[j];
      }
    }
  }

  ghost predicate NoEmptyRecords(r: DnsRecords) {
    forall nid :: nid in r ==> r[nid] != map[]
  }

  /** What deregistering did to one entry. */
  ghost predicate EntryKept(r: DnsRecords, d: DnsRecords, nid: string, names: seq<string>, i: string, x: string) {
    && (Recorded(d, i, x) <==> Recorded(r, i, x) && !(i == nid && x in names))
    && (Recorded(d, i, x) ==> d[i][x] == r[i][x])
  }

  /** Deregistering removes the names it lists and nothing else. */
  lemma {:induction false} DeregisterEachRemoves(r: DnsRecords, nid: string, names: seq<string>)
    requires NoEmptyRecords(r)
    ensures var d := DeregisterEach(r, nid, names);
            && NoEmptyRecords(d)
            && (forall i, x :: EntryKept(r, d, nid, names, i, x))
    decreases |names|
  {
    if names != [] {
      var e := Deregister(r, nid, names[0]);
      if nid in r {
        assert forall x :: x in r[nid] - {names[0]} <==> x in r[nid] && x != names[0];
      }
      assert forall i, x :: EntryKept(r, e, nid, [names[0]], i, x);
      DeregisterEachRemoves(e, nid, names[1..]);
      assert names == [names[0]] + names[1..];
      var d := DeregisterEach(r, nid, names);
      forall i, x
        ensures EntryKept(r, d, nid, names, i, x)
      {
        assert EntryKept(r, e, nid, [names[0]], i, x);
        assert EntryKept(e, d, nid, names[1..], i, x);
      }
    }
  }

  /** Two endpoints of a user-defined network do not share a DNS name. */
  lemma NameCarriedOnce(s: NetState, j: string, k: string, nid: string, name: string)
    requires AddressesUnique(s) && DnsExact(s)
    requires Carries(s, j, nid, name) && Carries(s, k, nid, name)
    ensures j == k
  {
  }

  lemma DropDnsEntry(s: NetState, t: NetState, k: string, j: string, i: string, x: string)
    requires AddressesUnique(s) && DnsExact(s)
    requires k in s.endpoints && t.networks == s.networks && t.endpoints == s.endpoints - {k}
    requires EntryKept(s.records, t.records, s.endpoints[k].networkID, s.endpoints[k].dnsNames, i, x)
    ensures Recorded(t.records, i, x) ==> exists m :: Carries(t, m, i, x)
    ensures Carries(t, j, i, x) ==> Recorded(t.records, i, x) && t.records[i][x] == t.endpoints[j].ip
  {
    if Recorded(t.records, i, x) {
      var m :| Carries(s, m, i, x);
      assert Carries(t, m, i, x);
    }
    if Carries(t, j, i, x) {
      assert Carries(s, j, i, x);
      if Carries(s, k, i, x) {
        NameCarriedOnce(s, j, k, i, x);
      }
    }
  }

  lemma DropDns(s: NetState, t: NetState, k: string)
    requires AddressesUnique(s) && DnsExact(s)
    requires k in s.endpoints && t.networks == s.networks && t.endpoints == s.endpoints - {k}
    requires t.records == DeregisterEach(s.records, s.endpoints[k].networkID, s.endpoints[k].dnsNames)
    ensures DnsExact(t)
  {
    DeregisterEachRemoves(s.records, s.endpoints[k].networkID, s.endpoints[k].dnsNames);
    forall i, x | Recorded(t.records, i, x)
      ensures exists m :: Carries(t, m, i, x)
    {
      assert EntryKept(s.records, t.records, s.endpoints[k].networkID, s.endpoints[k].dnsNames, i, x);
      DropDnsEntry(s, t, k, k, i, x);
    }
    forall j, i, x | Carries(t, j, i, x)
      ensures Recorded(t.records, i, x) && t.records[i][x] == t.endpoints[j].ip
    {
      assert EntryKept(s.records, t.records, s.endpoints[k].networkID, s.endpoints[k].dnsNames, i, x);
      DropDnsEntry(s, t, k, j, i, x);
    }
  }

  /** The key of an endpoint splits only at its network: whatever query finds it names that network. */
  lemma FoundUnderItsNetwork(s: NetState, nid: string, cid: string)
    requires NetworksIndexed(s) && EndpointsPlaced(s)
    requires EndpointKey(nid, cid) in s.endpoints
    ensures s.endpoints[EndpointKey(nid, cid)].networkID == nid && s.endpoints[EndpointKey(nid, cid)].containerID == cid
    ensures ResolveNetwork(s, nid) == Ok(s.networks[nid])
  {
    var k := EndpointKey(nid, cid);
    assert Placed(s, k);
    var ep := s.endpoints[k];
    Separator(nid, cid, |nid|);
    Separator(ep.networkID, ep.containerID, |nid|);
    assert ep.networkID == k[..|nid|] == nid;
    assert ep.containerID == k[|nid| + 1..] == cid;
  }

  lemma DropPlacement(s: NetState, t: NetState, k: string)
    requires EndpointsPlaced(s) && AddressesUnique(s)
    requires t.networks == s.networks && t.endpoints == s.endpoints - {k}
    ensures EndpointsPlaced(t) && AddressesUnique(t)
  {
    forall j | j in t.endpoints
      ensures Placed(t, j)
    {
      assert Placed(s, j);
    }
  }

  lemma SameNetworks(s: NetState, t: NetState)
    requires NetworksIndexed(s) && SubnetsApart(s)
    requires t.networks == s.networks && t.names == s.names
    ensures NetworksIndexed(t) && SubnetsApart(t)
  {
    assert forall i :: IsBridge(t, i) <==> IsBridge(s, i);
  }

  /** Disconnecting, found or not, forced or not, keeps the state coherent. */
  lemma DisconnectKeepsCoherent(s: NetState, nid: string, cid: string, force: bool)
    requires Coherent(s)
    ensures Coherent(Disconnect(s, nid, cid, force).0)
  {
    var k := EndpointKey(nid, cid);
    if k in s.endpoints {
      var t := Disconnect(s, nid, cid, force).0;
      FoundUnderItsNetwork(s, nid, cid);
      assert Placed(s, k);
      DisconnectFound(s, nid, cid, force);
      SameNetworks(s, t);
      DropPlacement(s, t, k);
      DropAllocation(s, t, k);
      DropPorts(s, t, k);
      DropDns(s, t, k);
    }
  }

  /** Removing one endpoint's rules leaves every rule another endpoint wants. */
  lemma DisconnectSparesOthers(s: NetState, nid: string, cid: string, k: string, pk: PortKey)
    requires Coherent(s) && k in s.endpoints && k != EndpointKey(nid, cid)
    requires pk in KeysOf(s.endpoints[k].portMappings, s.endpoints[k].ip)
    ensures pk in Disconnect(s, nid, cid, true).0.portKeys
  {
    assert Wanted(s, pk);
  }

  // ----- Connect

  /** Connect reached the bridge network n and committed. */
  ghost predicate Connects(s: NetState, a: ConnectArgs, n: Network) {
    && ResolveNetwork(s, a.networkID) == Ok(n)
    && n.BridgeNetwork?
    && Connect(s, a).1.Ok?
  }

  ghost function ConnectOffset(s: NetState, n: Network): nat
    requires n.BridgeNetwork? && Ipam.LowestFree(AllocOf(s, n.subnet), 2, SubnetSize(n.subnet)).Some?
  {
    Ipam.LowestFree(AllocOf(s, n.subnet), 2, SubnetSize(n.subnet)).value
  }

  lemma ConnectsAdds(s: NetState, a: ConnectArgs, n: Network)
    requires NetworksIndexed(s) && Connects(s, a, n)
    ensures Ipam.LowestFree(AllocOf(s, n.subnet), 2, SubnetSize(n.subnet)).Some?
    ensures var o := ConnectOffset(s, n);
            var ep := NewEndpoint(n, a, OffsetToIP(n.subnet, o));
            && IsBridge(s, n.id) && s.networks[n.id] == n
            && Connect(s, a) == (Added(s, EndpointKey(n.id, a.containerID), ep, o), Ok(ep))
  {
    ResolvedIsStored(s, a.networkID);
    var o := ConnectOffset(s, n);
    var ip := OffsetToIP(n.subnet, o);
    assert Connect(s, a) == ConnectBridge(s, n, a) == Published(s, n, a, o, ip);
    assert Published(s, n, a, o, ip) == Finished(s, n, a, o, ip);
  }

  /** What a Connect that commits has added to the rules: one for each distinct mapping it publishes. */
  lemma ConnectPublishes(s: NetState, a: ConnectArgs, n: Network)
    requires Coherent(s) && Connects(s, a, n)
    ensures |Connect(s, a).0.portKeys| == |s.portKeys| + |(set pm <- a.portMappings)|
  {
    ConnectsAdds(s, a, n);
    FreshAddress(s, n.id, ConnectOffset(s, n));
    var keys := KeysOf(a.portMappings, OffsetToIP(n.subnet, ConnectOffset(s, n)));
    assert Connect(s, a).0.portKeys == s.portKeys + keys && s.portKeys !! keys;
    KeysCounted(a.portMappings, OffsetToIP(n.subnet, ConnectOffset(s, n)));
  }

  /** The offset is free and all below it, from 2 on, are taken. */
  predicate FirstFreeOffset(taken: set<nat>, p: Prefix, o: nat) {
    2 <= o < SubnetSize(p) && o !in taken && forall j :: 2 <= j < o ==> j in taken
  }

  /** What it has stored, under the key of network and container: the arguments of the call, the lowest free
      address, and as the only DNS name the container's without its slash. */
  lemma ConnectStores(s: NetState, a: ConnectArgs, n: Network)
    requires NetworksIndexed(s) && Connects(s, a, n)
    ensures var ep := Connect(s, a).1.value;
            && Connect(s, a).0.endpoints == s.endpoints[n.id + "/" + a.containerID := ep]
            && ep.networkID == n.id && ep.containerID == a.containerID && ep.containerName == a.containerName
            && ep.mac == a.mac && ep.vethHost == a.vethHost && ep.portMappings == a.portMappings
            && |ep.dnsNames| == 1
            && a.containerName == (if "/" <= a.containerName then "/" else "") + ep.dnsNames[0]
            && exists o :: FirstFreeOffset(AllocOf(s, n.subnet), n.subnet, o) && ep.ip == OffsetToIP(n.subnet, o)
  {
    ConnectsAdds(s, a, n);
    assert FirstFreeOffset(AllocOf(s, n.subnet), n.subnet, ConnectOffset(s, n));
    if "/" <= a.containerName {
      assert a.containerName == "/" + a.containerName[1..];
    }
  }

  /** On a network without a bridge there is nothing to do, whatever would fail: no address, no rule, no name. */
  lemma ConnectVirtual(s: NetState, a: ConnectArgs)
    requires ResolveNetwork(s, a.networkID).Ok? && ResolveNetwork(s, a.networkID).value.VirtualNetwork?
    ensures Connect(s, a).0 == s && Connect(s, a).1.Ok?
    ensures var ep := Connect(s, a).1.value;
            && ep.networkID == ResolveNetwork(s, a.networkID).value.id
            && ep.containerID == a.containerID && ep.containerName == a.containerName
            && ep.portMappings == [] && ep.dnsNames == [] && ep.mac == ep.vethHost == ""
  {
  }

  /** Whether the call that fails is made: a port mapping given before is accepted without a call. */
  predicate Hits(fault: Fault, pms: seq<PortMapping>) {
    match fault
    case NoFault => false
    case AtPort(i) => i < |pms| && pms[i] !in pms[..i]
    case _ => true
  }

  /** What the caller is told when that call fails. */
  function ErrorOf(fault: Fault): ConnectError
    requires !fault.NoFault?
  {
    match fault
    case AtLoad => AllocateFailed(Ipam.LoadFailed)
    case AtPut => AllocateFailed(Ipam.PersistFailed)
    case AtVeth => VethFailed
    case AtPort(i) => PortFailed(i)
    case AtPersist => PersistFailed
  }

  lemma BridgeConnectReports(s: NetState, n: Network, a: ConnectArgs, o: nat, ip: Addr)
    requires n.BridgeNetwork? && forall pk <- s.portKeys :: pk.containerIP != ip
    requires Ipam.LowestFree(AllocOf(s, n.subnet), 2, SubnetSize(n.subnet)) == Some(o)
    requires ip == OffsetToIP(n.subnet, o)
    ensures var r := ConnectBridge(s, n, a).1;
            if Hits(a.fault, a.portMappings) then r == Err(ErrorOf(a.fault)) else r.Ok?
  {
    if a.fault.AtPort? && a.fault.i < |a.portMappings| {
      KeyIn(a.portMappings[a.fault.i], a.portMappings[..a.fault.i], ip);
    }
  }

  /** Connect succeeds exactly when the network exists and, for a bridge, an address is free and no call
      fails; and it reports the first of these that does not hold. */
  lemma ConnectSucceedsExactly(s: NetState, a: ConnectArgs)
    requires Coherent(s)
    ensures var r := Connect(s, a).1;
            match ResolveNetwork(s, a.networkID)
            case Err(_) => r == Err(NetworkNotFound)
            case Ok(VirtualNetwork(_, _)) => r.Ok?
            case Ok(n) =>
              if a.fault.AtLoad? then r == Err(ErrorOf(AtLoad))
              else if forall o :: 2 <= o < SubnetSize(n.subnet) ==> o in AllocOf(s, n.subnet) then
                r == Err(AllocateFailed(Ipam.NoAvailableIP))
              else if Hits(a.fault, a.portMappings) then r == Err(ErrorOf(a.fault))
              else r.Ok?
  {
    if Allocates(s, a) {
      var n := ResolveNetwork(s, a.networkID).value;
      ResolvedIsStored(s, a.networkID);
      var o := ConnectOffset(s, n);
      FreshAddress(s, n.id, o);
      BridgeConnectReports(s, n, a, o, OffsetToIP(n.subnet, o));
      assert 2 <= o < SubnetSize(n.subnet) && o !in AllocOf(s, n.subnet);
    }
  }

  /** A container that is not on the network yet, under a name the network does not know yet. */
  ghost predicate FreshOn(s: NetState, a: ConnectArgs, n: Network) {
    && EndpointKey(n.id, a.containerID) !in s.endpoints
    && NoSlash(a.containerID)
    && (n.name != DEFAULT_NAME ==> !Recorded(s.records, n.id, TrimSlash(a.containerName)))
  }

  /** Overwriting an endpoint leaks its address: no endpoint holds the old offset any more. */
  lemma OverwriteLeaks(s: NetState, t: NetState, k: string, ep: Endpoint, nid: string, o: nat, held: nat)
    requires SubnetsApart(s) && AddressesUnique(s)
    requires TakenBy(s, nid, held, k) && held != o
    requires t.networks == s.networks && t.endpoints == s.endpoints[k := ep]
    requires IPToOffset(s.networks[nid].subnet, ep.ip) == Some(o)
    requires held in AllocOf(t, s.networks[nid].subnet)
    ensures !AllocationExact(t)
  {
    forall j
      ensures !TakenBy(t, nid, held, j)
    {
      if j != k && TakenBy(s, nid, held, j) {
        TakenOnce(s, nid, held, j, k);
      }
    }
    assert !Taken(t, nid, held);
    assert IsBridge(t, nid);
  }

  lemma ReconnectLeaks(s: NetState, a: ConnectArgs, n: Network)
    requires Coherent(s) && Connects(s, a, n)
    requires EndpointKey(n.id, a.containerID) in s.endpoints
    ensures !AllocationExact(Connect(s, a).0)
  {
    ConnectsAdds(s, a, n);
    var k, o := EndpointKey(n.id, a.containerID), ConnectOffset(s, n);
    FoundUnderItsNetwork(s, n.id, a.containerID);
    assert Placed(s, k);
    var held := IPToOffset(n.subnet, s.endpoints[k].ip).value;
    assert TakenBy(s, n.id, held, k);
    assert Taken(s, n.id, held);
    FreshAddress(s, n.id, o);
    OverwriteLeaks(s, Connect(s, a).0, k, NewEndpoint(n, a, OffsetToIP(n.subnet, o)), n.id, o, held);
  }

  /** Registering a known name hides the endpoint that had it. */
  lemma NameReuseHides(s: NetState, a: ConnectArgs, n: Network)
    requires Coherent(s) && Connects(s, a, n)
    requires EndpointKey(n.id, a.containerID) !in s.endpoints
    requires n.name != DEFAULT_NAME && Recorded(s.records, n.id, TrimSlash(a.containerName))
    ensures !DnsExact(Connect(s, a).0)
  {
    ConnectsAdds(s, a, n);
    var t, name := Connect(s, a).0, TrimSlash(a.containerName);
    FreshAddress(s, n.id, ConnectOffset(s, n));
    var j :| Carries(s, j, n.id, name);
    assert Carries(t, j, n.id, name) && t.endpoints[j] == s.endpoints[j];
    assert t.records[n.id][name] != t.endpoints[j].ip;
  }

  /** A successful Connect keeps the state coherent exactly when container and name are fresh. */
  lemma ConnectKeepsCoherentExactly(s: NetState, a: ConnectArgs, n: Network)
    requires Coherent(s) && Connects(s, a, n)
    ensures Coherent(Connect(s, a).0) <==> FreshOn(s, a, n)
  {
    ConnectsAdds(s, a, n);
    var o, k := ConnectOffset(s, n), EndpointKey(n.id, a.containerID);
    var ep := NewEndpoint(n, a, OffsetToIP(n.subnet, o));
    if FreshOn(s, a, n) {
      AddKeepsCoherent(s, k, ep, o);
    } else if k in s.endpoints {
      ReconnectLeaks(s, a, n);
    } else if !NoSlash(a.containerID) {
      assert Connect(s, a).0.endpoints[k] == ep;
      assert !Placed(Connect(s, a).0, k);
    } else {
      NameReuseHides(s, a, n);
    }
  }

  lemma KeysNameAddress(pms: seq<PortMapping>, ip: Addr, r: set<PortKey>)
    requires forall pk :: pk in r ==> pk.containerIP != ip
    ensures r - KeysOf(pms, ip) == r
    ensures r + KeysOf(pms, ip) - KeysOf(pms, ip) == r
  {
  }

  /** The step that registers a name and is then undone. */
  ghost predicate UndoesRegistration(s: NetState, a: ConnectArgs) {
    && Connect(s, a).1 == Err(PersistFailed)
    && ResolveNetwork(s, a.networkID).Ok?
    && ResolveNetwork(s, a.networkID).value.name != DEFAULT_NAME
  }

  lemma RegisterUndone(r: DnsRecords, nid: string, name: string, ip: Addr)
    requires NoEmptyRecords(r)
    ensures Deregister(Register(r, nid, name, ip), nid, name) == r <==> !Recorded(r, nid, name)
    ensures !Recorded(Deregister(Register(r, nid, name, ip), nid, name), nid, name)
  {
    var inner: map<string, Addr> := if nid in r then r[nid] else map[];
    if name !in inner {
      assert inner[name := ip] - {name} == inner;
    }
  }

  /** The call names a bridge network with a free address, so it gets past the allocation. */
  ghost predicate Allocates(s: NetState, a: ConnectArgs) {
    var r := ResolveNetwork(s, a.networkID);
    r.Ok? && r.value.BridgeNetwork? && Ipam.LowestFree(AllocOf(s, r.value.subnet), 2, SubnetSize(r.value.subnet)).Some?
  }

  /** Whatever has to be undone is: the address is released and no rule of the call is refused. */
  ghost predicate UndoHarmless(s: NetState, a: ConnectArgs) {
    Allocates(s, a) ==> a.undo.releaseOk && KeysOf(a.portMappings, AddressGiven(s, a)) !! a.undo.refused
  }

  ghost function AddressGiven(s: NetState, a: ConnectArgs): Addr
    requires Allocates(s, a)
  {
    var n := ResolveNetwork(s, a.networkID).value;
    OffsetToIP(n.subnet, ConnectOffset(s, n))
  }

  lemma KeysUndone(pms: seq<PortMapping>, ip: Addr, keys: set<PortKey>, undo: UndoEnv)
    requires forall pk <- keys :: pk.containerIP != ip
    requires KeysOf(pms, ip) !! undo.refused
    ensures KeysLeft(keys, KeysOf(pms, ip), undo) == keys
  {
  }

  lemma FailedBridgeConnect(s: NetState, n: Network, a: ConnectArgs, ip: Addr)
    requires n.BridgeNetwork? && NoEmptyRecords(s.records)
    requires ConnectBridge(s, n, a).1.Err?
    requires Ipam.LowestFree(AllocOf(s, n.subnet), 2, SubnetSize(n.subnet)).Some?
             ==> && ip == OffsetToIP(n.subnet, ConnectOffset(s, n)) && Contains(n.subnet, ip)
                 && a.undo.releaseOk && KeysOf(a.portMappings, ip) !! a.undo.refused
                 && forall pk :: pk in s.portKeys ==> pk.containerIP != ip
    ensures ConnectBridge(s, n, a).0 == s
            <==> !(ConnectBridge(s, n, a).1 == Err(PersistFailed) && n.name != DEFAULT_NAME
                   && Recorded(s.records, n.id, TrimSlash(a.containerName)))
  {
    if Ipam.LowestFree(AllocOf(s, n.subnet), 2, SubnetSize(n.subnet)).Some? {
      KeysUndone(a.portMappings, ip, s.portKeys, a.undo);
      if PortFault(s, a, ip) {
        assert KeysOf(a.portMappings[..a.fault.i], ip) <= KeysOf(a.portMappings, ip);
        KeysUndone(a.portMappings[..a.fault.i], ip, s.portKeys, a.undo);
      }
      RegisterUndone(s.records, n.id, TrimSlash(a.containerName), ip);
    }
  }

  /** Connect is all or nothing: whatever call fails, the clean-ups that succeed give back the state as it
      was, except exactly when the name about to be undone was already on record. */
  lemma FailedConnectRestores(s: NetState, a: ConnectArgs)
    requires Coherent(s) && UndoHarmless(s, a) && Connect(s, a).1.Err?
    ensures Connect(s, a).0 == s
            <==> !(UndoesRegistration(s, a)
                   && Recorded(s.records, ResolveNetwork(s, a.networkID).value.id, TrimSlash(a.containerName)))
  {
    if ResolveNetwork(s, a.networkID).Ok? {
      var n := ResolveNetwork(s, a.networkID).value;
      ResolvedIsStored(s, a.networkID);
      if n.BridgeNetwork? {
        var free := Ipam.LowestFree(AllocOf(s, n.subnet), 2, SubnetSize(n.subnet));
        var ip := OffsetToIP(n.subnet, if free.Some? then free.value else 0);
        if free.Some? {
          FreshAddress(s, n.id, free.value);
          assert Allocates(s, a) && AddressGiven(s, a) == ip;
        }
        FailedBridgeConnect(s, n, a, ip);
      }
    }
  }

  /** With a free address and no failing call, Connect commits. */
  lemma Committed(s: NetState, n: Network, a: ConnectArgs)
    requires n.BridgeNetwork? && a.fault == NoFault
    requires Ipam.LowestFree(AllocOf(s, n.subnet), 2, SubnetSize(n.subnet)).Some?
    ensures ConnectBridge(s, n, a).1 == Ok(NewEndpoint(n, a, OffsetToIP(n.subnet, ConnectOffset(s, n))))
  {
  }

  /** The name to be registered, if any is, is not on record. */
  ghost predicate NameUnregistered(s: NetState, a: ConnectArgs) {
    Allocates(s, a) ==>
      var n := ResolveNetwork(s, a.networkID).value;
      n.name == DEFAULT_NAME || !Recorded(s.records, n.id, TrimSlash(a.containerName))
  }

  lemma PersistFailure(s: NetState, a: ConnectArgs)
    requires Coherent(s) && UndoHarmless(s, a) && a.fault == AtPersist
    requires Allocates(s, a) && !NameUnregistered(s, a)
    ensures Connect(s, a).1.Err? && Connect(s, a).0 != s
  {
    var n := ResolveNetwork(s, a.networkID).value;
    var o := ConnectOffset(s, n);
    assert Connect(s, a) == ConnectBridge(s, n, a) == Published(s, n, a, o, OffsetToIP(n.subnet, o));
    assert Connect(s, a).1 == Err(PersistFailed);
    FailedConnectRestores(s, a);
  }

  /** An address that is not released, or a rule that stays, shows when a later step fails. */
  lemma UndoFailure(s: NetState, a: ConnectArgs) returns (f: Fault)
    requires Coherent(s) && !UndoHarmless(s, a)
    ensures Connect(s, a.(fault := f)).1.Err? && !Coherent(Connect(s, a.(fault := f)).0)
  {
    var n := ResolveNetwork(s, a.networkID).value;
    ResolvedIsStored(s, a.networkID);
    FreshAddress(s, n.id, ConnectOffset(s, n));
    if a.undo.releaseOk {
      f := AtPersist;
      RuleStays(s, a.(fault := f), n);
    } else {
      f := AtVeth;
      AddressStays(s, a.(fault := f), n);
    }
  }

  lemma RuleStays(s: NetState, b: ConnectArgs, n: Network)
    requires Coherent(s) && ResolveNetwork(s, b.networkID) == Ok(n) && Allocates(s, b) && b.fault == AtPersist
    requires !(KeysOf(b.portMappings, AddressGiven(s, b)) !! b.undo.refused)
    requires forall pk <- s.portKeys :: pk.containerIP != AddressGiven(s, b)
    ensures Connect(s, b).1.Err? && !Coherent(Connect(s, b).0)
  {
    var o, ip := ConnectOffset(s, n), AddressGiven(s, b);
    assert Connect(s, b) == ConnectBridge(s, n, b) == Finished(s, n, b, o, ip);
    var pk :| pk in KeysOf(b.portMappings, ip) && pk in b.undo.refused;
    StaleKey(s, Connect(s, b).0, pk, ip);
  }

  lemma AddressStays(s: NetState, b: ConnectArgs, n: Network)
    requires Coherent(s) && ResolveNetwork(s, b.networkID) == Ok(n) && Allocates(s, b) && b.fault == AtVeth
    requires IsBridge(s, n.id) && s.networks[n.id] == n && !b.undo.releaseOk
    ensures Connect(s, b).1.Err? && !Coherent(Connect(s, b).0)
  {
    assert Connect(s, b) == ConnectBridge(s, n, b);
    LeakedOffset(s, Connect(s, b).0, n.id, ConnectOffset(s, n));
  }

  lemma StaleKey(s: NetState, t: NetState, pk: PortKey, ip: Addr)
    requires PortsExact(s) && t.endpoints == s.endpoints && pk in t.portKeys && pk.containerIP == ip
    requires forall other <- s.portKeys :: other.containerIP != ip
    ensures !Coherent(t)
  {
    assert pk !in s.portKeys && (Wanted(t, pk) <==> Wanted(s, pk));
  }

  lemma LeakedOffset(s: NetState, t: NetState, nid: string, o: nat)
    requires AllocationExact(s) && IsBridge(s, nid) && o !in AllocOf(s, s.networks[nid].subnet)
    requires t.networks == s.networks && t.endpoints == s.endpoints && o in AllocOf(t, s.networks[nid].subnet)
    ensures !Coherent(t)
  {
    assert IsBridge(t, nid) && !Taken(s, nid, o);
    assert forall j :: TakenBy(t, nid, o, j) <==> TakenBy(s, nid, o, j);
    assert !Taken(t, nid, o);
  }

  /** Whatever call fails, a Connect that fails restores the state: exactly when the clean-ups succeed and the
      name it would register is not on record yet. */
  lemma ConnectRestoresExactly(s: NetState, a: ConnectArgs)
    requires Coherent(s)
    ensures (forall f: Fault :: Connect(s, a.(fault := f)).1.Err? ==> Connect(s, a.(fault := f)).0 == s)
            <==> NameUnregistered(s, a) && UndoHarmless(s, a)
  {
    if !UndoHarmless(s, a) {
      var f := UndoFailure(s, a);
    } else if NameUnregistered(s, a) {
      forall f: Fault | Connect(s, a.(fault := f)).1.Err? ensures Connect(s, a.(fault := f)).0 == s {
        var b := a.(fault := f);
        assert UndoHarmless(s, b) by { SameGiven(s, a, b); }
        assert NameUnregistered(s, b) && (Connect(s, b).1 == Err(PersistFailed) ==> Allocates(s, b));
        FailedConnectRestores(s, b);
      }
    } else {
      var b := a.(fault := AtPersist);
      assert Allocates(s, b) && !NameUnregistered(s, b);
      SameGiven(s, a, b);
      PersistFailure(s, b);
    }
  }

  lemma SameGiven(s: NetState, a: ConnectArgs, b: ConnectArgs)
    requires b == a.(fault := b.fault)
    ensures Allocates(s, a) == Allocates(s, b) && UndoHarmless(s, a) == UndoHarmless(s, b)
    ensures Allocates(s, a) ==> AddressGiven(s, a) == AddressGiven(s, b)
  {
  }

  /** What the caller of Connect has to see to: a call that gets an address brings a container and a
      name that are new to the network; and its clean-ups succeed. */
  ghost predicate ConnectGuard(s: NetState, a: ConnectArgs) {
    UndoHarmless(s, a) && (Allocates(s, a) ==> FreshOn(s, a, ResolveNetwork(s, a.networkID).value))
  }

  lemma ConnectKeepsCoherent(s: NetState, a: ConnectArgs)
    requires Coherent(s) && ConnectGuard(s, a)
    ensures Coherent(Connect(s, a).0)
  {
    var r := ResolveNetwork(s, a.networkID);
    if r.Err? || r.value.VirtualNetwork? {
      assert Connect(s, a).0 == s;
    } else if Connect(s, a).1.Ok? {
      assert Allocates(s, a);
      ConnectKeepsCoherentExactly(s, a, r.value);
    } else {
      assert Connect(s, a).1 == Err(PersistFailed) ==> Allocates(s, a);
      FailedConnectRestores(s, a);
    }
  }

  /** Whatever call fails, Connect keeps the state coherent: exactly under that guard. */
  lemma ConnectGuardExactly(s: NetState, a: ConnectArgs)
    requires Coherent(s)
    ensures (forall f: Fault :: Coherent(Connect(s, a.(fault := f)).0)) <==> ConnectGuard(s, a)
  {
    if ConnectGuard(s, a) {
      forall f: Fault ensures Coherent(Connect(s, a.(fault := f)).0) {
        SameGiven(s, a, a.(fault := f));
        assert ConnectGuard(s, a.(fault := f));
        ConnectKeepsCoherent(s, a.(fault := f));
      }
    } else if !UndoHarmless(s, a) {
      var f := UndoFailure(s, a);
    } else {
      var b := a.(fault := NoFault);
      var n := ResolveNetwork(s, a.networkID).value;
      Committed(s, n, b);
      assert Connects(s, b, n) && !FreshOn(s, b, n);
      ConnectKeepsCoherentExactly(s, b, n);
    }
  }

  lemma AllocUndone(alloc: map<Prefix, set<nat>>, p: Prefix, ip: Addr, o: nat)
    requires p in alloc ==> alloc[p] != {} && o !in alloc[p]
    requires Contains(p, ip) && IPToOffset(p, ip) == Some(o)
    ensures ReleaseIn(SetAlloc(alloc, p, (if p in alloc then alloc[p] else {}) + {o}), p, ip) == alloc
  {
    var was: set<nat> := if p in alloc then alloc[p] else {};
    assert was + {o} - {o} == was;
  }

  lemma DnsUndone(s: NetState, nid: string, name: string, ip: Addr)
    requires DnsExact(s) && IsBridge(s, nid)
    requires UserDefined(s, nid) ==> !Recorded(s.records, nid, name)
    ensures DeregisterEach(if UserDefined(s, nid) then Register(s.records, nid, name, ip) else s.records, nid, [name])
            == s.records
  {
    var r := if UserDefined(s, nid) then Register(s.records, nid, name, ip) else s.records;
    assert DeregisterEach(r, nid, [name]) == Deregister(r, nid, name);
    if UserDefined(s, nid) {
      RegisterUndone(s.records, nid, name, ip);
    } else {
      NoDefaultRecords(s, nid);
    }
  }

  lemma PortsUndone(s: NetState, nid: string, o: nat, pms: seq<PortMapping>)
    requires Coherent(s) && IsBridge(s, nid)
    requires 2 <= o < SubnetSize(s.networks[nid].subnet) && o !in AllocOf(s, s.networks[nid].subnet)
    ensures var ip := OffsetToIP(s.networks[nid].subnet, o);
            && s.portKeys + KeysOf(pms, ip) - KeysOf(pms, ip) == s.portKeys
            && ReleaseIn(SetAlloc(s.alloc, s.networks[nid].subnet, AllocOf(s, s.networks[nid].subnet) + {o}),
                         s.networks[nid].subnet, ip) == s.alloc
  {
    FreshAddress(s, nid, o);
    var ip := OffsetToIP(s.networks[nid].subnet, o);
    KeysNameAddress(pms, ip, s.portKeys);
    AllocUndone(s.alloc, s.networks[nid].subnet, ip, o);
  }

  /** What Disconnect does with an endpoint found under its own bridge network. */
  lemma DisconnectFound(s: NetState, nid: string, cid: string, force: bool)
    requires IsBridge(s, nid) && EndpointKey(nid, cid) in s.endpoints
    ensures var k := EndpointKey(nid, cid);
            var ep := s.endpoints[k];
            Disconnect(s, nid, cid, force)
            == (s.(endpoints := s.endpoints - {k},
                   portKeys := s.portKeys - KeysOf(ep.portMappings, ep.ip),
                   records := DeregisterEach(s.records, nid, ep.dnsNames),
                   alloc := ReleaseIn(s.alloc, s.networks[nid].subnet, ep.ip)), Ok(()))
  {
    assert ResolveNetwork(s, nid) == Ok(s.networks[nid]);
    var ep := s.endpoints[EndpointKey(nid, cid)];
    assert KeysOf(ep.portMappings, ep.ip) - NO_FAILURE.refused == KeysOf(ep.portMappings, ep.ip);
  }

  lemma AddedThenDropped(s: NetState, k: string, ep: Endpoint, o: nat)
    requires IsBridge(s, ep.networkID) && |ep.dnsNames| == 1 && k !in s.endpoints
             && s.networks[ep.networkID].id == ep.networkID
    ensures var t := Added(s, k, ep, o);
            var p := s.networks[ep.networkID].subnet;
            && t.endpoints - {k} == s.endpoints && t.endpoints[k] == ep
            && t.networks == s.networks && t.names == s.names && t.masq == s.masq
            && t.portKeys == s.portKeys + KeysOf(ep.portMappings, ep.ip)
            && t.alloc == SetAlloc(s.alloc, p, AllocOf(s, p) + {o})
            && t.records == if UserDefined(s, ep.networkID)
                            then Register(s.records, ep.networkID, ep.dnsNames[0], ep.ip) else s.records
  {
  }

  /** Disconnecting a container just connected gives back the state from before the connection. */
  lemma ConnectThenDisconnect(s: NetState, a: ConnectArgs, n: Network, force: bool)
    requires Coherent(s) && Connects(s, a, n) && FreshOn(s, a, n)
    ensures Disconnect(Connect(s, a).0, n.id, a.containerID, force) == (s, Ok(()))
  {
    ConnectsAdds(s, a, n);
    var o, k := ConnectOffset(s, n), EndpointKey(n.id, a.containerID);
    var ep := NewEndpoint(n, a, OffsetToIP(n.subnet, o));
    PortsUndone(s, n.id, o, a.portMappings);
    DnsUndone(s, n.id, ep.dnsNames[0], ep.ip);
    AddedThenDropped(s, k, ep, o);
    DisconnectFound(Added(s, k, ep, o), n.id, a.containerID, force);
  }

  lemma NoDefaultRecords(s: NetState, nid: string)
    requires DnsExact(s) && nid in s.networks && s.networks[nid].name == DEFAULT_NAME
    ensures nid !in s.records
  {
    if nid in s.records {
      var name :| name in s.records[nid];
      assert Recorded(s.records, nid, name);
    }
  }
}
