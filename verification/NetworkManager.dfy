/** The network manager: each call updates the store, the allocator, the NAT rules and the DNS records
    step by step, with an explicit stack of clean-ups (internal/network/manager.go).

    Calls into the kernel, the bridge and the database are steps that succeed or fail with no effect;
    the `fault` and `env` arguments say which. */
module NetworkManager {
  import opened Wrappers
  import opened Addresses
  import Ipam
  import opened Lookup
  import SubnetPool
  import opened NetworkSpec
  import opened NetworkInvariant
  import opened NetworkComponents

  // ----- The allocation view of the bitmaps

  function AllocView(bitmaps: Ipam.BitmapBucket): map<Prefix, set<nat>> {
    map p | p in bitmaps && Ipam.Offsets(bitmaps, p) != {} :: Ipam.Offsets(bitmaps, p)
  }

  lemma AllocViewOf(bitmaps: Ipam.BitmapBucket, p: Prefix)
    ensures (if p in AllocView(bitmaps) then AllocView(bitmaps)[p] else {}) == Ipam.Offsets(bitmaps, p)
  {
  }

  lemma AllocViewUpdate(b: Ipam.BitmapBucket, c: Ipam.BitmapBucket, p: Prefix)
    requires Ipam.SameElsewhere(b, c, p)
    ensures AllocView(c) == SetAlloc(AllocView(b), p, Ipam.Offsets(c, p))
  {
    forall q | q != p
      ensures q in b <==> q in c
      ensures q in b && q in c ==> b[q] == c[q]
      ensures Ipam.Offsets(b, q) == Ipam.Offsets(c, q)
    {
      assert q in b - {p} <==> q in c - {p};
      assert q in b && q in c ==> (b - {p})[q] == (c - {p})[q];
    }
    AllocViewOf(c, p);
  }

  // ----- Clean-ups

  datatype Cleanup =
    | ReleaseIP(subnet: Prefix, ip: Addr)
    | DeleteVeth(vethHost: string)
    | RemovePort(pm: PortMapping, containerIP: Addr)
    | DeregisterOne(networkID: string, name: string)

  function Undo(s: NetState, c: Cleanup, undo: UndoEnv): NetState {
    match c
    case ReleaseIP(p, ip) => s.(alloc := if undo.releaseOk then ReleaseIn(s.alloc, p, ip) else s.alloc)
    case DeleteVeth(_) => s
    case RemovePort(pm, ip) => s.(portKeys := s.portKeys - ({KeyOf(pm, ip)} - undo.refused))
    case DeregisterOne(nid, name) => s.(records := Deregister(s.records, nid, name))
  }

  /** The clean-ups, last one first. */
  function UndoAll(s: NetState, cs: seq<Cleanup>, undo: UndoEnv): NetState
    decreases |cs|
  {
    if cs == [] then s else UndoAll(Undo(s, cs[|cs| - 1], undo), cs[..|cs| - 1], undo)
  }

  function PortCleanups(pms: seq<PortMapping>, ip: Addr): (cs: seq<Cleanup>)
    ensures |cs| == |pms|
    decreases |pms|
  {
    if pms == [] then [] else PortCleanups(pms[..|pms| - 1], ip) + [RemovePort(pms[|pms| - 1], ip)]
  }

  lemma {:induction false} PortCleanupsOnly(pms: seq<PortMapping>, ip: Addr)
    ensures forall c :: c in PortCleanups(pms, ip) ==> c.RemovePort?
    decreases |pms|
  {
    if pms != [] {
      PortCleanupsOnly(pms[..|pms| - 1], ip);
    }
  }

  lemma KeysOfSnoc(pms: seq<PortMapping>, pm: PortMapping, ip: Addr)
    ensures KeysOf(pms + [pm], ip) == KeysOf(pms, ip) + {KeyOf(pm, ip)}
  {
    assert forall x :: x in pms + [pm] <==> x in pms || x == pm;
  }

  /** Undoing the port rules of a prefix of the mappings removes their keys, as far as the kernel lets it. */
  lemma {:induction false} UndoPorts(s: NetState, base: seq<Cleanup>, pms: seq<PortMapping>, ip: Addr, undo: UndoEnv)
    ensures UndoAll(s, base + PortCleanups(pms, ip), undo)
            == UndoAll(s.(portKeys := s.portKeys - (KeysOf(pms, ip) - undo.refused)), base, undo)
    decreases |pms|
  {
    if pms == [] {
      assert base + PortCleanups(pms, ip) == base;
      assert s.portKeys - (KeysOf(pms, ip) - undo.refused) == s.portKeys;
    } else {
      var init, last := pms[..|pms| - 1], pms[|pms| - 1];
      var cs := base + PortCleanups(pms, ip);
      assert cs[..|cs| - 1] == base + PortCleanups(init, ip);
      var t := s.(portKeys := s.portKeys - ({KeyOf(last, ip)} - undo.refused));
      UndoPorts(t, base, init, ip, undo);
      assert t.portKeys - (KeysOf(init, ip) - undo.refused) == s.portKeys - (KeysOf(pms, ip) - undo.refused) by {
        assert pms == init + [last];
        KeysOfSnoc(init, last, ip);
      }
    }
  }

  lemma UndoLast(s: NetState, cs: seq<Cleanup>, c: Cleanup, undo: UndoEnv)
    ensures UndoAll(s, cs + [c], undo) == UndoAll(Undo(s, c, undo), cs, undo)
  {
    assert (cs + [c])[..|cs + [c]| - 1] == cs;
  }

  /** What is left to undo of the address and the interface. */
  lemma UndoBase(s: NetState, subnet: Prefix, ip: Addr, veth: string, undo: UndoEnv)
    ensures UndoAll(s, [ReleaseIP(subnet, ip)], undo) == Undo(s, ReleaseIP(subnet, ip), undo)
    ensures UndoAll(s, [ReleaseIP(subnet, ip), DeleteVeth(veth)], undo) == Undo(s, ReleaseIP(subnet, ip), undo)
  {
    UndoLast(s, [], ReleaseIP(subnet, ip), undo);
    UndoLast(s, [ReleaseIP(subnet, ip)], DeleteVeth(veth), undo);
    assert [ReleaseIP(subnet, ip)] + [DeleteVeth(veth)] == [ReleaseIP(subnet, ip), DeleteVeth(veth)];
    assert [] + [ReleaseIP(subnet, ip)] == [ReleaseIP(subnet, ip)];
  }

  predicate FreeIn(s: NetState, p: Prefix, o: nat) {
    2 <= o < SubnetSize(p) && o !in AllocOf(s, p) && (p in s.alloc ==> s.alloc[p] != {})
  }

  class Manager {
    const store: Store
    const ipam: Ipam.IPAM
    const natRules: NAT
    const dns: DNS

    constructor ()
      ensures View() == NetState(map[], map[], map[], map[], {}, {}, map[])
      ensures fresh(store) && fresh(ipam) && fresh(natRules) && fresh(dns)
    {
      store := new Store();
      ipam := new Ipam.IPAM();
      natRules := new NAT();
      dns := new DNS();
    }

    /** A new process on the store of an earlier one: rules and records start empty. */
    constructor OnStore(store: Store, ipam: Ipam.IPAM)
      ensures this.store == store && this.ipam == ipam && fresh(natRules) && fresh(dns)
      ensures natRules.portMapRules == {} && natRules.masqRules == {} && dns.records == map[]
    {
      this.store := store;
      this.ipam := ipam;
      natRules := new NAT();
      dns := new DNS();
    }

    ghost function View(): NetState
      reads this, store, ipam, natRules, dns
    {
      NetState(
        Contents(store.networks), store.networkNames, Contents(store.endpoints), AllocView(ipam.bitmaps),
        natRules.portMapRules, natRules.masqRules, dns.records)
    }

    /** The bitmap covers every bridge subnet: what the allocator relies on and nobody checks. */
    ghost predicate Valid()
      reads this, store, ipam, natRules, dns
    {
      forall id :: IsBridge(View(), id) ==> BitmapCovers(View().networks[id].subnet)
    }

    /** The address has its bit in the bitmap, if it is in the subnet at all. */
    predicate Backed(c: Cleanup) {
      c.ReleaseIP? && Contains(c.subnet, c.ip) ==> IPToOffset(c.subnet, c.ip).value < SubnetSize(c.subnet)
    }

    method RunCleanups(cleanups: seq<Cleanup>, undo: UndoEnv)
      requires forall c <- cleanups :: Backed(c)
      modifies ipam, natRules, dns
      ensures View() == UndoAll(old(View()), cleanups, undo)
    {
      var i := |cleanups|;
      assert cleanups[..i] == cleanups;
      while i > 0
        invariant 0 <= i <= |cleanups|
        invariant UndoAll(View(), cleanups[..i], undo) == UndoAll(old(View()), cleanups, undo)
        invariant unchanged(store)
      {
        i := i - 1;
        assert cleanups[..i + 1] == cleanups[..i] + [cleanups[i]];
        UndoLast(View(), cleanups[..i], cleanups[i], undo);
        RunCleanup(cleanups[i], undo);
      }
    }

    method RunCleanup(c: Cleanup, undo: UndoEnv)
      requires Backed(c)
      modifies ipam, natRules, dns
      ensures View() == Undo(old(View()), c, undo)
    {
      match c
      case ReleaseIP(p, ip) => var _ := ReleaseAddress(p, ip, undo.releaseOk);
      case DeleteVeth(_) =>
      case RemovePort(pm, ip) =>
        var ok := KeyOf(pm, ip) !in undo.refused;
        var _ := natRules.RemovePortMapping(pm, ip, ok);
        assert {KeyOf(pm, ip)} - undo.refused == if ok then {KeyOf(pm, ip)} else {};
      case DeregisterOne(nid, name) => dns.DeregisterName(nid, name);
    }

    /** Releases an address and ignores the result; an address outside the subnet is not there, and one past
        the end of the bitmap panics. */
    method ReleaseAddress(p: Prefix, ip: Addr, putOk: bool) returns (panicked: bool)
      modifies ipam
      ensures panicked <==> old(ipam.OffBitmap(p, ip))
      ensures panicked ==> !(IPToOffset(p, ip).value < SubnetSize(p))
      ensures View() == old(View()).(alloc := if putOk && !panicked then ReleaseIn(old(View()).alloc, p, ip)
                                              else old(View()).alloc)
    {
      ghost var before := ipam.bitmaps;
      var r := ipam.Release(p, ip, true, putOk);
      AllocViewOf(before, p);
      panicked := r == Err(Ipam.IndexPanic);
      if r.Ok? {
        AllocViewUpdate(before, ipam.bitmaps, p);
      }
    }

    // ----- Connect

    /** Adds the rules one by one, remembering how to undo each, until one fails. */
    method AddPortMappings(a: ConnectArgs, ip: Addr, base: seq<Cleanup>)
      returns (failed: Option<nat>, cleanups: seq<Cleanup>)
      modifies natRules`portMapRules
      ensures failed == if PortFault(old(View()), a, ip) then Some(a.fault.i) else None
      ensures var added := if failed.Some? then a.portMappings[..failed.value] else a.portMappings;
              && cleanups == base + PortCleanups(added, ip)
              && View() == old(View()).(portKeys := old(View()).portKeys + KeysOf(added, ip))
    {
      failed, cleanups := AddRules(a, ip, base);
    }

    method AddRules(a: ConnectArgs, ip: Addr, base: seq<Cleanup>) returns (failed: Option<nat>, cleanups: seq<Cleanup>)
      modifies natRules`portMapRules
      ensures failed == if PortFaultOn(old(natRules.portMapRules), a, ip) then Some(a.fault.i) else None
      ensures var added := if failed.Some? then a.portMappings[..failed.value] else a.portMappings;
              && cleanups == base + PortCleanups(added, ip)
              && natRules.portMapRules == old(natRules.portMapRules) + KeysOf(added, ip)
    {
      cleanups := base;
      var i := 0;
      while i < |a.portMappings|
        invariant 0 <= i <= |a.portMappings|
        invariant cleanups == base + PortCleanups(a.portMappings[..i], ip)
        invariant natRules.portMapRules == old(natRules.portMapRules) + KeysOf(a.portMappings[..i], ip)
        invariant PortFaultOn(old(natRules.portMapRules), a, ip) ==> i <= a.fault.i
      {
        var pm := a.portMappings[i];
        var ok := natRules.AddPortMapping(pm, ip, a.fault != AtPort(i));
        if !ok {
          return Some(i), cleanups;
        }
        assert a.portMappings[..i + 1] == a.portMappings[..i] + [pm];
        KeysOfSnoc(a.portMappings[..i], pm, ip);
        cleanups := cleanups + [RemovePort(pm, ip)];
        i := i + 1;
      }
      assert a.portMappings[..i] == a.portMappings;
      return None, cleanups;
    }

    /** Connects a container to a bridge network, or undoes every step already taken. */
    method ConnectTo(rec: Network, a: ConnectArgs) returns (r: Result<Endpoint, ConnectError>)
      requires rec.BridgeNetwork?
      modifies store, ipam, natRules, dns
      ensures (View(), r) == ConnectBridge(old(View()), rec, a)
    {
      ghost var s := View();
      var cleanups: seq<Cleanup> := [];

      // 1. Allocate an address.
      var allocation := AllocateAddress(rec.subnet, !a.fault.AtLoad?, !a.fault.AtPut?);
      if allocation.Err? {
        return Err(AllocateFailed(allocation.error));
      }
      var ip := allocation.value;
      ghost var o := ConnectOffset(s, rec);
      cleanups := cleanups + [ReleaseIP(rec.subnet, ip)];

      assert FreeIn(s, rec.subnet, o) && ip == OffsetToIP(rec.subnet, o) by {
        AllocViewOf(ipam.bitmaps, rec.subnet);
      }
      OffsetBack(rec.subnet, o);
      r := Attach(s, rec, a, o, ip, cleanups);
    }

    /** The steps after the allocation, which is on the clean-up stack. */
    method Attach(ghost s: NetState, rec: Network, a: ConnectArgs, ghost o: nat, ip: Addr, earlier: seq<Cleanup>)
      returns (r: Result<Endpoint, ConnectError>)
      requires rec.BridgeNetwork?
      requires FreeIn(s, rec.subnet, o) && ip == OffsetToIP(rec.subnet, o) && Backed(ReleaseIP(rec.subnet, ip))
      requires earlier == [ReleaseIP(rec.subnet, ip)]
      requires View() == s.(alloc := SetAlloc(s.alloc, rec.subnet, AllocOf(s, rec.subnet) + {o}))
      modifies store, ipam, natRules, dns
      ensures (View(), r) == if a.fault.AtVeth? then (s.(alloc := AllocLeft(s, rec.subnet, o, ip, a.undo)),
                                                           Err(VethFailed))
                              else Published(s, rec, a, o, ip)
    {
      // 2. Create the interface.
      if a.fault.AtVeth? {
        UndoAttempt(s, View(), rec.subnet, o, ip, [], "", earlier, a.undo);
        RunCleanups(earlier, a.undo);
        assert s.portKeys - (KeysOf([], ip) - a.undo.refused) == s.portKeys;
        return Err(VethFailed);
      }
      var cleanups := earlier + [DeleteVeth(a.vethHost)];

      // 3. to 5. Port mappings, name, endpoint.
      r := Publish(s, rec, a, o, ip, cleanups);
    }

    /** The steps after the interface; address and interface are on the clean-up stack. */
    method Publish(ghost s: NetState, rec: Network, a: ConnectArgs, ghost o: nat, ip: Addr, earlier: seq<Cleanup>)
      returns (r: Result<Endpoint, ConnectError>)
      requires rec.BridgeNetwork?
      requires FreeIn(s, rec.subnet, o) && ip == OffsetToIP(rec.subnet, o) && Backed(ReleaseIP(rec.subnet, ip))
      requires earlier == [ReleaseIP(rec.subnet, ip), DeleteVeth(a.vethHost)]
      requires View() == s.(alloc := SetAlloc(s.alloc, rec.subnet, AllocOf(s, rec.subnet) + {o}))
      modifies store, ipam, natRules, dns
      ensures (View(), r) == Published(s, rec, a, o, ip)
    {
      var failed, cleanups := AddPortMappings(a, ip, earlier);
      ghost var t := View();
      if failed.Some? {
        ghost var added := a.portMappings[..failed.value];
        UndoAttempt(s, t, rec.subnet, o, ip, added, a.vethHost, cleanups, a.undo);
        PortCleanupsOnly(added, ip);
        RunCleanups(cleanups, a.undo);
        return Err(PortFailed(failed.value));
      }
      assert t.portKeys == s.portKeys + KeysOf(a.portMappings, ip);
      r := Finish(s, rec, a, o, ip, cleanups);
    }

    /** The steps after the port rules. */
    method Finish(ghost s: NetState, rec: Network, a: ConnectArgs, ghost o: nat, ip: Addr, earlier: seq<Cleanup>)
      returns (r: Result<Endpoint, ConnectError>)
      requires rec.BridgeNetwork?
      requires FreeIn(s, rec.subnet, o) && ip == OffsetToIP(rec.subnet, o) && Backed(ReleaseIP(rec.subnet, ip))
      requires earlier == [ReleaseIP(rec.subnet, ip), DeleteVeth(a.vethHost)] + PortCleanups(a.portMappings, ip)
      requires View() == s.(alloc := SetAlloc(s.alloc, rec.subnet, AllocOf(s, rec.subnet) + {o}),
                            portKeys := s.portKeys + KeysOf(a.portMappings, ip))
      modifies store, ipam, natRules, dns
      ensures (View(), r) == Finished(s, rec, a, o, ip)
    {
      ghost var t := View();
      var cleanups := RegisterOn(rec, TrimSlash(a.containerName), ip, earlier);
      assert forall c <- cleanups :: Backed(c) by {
        PortCleanupsOnly(a.portMappings, ip);
      }
      r := Persist(NewEndpoint(rec, a, ip), !a.fault.AtPersist?, cleanups, a.undo);
      UndoRegistered(s, t, rec, o, ip, a.portMappings, a.vethHost, TrimSlash(a.containerName), a.undo);
    }

    /** Registers the name on user-defined networks. */
    method RegisterOn(rec: Network, dnsName: string, ip: Addr, earlier: seq<Cleanup>) returns (cleanups: seq<Cleanup>)
      modifies dns
      ensures View() == Registered(old(View()), rec, dnsName, ip)
      ensures cleanups == earlier + DnsCleanups(rec, dnsName)
    {
      cleanups := earlier;
      if rec.name != DEFAULT_NAME {
        dns.RegisterName(rec.id, dnsName, ip);
        cleanups := cleanups + [DeregisterOne(rec.id, dnsName)];
      }
    }

    /** Stores the endpoint, or runs the clean-ups. */
    method Persist(ep: Endpoint, putOk: bool, cleanups: seq<Cleanup>, undo: UndoEnv)
      returns (r: Result<Endpoint, ConnectError>)
      requires forall c <- cleanups :: Backed(c)
      modifies store, ipam, natRules, dns
      ensures r == if putOk then Ok(ep) else Err(PersistFailed)
      ensures View() == if putOk then
                  old(View()).(endpoints := old(View()).endpoints[EndpointKey(ep.networkID, ep.containerID) := ep])
                else UndoAll(old(View()), cleanups, undo)
    {
      var persisted := store.CreateEndpoint(ep, putOk);
      if !persisted {
        RunCleanups(cleanups, undo);
        return Err(PersistFailed);
      }
      return Ok(ep);
    }

    method AllocateAddress(p: Prefix, loadOk: bool, putOk: bool) returns (r: Result<Addr, Ipam.IpamError>)
      modifies ipam
      ensures var free := Ipam.LowestFree(AllocOf(old(View()), p), 2, SubnetSize(p));
              && r == (if !loadOk then Err(Ipam.LoadFailed)
                       else if free.None? then Err(Ipam.NoAvailableIP)
                       else if !putOk then Err(Ipam.PersistFailed)
                       else Ok(OffsetToIP(p, free.value)))
              && View() == old(View()).(alloc := if r.Err? then old(View()).alloc
                                                 else SetAlloc(old(View()).alloc, p,
                                                               AllocOf(old(View()), p) + {free.value}))
    {
      ghost var before := ipam.bitmaps;
      r := ipam.Allocate(p, loadOk, putOk);
      AllocViewOf(before, p);
      if r.Ok? {
        AllocViewUpdate(before, ipam.bitmaps, p);
      }
    }

    // ----- The manager's calls

    method Connect(a: ConnectArgs) returns (r: Result<Endpoint, ConnectError>)
      modifies store, ipam, natRules, dns
      ensures (View(), r) == NetworkSpec.Connect(old(View()), a)
    {
      ghost var s := View();
      var found := store.GetNetwork(a.networkID);
      if found.Err? {
        return Err(NetworkNotFound);
      }
      var rec := found.value;
      if rec.VirtualNetwork? {
        return Ok(Endpoint(rec.id, a.containerID, a.containerName, Addr(0, 0, 0, 0), "", "", [], []));
      }
      r := ConnectTo(rec, a);
      assert NetworkSpec.Connect(s, a) == ConnectBridge(s, rec, a);
    }

    /** Failures are only logged, except for the endpoint's deletion. An address past the end of the bitmap
        makes the release panic, and what comes after it is not done. */
    method DisconnectLocked(networkID: string, containerID: string, force: bool, env: DisconnectEnv)
      returns (r: Result<(), DisconnectError>, panicked: bool)
      modifies store, ipam, natRules, dns
      ensures old(Valid()) ==> Valid() && !panicked
      ensures panicked <==> old(ReleasePanics(networkID, containerID))
      ensures !panicked ==> (View(), r) == DisconnectWith(old(View()), networkID, containerID, force, env)
      ensures panicked ==> View() == Interrupted(old(View()), networkID, containerID, env)
    {
      ghost var s := View();
      var ep := store.GetEndpoint(networkID, containerID);
      if ep.None? {
        return if force then Ok(()) else Err(EndpointNotFound), false;
      }
      panicked := Withdraw(networkID, ep.value, env);
      if panicked {
        return Err(EndpointKept), true;
      }
      var deleted := store.DeleteEndpoint(networkID, containerID, env.deleteOk);
      r := if deleted then Ok(()) else Err(EndpointKept);
    }

    /** Takes away the rules, the names and the address of an endpoint. */
    method Withdraw(networkID: string, ep: Endpoint, env: DisconnectEnv) returns (panicked: bool)
      modifies ipam, natRules, dns
      ensures panicked <==> old(OffItsBitmap(networkID, ep.ip))
      ensures panicked ==> !old(Valid())
      ensures var s, rec := old(View()), ResolveNetwork(old(View()), networkID);
              View() == s.(portKeys := s.portKeys - (KeysOf(ep.portMappings, ep.ip) - env.refused),
                           records := DeregisterEach(s.records, networkID, ep.dnsNames),
                           alloc := if env.releaseOk && !panicked && rec.Ok? && rec.value.BridgeNetwork?
                                    then ReleaseIn(s.alloc, rec.value.subnet, ep.ip) else s.alloc)
    {
      RemoveMappings(ep.portMappings, ep.ip, env.refused);
      DeregisterNames(networkID, ep.dnsNames);
      panicked := ReleaseOn(networkID, ep.ip, env.releaseOk);
    }

    /** Releases the address of an endpoint, if its network is found. */
    method ReleaseOn(networkID: string, ip: Addr, putOk: bool) returns (panicked: bool)
      modifies ipam
      ensures panicked <==> old(OffItsBitmap(networkID, ip))
      ensures panicked ==> !old(Valid())
      ensures var s, rec := old(View()), ResolveNetwork(old(View()), networkID);
              View() == s.(alloc := if putOk && !panicked && rec.Ok? && rec.value.BridgeNetwork?
                                    then ReleaseIn(s.alloc, rec.value.subnet, ip) else s.alloc)
    {
      ghost var s := View();
      var rec := store.GetNetwork(networkID);
      panicked := false;
      if rec.Ok? && rec.value.BridgeNetwork? {
        panicked := ReleaseAddress(rec.value.subnet, ip, putOk);
        ghost var id :| id in s.networks && s.networks[id] == rec.value;
        assert IsBridge(s, id);
      }
    }

    ghost predicate OffItsBitmap(networkID: string, ip: Addr)
      reads this, store, ipam, natRules, dns
    {
      var rec := ResolveNetwork(View(), networkID);
      rec.Ok? && rec.value.BridgeNetwork? && ipam.OffBitmap(rec.value.subnet, ip)
    }

    /** The endpoint is there, and its address is past the end of the bitmap of its network. */
    ghost predicate ReleasePanics(networkID: string, containerID: string)
      reads this, store, ipam, natRules, dns
    {
      var k := EndpointKey(networkID, containerID);
      k in View().endpoints && OffItsBitmap(networkID, View().endpoints[k].ip)
    }

    method RemoveMappings(pms: seq<PortMapping>, ip: Addr, refused: set<PortKey>)
      modifies natRules`portMapRules
      ensures View() == old(View()).(portKeys := old(View()).portKeys - (KeysOf(pms, ip) - refused))
    {
      for i := 0 to |pms|
        invariant natRules.portMapRules == old(natRules.portMapRules) - (KeysOf(pms[..i], ip) - refused)
      {
        var _ := natRules.RemovePortMapping(pms[i], ip, KeyOf(pms[i], ip) !in refused);
        assert pms[..i + 1] == pms[..i] + [pms[i]];
        KeysOfSnoc(pms[..i], pms[i], ip);
      }
      assert pms[..|pms|] == pms;
    }

    method DeregisterNames(networkID: string, names: seq<string>)
      modifies dns
      ensures View() == old(View()).(records := DeregisterEach(old(View()).records, networkID, names))
    {
      var i := 0;
      while i < |names|
        invariant 0 <= i <= |names|
        invariant DeregisterEach(dns.records, networkID, names[i..])
                  == DeregisterEach(old(dns.records), networkID, names)
      {
        assert names[i..][1..] == names[i + 1..];
        dns.DeregisterName(networkID, names[i]);
        i := i + 1;
      }
    }

    /** Disconnects the container from every network it is on; `order` is the order of the listing and
        `env` says what fails on which network. A panic ends it at the network `order[done]`. */
    method DisconnectAll(containerID: string, env: string -> DisconnectEnv)
      returns (lastErr: Result<(), DisconnectError>, panicked: bool, ghost order: seq<string>, ghost done: nat)
      modifies store, ipam, natRules, dns
      ensures old(Valid()) ==> Valid() && !panicked
      ensures !panicked ==> (View(), lastErr) == DisconnectEach(old(View()), order, containerID, env)
      ensures panicked ==>
                && done < |order|
                && View() == Interrupted(DisconnectEach(old(View()), order[..done], containerID, env).0,
                                         order[done], containerID, env(order[done]))
      ensures forall k :: k in old(View()).endpoints && old(View()).endpoints[k].containerID == containerID ==>
                old(View()).endpoints[k].networkID in order
    {
      ghost var s := View();
      var eps := store.ListContainerEndpoints(containerID);
      order := seq(|eps|, i requires 0 <= i < |eps| => eps[i].networkID);
      forall k | k in s.endpoints && s.endpoints[k].containerID == containerID
        ensures s.endpoints[k].networkID in order
      {
        assert HasValue(Contents(store.endpoints), s.endpoints[k]);
        var j :| 0 <= j < |eps| && eps[j] == s.endpoints[k];
        assert order[j] == s.endpoints[k].networkID;
      }
      lastErr, panicked, done := Ok(()), false, 0;
      for i := 0 to |eps|
        invariant old(Valid()) ==> Valid()
        invariant (View(), lastErr) == DisconnectEach(s, order[..i], containerID, env)
        invariant !panicked
      {
        assert order[..i + 1][..i] == order[..i];
        done := i;
        var r;
        r, panicked := DisconnectLocked(eps[i].networkID, containerID, true, env(eps[i].networkID));
        if panicked {
          return;
        }
        if r.Err? {
          lastErr := r;
        }
      }
      assert order[..|eps|] == order;
    }

    /** Creates a bridge network. The bitmap keeps covering every bridge subnet as long as it covers the
        one the user gives, which nothing checks. */
    method CreateNetwork(a: CreateArgs) returns (r: Result<string, CreateError>)
      modifies store, natRules
      ensures old(Valid()) && (r.Ok? && a.subnet.Some? ==> BitmapCovers(a.subnet.value)) ==> Valid()
      ensures (View(), r) == Create(old(View()), a)
    {
      var driver := if a.driver == "" then "bridge" else a.driver;
      if driver != "bridge" {
        return Err(Unsupported);
      }
      var subnet, gateway;
      if a.subnet.None? {
        var chosen := AutoAssign();
        if chosen.None? {
          return Err(NoAvailableSubnets);
        }
        subnet, gateway := chosen.value.0, chosen.value.1;
      } else {
        subnet := a.subnet.value;
        gateway := if a.gateway.Some? then a.gateway.value else OffsetToIP(subnet, 1);
      }
      r := CreateBridge(a, subnet, gateway);
    }

    method AutoAssign() returns (r: Option<(Prefix, Addr)>)
      ensures var i := SubnetPool.FirstFree(LiveSubnets(View()), 0);
              r == if i.None? then None
                   else Some((SubnetPool.PoolSubnet(i.value), OffsetToIP(SubnetPool.PoolSubnet(i.value), 1)))
      ensures r.Some? ==> BitmapCovers(r.value.0)
    {
      var recs := store.ListNetworks();
      var existing := seq(|recs|, i requires 0 <= i < |recs| => if recs[i].BridgeNetwork? then Some(recs[i].subnet)
                          else None);
      ghost var s := View();
      forall p
        ensures p in SubnetPool.SubnetsOf(existing) <==> p in LiveSubnets(s)
      {
        if p in SubnetPool.SubnetsOf(existing) {
          var i :| 0 <= i < |existing| && existing[i] == Some(p);
          assert recs[i] in recs;
        }
        if p in LiveSubnets(s) {
          var id :| id in s.networks && s.networks[id].BridgeNetwork? && s.networks[id].subnet == p;
          assert HasValue(s.networks, s.networks[id]);
          var i :| 0 <= i < |recs| && recs[i] == s.networks[id];
          assert existing[i] == Some(p);
          assert existing[i] in existing;
        }
      }
      assert SubnetPool.SubnetsOf(existing) == LiveSubnets(s);
      r := SubnetPool.AutoAssignSubnet(existing);
      if r.Some? {
        var i := SubnetPool.FirstFree(LiveSubnets(s), 0).value;
        SubnetPool.PoolRange(i);
        BitmapCoversExactly(SubnetPool.PoolSubnet(i));
      }
    }

    /** Bridge, masquerade rule, record; the rule is taken away again when the record is refused. */
    method CreateBridge(a: CreateArgs, subnet: Prefix, gateway: Addr) returns (r: Result<string, CreateError>)
      modifies store, natRules
      ensures old(Valid()) && (r.Ok? ==> BitmapCovers(subnet)) ==> Valid()
      ensures (View(), r) == CreateOn(old(View()), a, subnet, gateway)
    {
      if a.fault.AtBridge? {
        return Err(BridgeFailed);
      }
      if !a.internal {
        var ok := natRules.AddMasquerade(subnet, !a.fault.AtMasquerade?);
        if !ok {
          return Err(MasqueradeFailed);
        }
      }
      ghost var s := old(View());
      var rec := BridgeNetwork(a.id, a.name, subnet, gateway, a.internal);
      var created := store.CreateNetwork(rec, !a.fault.AtCreate?);
      if created.Err? {
        natRules.RemoveMasquerade(subnet, a.undoOk);
        assert s.masq + {subnet} - {subnet} == s.masq - {subnet};
        return Err(created.error);
      }
      assert forall id :: IsBridge(View(), id) ==> id == a.id || IsBridge(s, id);
      return Ok(a.id);
    }

    /** Removes a user-defined network without endpoints. Clean-up failures are only logged. */
    method RemoveNetwork(idOrName: string, env: RemoveEnv) returns (r: Result<(), RemoveError>)
      modifies store, ipam, natRules, dns
      ensures old(Valid()) ==> Valid()
      ensures (View(), r) == Remove(old(View()), idOrName, env)
    {
      ghost var s := View();
      var found := store.GetNetwork(idOrName);
      if found.Err? {
        return Err(NoSuchNetwork);
      }
      var rec := found.value;
      if rec.name == DEFAULT_NAME || rec.VirtualNetwork? {
        return Err(Predefined);
      }
      var endpoints := store.ListEndpoints(rec.id);
      ListingShowsEndpoints(s, rec.id, endpoints);
      if |endpoints| > 0 {
        return Err(HasContainers);
      }
      dns.DeregisterNetwork(rec.id);
      natRules.RemoveMasquerade(rec.subnet, env.masqOk);
      ForgetSubnet(rec.subnet, env.releaseOk);
      if !env.deleteOk {
        return Err(DeleteFailed);
      }
      store.DeleteNetwork(rec.id, rec.name);
      assert forall id :: IsBridge(View(), id) ==> IsBridge(s, id) && View().networks[id] == s.networks[id];
      return Ok(());
    }

    method ForgetSubnet(p: Prefix, releaseOk: bool)
      modifies ipam
      ensures View() == old(View()).(alloc := if releaseOk then old(View()).alloc - {p} else old(View()).alloc)
    {
      ghost var before := ipam.bitmaps;
      var r := ipam.ReleaseSubnet(p, releaseOk);
      if releaseOk {
        assert Ipam.SameElsewhere(before, ipam.bitmaps, p);
        AllocViewUpdate(before, ipam.bitmaps, p);
        assert Ipam.Offsets(ipam.bitmaps, p) == {};
      }
    }
  }

  /** The state when the release panics: rules and names are gone, the rest is as it was. */
  ghost function Interrupted(s: NetState, networkID: string, containerID: string, env: DisconnectEnv): NetState {
    DisconnectWith(s, networkID, containerID, true, env.(releaseOk := false, deleteOk := false)).0
  }

  lemma ListingShowsEndpoints(s: NetState, nid: string, eps: seq<Endpoint>)
    requires forall ep :: ep in eps <==> HasValueUnder(s.endpoints, nid + "/", ep)
    ensures |eps| > 0 <==> HasEndpoints(s, nid)
  {
    if |eps| > 0 {
      assert HasValueUnder(s.endpoints, nid + "/", eps[0]);
    }
    if k :| k in s.endpoints && nid + "/" <= k {
      assert HasValueUnder(s.endpoints, nid + "/", s.endpoints[k]);
    }
  }

  /** An allocated address that lies in its subnet has the offset it was made from. */
  lemma OffsetBack(p: Prefix, o: nat)
    requires o < SubnetSize(p)
    ensures Contains(p, OffsetToIP(p, o)) ==> IPToOffset(p, OffsetToIP(p, o)) == Some(o)
  {
    SizeFits(p);
    OffsetIs(p, o, ToUint32(p.addr));
    OffsetFrom(p, OffsetToIP(p, o), o);
  }

  lemma SizeFits(p: Prefix)
    ensures SubnetSize(p) < TWO_32
  {
    SubnetSizeBound(p);
  }

  lemma OffsetIs(p: Prefix, o: nat, base: nat)
    requires base == ToUint32(p.addr)
    ensures ToUint32(OffsetToIP(p, o)) == (base + o) % TWO_32
  {
    PackUnpack((base + o) % TWO_32);
  }

  lemma OffsetFrom(p: Prefix, ip: Addr, o: nat)
    requires o < TWO_32 && ToUint32(ip) == (ToUint32(p.addr) + o) % TWO_32
    ensures Contains(p, ip) ==> IPToOffset(p, ip) == Some(o)
  {
    ToUint32Bound(p.addr);
    WrapBack(ToUint32(p.addr), o);
  }

  lemma WrapBack(base: nat, o: nat)
    requires base < TWO_32 && o < TWO_32
    ensures ((base + o) % TWO_32 - base) % TWO_32 == o
  {
    if base + o >= TWO_32 {
      assert (base + o) % TWO_32 == base + o - TWO_32;
    }
  }

  /** Whatever port rules were added and whatever the records are, the clean-ups undo the allocation
      and the rules, as far as they succeed. */
  lemma UndoAttempt(s: NetState, t: NetState, p: Prefix, o: nat, ip: Addr, added: seq<PortMapping>, veth: string,
                    cs: seq<Cleanup>, undo: UndoEnv)
    requires FreeIn(s, p, o) && ip == OffsetToIP(p, o)
    requires cs == [ReleaseIP(p, ip), DeleteVeth(veth)] + PortCleanups(added, ip)
             || (cs == [ReleaseIP(p, ip)] && added == [])
    requires t == s.(alloc := SetAlloc(s.alloc, p, AllocOf(s, p) + {o}), portKeys := t.portKeys, records := t.records)
    ensures UndoAll(t, cs, undo) == s.(alloc := AllocLeft(s, p, o, ip, undo),
                                       portKeys := t.portKeys - (KeysOf(added, ip) - undo.refused),
                                       records := t.records)
  {
    OffsetBack(p, o);
    if Contains(p, ip) {
      AllocUndone(s.alloc, p, ip, o);
    }
    if cs == [ReleaseIP(p, ip), DeleteVeth(veth)] + PortCleanups(added, ip) {
      UndoPorts(t, [ReleaseIP(p, ip), DeleteVeth(veth)], added, ip, undo);
      UndoBase(t.(portKeys := t.portKeys - (KeysOf(added, ip) - undo.refused)), p, ip, veth, undo);
    } else {
      UndoBase(t, p, ip, "", undo);
      assert t.portKeys - (KeysOf(added, ip) - undo.refused) == t.portKeys;
    }
  }

  function Registered(s: NetState, n: Network, name: string, ip: Addr): NetState {
    s.(records := if n.name == DEFAULT_NAME then s.records else Register(s.records, n.id, name, ip))
  }

  function DnsCleanups(n: Network, name: string): seq<Cleanup> {
    if n.name == DEFAULT_NAME then [] else [DeregisterOne(n.id, name)]
  }

  /** The clean-ups of a complete attempt. */
  lemma UndoRegistered(s: NetState, t: NetState, n: Network, o: nat, ip: Addr, added: seq<PortMapping>, veth: string,
                       name: string, undo: UndoEnv)
    requires n.BridgeNetwork? && FreeIn(s, n.subnet, o) && ip == OffsetToIP(n.subnet, o)
    requires t == s.(alloc := SetAlloc(s.alloc, n.subnet, AllocOf(s, n.subnet) + {o}), portKeys := t.portKeys)
    ensures UndoAll(Registered(t, n, name, ip),
                    [ReleaseIP(n.subnet, ip), DeleteVeth(veth)] + PortCleanups(added, ip) + DnsCleanups(n, name), undo)
            == s.(alloc := AllocLeft(s, n.subnet, o, ip, undo),
                  portKeys := t.portKeys - (KeysOf(added, ip) - undo.refused),
                  records := if n.name == DEFAULT_NAME then s.records
                             else Deregister(Register(s.records, n.id, name, ip), n.id, name))
  {
    var base := [ReleaseIP(n.subnet, ip), DeleteVeth(veth)] + PortCleanups(added, ip);
    if n.name == DEFAULT_NAME {
      assert base + DnsCleanups(n, name) == base;
      UndoAttempt(s, t, n.subnet, o, ip, added, veth, base, undo);
    } else {
      var u := Registered(t, n, name, ip);
      UndoLast(u, base, DeregisterOne(n.id, name), undo);
      UndoAttempt(s, Undo(u, DeregisterOne(n.id, name), undo), n.subnet, o, ip, added, veth, base, undo);
    }
  }
}
