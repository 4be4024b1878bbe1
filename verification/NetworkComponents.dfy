/** The components the network manager drives, each updating its own state: NAT rule maps, DNS
    records and the store's buckets (internal/network/nat.go, dns.go, internal/store/network.go). */
module NetworkComponents {
  import opened Wrappers
  import opened Addresses
  import opened Lookup
  import opened NetworkSpec

  // ----- NAT rules

  /** The keys of the rule maps; the kernel's rule handles are left out. */
  class NAT {
    var portMapRules: set<PortKey>
    var masqRules: set<Prefix>

    constructor ()
      ensures portMapRules == {} && masqRules == {}
    {
      portMapRules, masqRules := {}, {};
    }

    /** An existing rule is accepted silently, without a call into the kernel. */
    method AddPortMapping(pm: PortMapping, containerIP: Addr, flushOk: bool) returns (ok: bool)
      modifies this`portMapRules
      ensures ok <==> flushOk || KeyOf(pm, containerIP) in old(portMapRules)
      ensures portMapRules == if ok then old(portMapRules) + {KeyOf(pm, containerIP)} else old(portMapRules)
      ensures forall other: PortMapping, ip: Addr :: (other, ip) != (pm, containerIP) ==>
                (KeyOf(other, ip) in portMapRules <==> KeyOf(other, ip) in old(portMapRules))
    {
      var key := PortKey(pm.hostIP, containerIP, pm.protocol, pm.hostPort, pm.containerPort);
      if key in portMapRules {
        return true;
      }
      if !flushOk {
        return false;
      }
      portMapRules := portMapRules + {key};
      return true;
    }

    /** A rule the kernel refuses to delete keeps its key. */
    method RemovePortMapping(pm: PortMapping, containerIP: Addr, flushOk: bool) returns (ok: bool)
      modifies this`portMapRules
      ensures ok <==> flushOk || KeyOf(pm, containerIP) !in old(portMapRules)
      ensures portMapRules == if ok then old(portMapRules) - {KeyOf(pm, containerIP)} else old(portMapRules)
      ensures forall other: PortMapping, ip: Addr :: (other, ip) != (pm, containerIP) ==>
                (KeyOf(other, ip) in portMapRules <==> KeyOf(other, ip) in old(portMapRules))
    {
      var key := PortKey(pm.hostIP, containerIP, pm.protocol, pm.hostPort, pm.containerPort);
      if key !in portMapRules {
        return true;
      }
      if !flushOk {
        return false;
      }
      portMapRules := portMapRules - {key};
      return true;
    }

    method AddMasquerade(subnet: Prefix, flushOk: bool) returns (ok: bool)
      modifies this`masqRules
      ensures ok <==> flushOk || subnet in old(masqRules)
      ensures masqRules == if ok then old(masqRules) + {subnet} else old(masqRules)
    {
      if subnet in masqRules {
        return true;
      }
      if !flushOk {
        return false;
      }
      masqRules := masqRules + {subnet};
      return true;
    }

    method RemoveMasquerade(subnet: Prefix, flushOk: bool)
      modifies this`masqRules
      ensures masqRules == if flushOk then old(masqRules) - {subnet} else old(masqRules)
    {
      if subnet in masqRules && flushOk {
        masqRules := masqRules - {subnet};
      }
    }
  }

  // ----- DNS records

  class DNS {
    var records: DnsRecords

    constructor ()
      ensures records == map[]
    {
      records := map[];
    }

    method RegisterName(networkID: string, containerName: string, ip: Addr)
      modifies this
      ensures records == Register(old(records), networkID, containerName, ip)
    {
      if networkID !in records {
        records := records[networkID := map[]];
      }
      records := records[networkID := records[networkID][containerName := ip]];
    }

    method DeregisterName(networkID: string, containerName: string)
      modifies this
      ensures records == Deregister(old(records), networkID, containerName)
    {
      if networkID in records {
        var recs := records[networkID] - {containerName};
        if |recs| == 0 {
          records := records - {networkID};
        } else {
          records := records[networkID := recs];
        }
      }
    }

    method DeregisterNetwork(networkID: string)
      modifies this
      ensures records == old(records) - {networkID}
    {
      records := records - {networkID};
    }
  }

  // ----- The store

  class Store {
    var networks: Bucket<Network>
    var networkNames: map<string, string>
    var endpoints: Bucket<Endpoint>

    constructor ()
      ensures networks == [] && networkNames == map[] && endpoints == []
    {
      networks, networkNames, endpoints := [], map[], [];
    }

    method GetNetwork(idOrName: string) returns (r: Result<Network, LookupError>)
      ensures r == Resolve(Contents(networks), networkNames, [idOrName], idOrName)
    {
      r := GetRecord(networks, networkNames, [idOrName], idOrName);
    }

    /** Fails without effect when the name is taken, a key is empty, or the database does not commit. */
    method CreateNetwork(rec: Network, putOk: bool) returns (r: Result<(), CreateError>)
      modifies this`networks, this`networkNames
      ensures r == (if rec.name in old(networkNames) then Err(NameInUse)
                    else if !putOk || !ValidKeys(rec.id, rec.name) then Err(CreateFailed)
                    else Ok(()))
      ensures Contents(networks) == if r.Ok? then old(Contents(networks))[rec.id := rec] else old(Contents(networks))
      ensures networkNames == if r.Ok? then old(networkNames)[rec.name := rec.id] else old(networkNames)
    {
      if rec.name in networkNames {
        return Err(NameInUse);
      }
      if !putOk || !ValidKeys(rec.id, rec.name) {
        return Err(CreateFailed);
      }
      PutContents(networks, rec.id, rec);
      networks := Put(networks, rec.id, rec);
      networkNames := networkNames[rec.name := rec.id];
      return Ok(());
    }

    method DeleteNetwork(id: string, name: string)
      modifies this`networks, this`networkNames
      ensures Contents(networks) == old(Contents(networks)) - {id}
      ensures networkNames == if name == "" then old(networkNames) else old(networkNames) - {name}
    {
      DeleteContents(networks, id);
      networks := Delete(networks, id);
      if name != "" {
        networkNames := networkNames - {name};
      }
    }

    method ListNetworks() returns (recs: seq<Network>)
      ensures forall n :: n in recs <==> HasValue(Contents(networks), n)
    {
      recs := [];
      for i := 0 to |networks|
        invariant |recs| == i && forall j :: 0 <= j < i ==> recs[j] == networks[j].value
      {
        recs := recs + [networks[i].value];
      }
      forall n
        ensures n in recs <==> HasValue(Contents(networks), n)
      {
        ValueHasPosition(networks, n);
        assert forall j :: 0 <= j < |recs| ==> (recs[j] == n <==> ValueAt(networks, j, n));
      }
    }

    /** An existing endpoint of the same container and network is overwritten. */
    method CreateEndpoint(ep: Endpoint, putOk: bool) returns (ok: bool)
      modifies this`endpoints
      ensures ok == putOk
      ensures Contents(endpoints) ==
              if ok then old(Contents(endpoints))[EndpointKey(ep.networkID, ep.containerID) := ep]
                else old(Contents(endpoints))
    {
      if !putOk {
        return false;
      }
      PutContents(endpoints, EndpointKey(ep.networkID, ep.containerID), ep);
      endpoints := Put(endpoints, EndpointKey(ep.networkID, ep.containerID), ep);
      return true;
    }

    method GetEndpoint(networkID: string, containerID: string) returns (r: Option<Endpoint>)
      ensures var k := EndpointKey(networkID, containerID);
              r == if k in Contents(endpoints) then Some(Contents(endpoints)[k]) else None
    {
      r := Get(endpoints, EndpointKey(networkID, containerID));
    }

    method DeleteEndpoint(networkID: string, containerID: string, deleteOk: bool) returns (ok: bool)
      modifies this`endpoints
      ensures ok == deleteOk
      ensures Contents(endpoints) ==
              if ok then old(Contents(endpoints)) - {EndpointKey(networkID, containerID)} else old(Contents(endpoints))
    {
      if !deleteOk {
        return false;
      }
      DeleteContents(endpoints, EndpointKey(networkID, containerID));
      endpoints := Delete(endpoints, EndpointKey(networkID, containerID));
      return true;
    }

    /** The endpoints whose key starts with "{networkID}/". */
    method ListEndpoints(networkID: string) returns (eps: seq<Endpoint>)
      ensures forall ep :: ep in eps <==> HasValueUnder(Contents(endpoints), networkID + "/", ep)
    {
      var found := ListPrefix(endpoints, networkID + "/");
      eps := [];
      for i := 0 to |found|
        invariant |eps| == i && forall j :: 0 <= j < i ==> eps[j] == found[j].value
      {
        eps := eps + [found[i].value];
      }
      ContentsEntries(endpoints);
      forall ep | ep in eps
        ensures HasValueUnder(Contents(endpoints), networkID + "/", ep)
      {
        var j :| 0 <= j < |eps| && eps[j] == ep;
        assert found[j] in found;
        assert found[j].key in Contents(endpoints) && Contents(endpoints)[found[j].key] == ep;
      }
      forall k | k in Contents(endpoints) && networkID + "/" <= k
        ensures Contents(endpoints)[k] in eps
      {
        var e := Entry(k, Contents(endpoints)[k]);
        assert e in found;
        var j :| 0 <= j < |found| && found[j] == e;
        assert eps[j] == e.value;
      }
    }

    /** The endpoints of one container, in key order. */
    method ListContainerEndpoints(containerID: string) returns (eps: seq<Endpoint>)
      ensures forall ep :: ep in eps <==> ep.containerID == containerID && HasValue(Contents(endpoints), ep)
    {
      eps := [];
      for i := 0 to |endpoints|
        invariant forall ep ::
                    ep in eps <==> ep.containerID == containerID && exists j :: j < i && ValueAt(endpoints, j, ep)
      {
        ghost var before := eps;
        ghost var here := endpoints[i].value;
        if endpoints[i].value.containerID == containerID {
          eps := eps + [endpoints[i].value];
        }
        assert ValueAt(endpoints, i, here);
        assert forall ep, j :: ValueAt(endpoints, j, ep) && j < i + 1 ==> j < i || ep == here;
        assert forall ep :: ep in eps <==> ep in before || (ep == here && here.containerID == containerID);
      }
      forall ep
        ensures ep in eps <==> ep.containerID == containerID && HasValue(Contents(endpoints), ep)
      {
        ValueHasPosition(endpoints, ep);
        assert forall j :: ValueAt(endpoints, j, ep) ==> j < |endpoints|;
      }
    }
  }
}
