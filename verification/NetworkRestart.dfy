/** What the network manager's Init rebuilds from the store when the daemon starts again, and what
    it does not (internal/network/manager.go). */
module NetworkRestart {
  import opened Wrappers
  import opened Addresses
  import opened Lookup
  import opened NetworkSpec
  import opened NetworkInvariant
  import opened NetworkComponents
  import opened NetworkManager
  import opened DnsRestore

  /** restoreDNSEntries: a listing that fails is passed over in silence. */
  method RestoreDNSEntries(store: Store, dns: DNS, networkID: string, listOk: bool)
    returns (ghost listing: Option<Listing>)
    modifies dns
    ensures listing.Some? <==> listOk
    ensures listing.Some? ==>
              && listing.value.networkID == networkID
              && forall ep ::
                   ep in listing.value.endpoints <==> HasValueUnder(Contents(store.endpoints), networkID + "/", ep)
    ensures dns.records ==
            if listing.Some? then RestoreEndpoints(old(dns.records), networkID, listing.value.endpoints)
            else old(dns.records)
  {
    if !listOk {
      return None;
    }
    var endpoints := store.ListEndpoints(networkID);
    listing := Some(Listing(networkID, endpoints));
    for i := 0 to |endpoints|
      invariant RestoreEndpoints(dns.records, networkID, endpoints[i..])
                == RestoreEndpoints(old(dns.records), networkID, endpoints)
    {
      assert endpoints[i..][0] == endpoints[i] && endpoints[i..][1..] == endpoints[i + 1..];
      ghost var before := dns.records;
      RegisterEach(dns, networkID, endpoints[i].dnsNames, endpoints[i].ip);
      assert dns.records == RegisterNames(before, networkID, endpoints[i].dnsNames, endpoints[i].ip);
    }
    assert endpoints[|endpoints|..] == [];
  }

  method RegisterEach(dns: DNS, networkID: string, names: seq<string>, ip: Addr)
    modifies dns
    ensures dns.records == RegisterNames(old(dns.records), networkID, names, ip)
  {
    for i := 0 to |names|
      invariant RegisterNames(dns.records, networkID, names[i..], ip)
                == RegisterNames(old(dns.records), networkID, names, ip)
    {
      assert names[i..][0] == names[i] && names[i..][1..] == names[i + 1..];
      dns.RegisterName(networkID, names[i], ip);
    }
    assert names[|names|..] == [];
  }

  /** The network's bridge is there again, and it takes part in the restore. */
  predicate Recreated(rec: Network, bridgeFails: set<string>) {
    rec.BridgeNetwork? && rec.id !in bridgeFails
  }

  /** And its records are restored; `missing` has the networks whose bridge or listing fails. */
  predicate Resolvable(rec: Network, missing: set<string>) {
    Recreated(rec, missing) && rec.name != DEFAULT_NAME
  }

  /** The networks whose records are restored, in the order seen. */
  function RestoredIDs(recs: seq<Network>, missing: set<string>): seq<string> {
    if recs == [] then []
    else
      RestoredIDs(recs[..|recs| - 1], missing)
      + if Resolvable(recs[|recs| - 1], missing) then [recs[|recs| - 1].id] else []
  }

  lemma {:induction false} RestoredIDsAre(recs: seq<Network>, missing: set<string>, nid: string)
    ensures nid in RestoredIDs(recs, missing)
            <==> exists rec :: rec in recs && Resolvable(rec, missing) && rec.id == nid
  {
    if recs != [] {
      var init, last := recs[..|recs| - 1], recs[|recs| - 1];
      assert recs == init + [last];
      RestoredIDsAre(init, missing, nid);
      if nid in RestoredIDs(init, missing) {
        var rec :| rec in init && Resolvable(rec, missing) && rec.id == nid;
        assert rec in recs;
      }
    }
  }

  /** One listing for each of these networks. */
  ghost predicate ListingsFor(ids: seq<string>, endpoints: map<string, Endpoint>, listings: seq<Listing>) {
    && |listings| == |ids|
    && forall i :: 0 <= i < |ids| ==> listings[i].networkID == ids[i] && ListingFor(endpoints, listings[i])
  }

  ghost predicate ListingFor(endpoints: map<string, Endpoint>, l: Listing) {
    forall ep :: ep in l.endpoints <==> HasValueUnder(endpoints, l.networkID + "/", ep)
  }

  /** The masquerade rules that can be added again. */
  function Masqueraded(recs: seq<Network>, bridgeFails: set<string>, masqFails: set<Prefix>): set<Prefix> {
    if recs == [] then {}
    else
      var rec := recs[|recs| - 1];
      Masqueraded(recs[..|recs| - 1], bridgeFails, masqFails)
      + if Recreated(rec, bridgeFails) && rec.subnet !in masqFails then {rec.subnet} else {}
  }

  /** What fails while Init goes through the networks. */
  datatype RestartFails = RestartFails(bridges: set<string>, listings: set<string>, rules: set<Prefix>)

  /** The networks whose records are not restored. */
  function Missing(fails: RestartFails): set<string> {
    fails.bridges + fails.listings
  }

  /** One round of Init's loop. */
  method RestoreNetwork(rec: Network, store: Store, natRules: NAT, dns: DNS, fails: RestartFails)
    returns (ghost listing: Option<Listing>)
    modifies natRules, dns
    ensures natRules.portMapRules == old(natRules.portMapRules)
    ensures natRules.masqRules == old(natRules.masqRules) + Masqueraded([rec], fails.bridges, fails.rules)
    ensures listing.Some? <==> Resolvable(rec, Missing(fails))
    ensures listing.Some? ==> listing.value.networkID == rec.id && ListingFor(Contents(store.endpoints), listing.value)
    ensures dns.records ==
            if listing.Some? then RestoreEndpoints(old(dns.records), rec.id, listing.value.endpoints)
            else old(dns.records)
  {
    listing := None;
    assert [rec][..0] == [];
    if !rec.BridgeNetwork? || rec.id in fails.bridges {
      return;
    }
    var _ := natRules.AddMasquerade(rec.subnet, rec.subnet !in fails.rules);
    if rec.name != DEFAULT_NAME {
      listing := RestoreDNSEntries(store, dns, rec.id, rec.id !in fails.listings);
    }
  }

  /** The loop of Init over the stored networks: `fails` says which bridges and rules cannot
      be set up again, and which endpoints cannot be listed. */
  method RestoreNetworks(store: Store, natRules: NAT, dns: DNS, fails: RestartFails)
    returns (ghost recs: seq<Network>, ghost listings: seq<Listing>)
    modifies natRules, dns
    ensures forall n :: n in recs <==> HasValue(Contents(store.networks), n)
    ensures ListingsFor(RestoredIDs(recs, Missing(fails)), Contents(store.endpoints), listings)
    ensures natRules.portMapRules == old(natRules.portMapRules)
    ensures natRules.masqRules == old(natRules.masqRules) + Masqueraded(recs, fails.bridges, fails.rules)
    ensures dns.records == RestoreAll(old(dns.records), listings)
  {
    var networks := store.ListNetworks();
    recs, listings := networks, [];
    ghost var endpoints, rules, records := Contents(store.endpoints), natRules.masqRules, dns.records;
    for i := 0 to |networks|
      invariant ListingsFor(RestoredIDs(networks[..i], Missing(fails)), endpoints, listings)
      invariant natRules.portMapRules == old(natRules.portMapRules)
      invariant natRules.masqRules == rules + Masqueraded(networks[..i], fails.bridges, fails.rules)
      invariant dns.records == RestoreAll(records, listings)
    {
      ghost var l := RestoreNetwork(networks[i], store, natRules, dns, fails);
      MasqueradedStep(networks, i, fails.bridges, fails.rules);
      assert networks[..i + 1][..i] == networks[..i];
      if l.Some? {
        RestoreOneMore(records, listings, l.value);
        listings := listings + [l.value];
      }
    }
    assert networks[..|networks|] == networks;
  }

  lemma MasqueradedStep(recs: seq<Network>, i: nat, bridgeFails: set<string>, masqFails: set<Prefix>)
    requires i < |recs|
    ensures Masqueraded(recs[..i + 1], bridgeFails, masqFails)
            == Masqueraded(recs[..i], bridgeFails, masqFails) + Masqueraded([recs[i]], bridgeFails, masqFails)
  {
    assert recs[..i + 1][..i] == recs[..i];
    assert [recs[i]][..0] == [];
  }

  lemma {:induction false} RestoreOneMore(r: DnsRecords, listings: seq<Listing>, l: Listing)
    ensures RestoreAll(r, listings + [l]) == RestoreEndpoints(RestoreAll(r, listings), l.networkID, l.endpoints)
    decreases |listings|
  {
    if listings == [] {
      assert ([] + [l])[1..] == [];
    } else {
      assert (listings + [l])[1..] == listings[1..] + [l];
      RestoreOneMore(RestoreEndpoints(r, listings[0].networkID, listings[0].endpoints), listings[1..], l);
    }
  }

  // ----- The state after a restart

  /** The records seen are those of the bucket: a record is filed under its own ID. */
  ghost predicate StoredNetworks(s: NetState, recs: seq<Network>) {
    forall n :: n in recs <==> HasValue(s.networks, n)
  }

  lemma StoredByID(s: NetState, recs: seq<Network>, rec: Network)
    requires NetworksIndexed(s) && StoredNetworks(s, recs)
    ensures rec in recs <==> rec.id in s.networks && s.networks[rec.id] == rec
  {
    if rec in recs {
      assert HasValue(s.networks, rec);
      var k :| k in s.networks && s.networks[k] == rec;
      assert k == rec.id;
    }
    if rec.id in s.networks && s.networks[rec.id] == rec {
      assert HasValue(s.networks, rec);
    }
  }

  /** Listing by the prefix "{networkID}/" gives the endpoints of that network. */
  lemma ListingIsNetworks(s: NetState, l: Listing)
    requires NetworksIndexed(s) && EndpointsPlaced(s) && NoSlash(l.networkID) && ListingFor(s.endpoints, l)
    ensures Lists(s, l)
  {
    forall ep
      ensures ep in l.endpoints <==> ep.networkID == l.networkID && exists k :: k in s.endpoints && s.endpoints[k] == ep
    {
      assert ep in l.endpoints <==> HasValueUnder(s.endpoints, l.networkID + "/", ep);
      if k :| k in s.endpoints && s.endpoints[k] == ep {
        assert Placed(s, k);
        PrefixNamesNetwork(l.networkID, ep.networkID, ep.containerID);
      }
    }
  }

  lemma RestoredAreUserDefined(s: NetState, recs: seq<Network>, missing: set<string>, nid: string)
    requires NetworksIndexed(s) && StoredNetworks(s, recs)
    ensures nid in RestoredIDs(recs, missing) <==> UserDefined(s, nid) && nid !in missing
  {
    RestoredIDsAre(recs, missing, nid);
    if nid in RestoredIDs(recs, missing) {
      var rec :| rec in recs && Resolvable(rec, missing) && rec.id == nid;
      StoredByID(s, recs, rec);
    }
    if UserDefined(s, nid) {
      StoredByID(s, recs, s.networks[nid]);
    }
  }

  /** The DNS records of a daemon that starts on the store of a coherent one are the ones that one had,
      without those missing. */
  lemma RestartRestoresRecords(s: NetState, recs: seq<Network>, missing: set<string>, listings: seq<Listing>)
    requires Coherent(s) && StoredNetworks(s, recs)
    requires ListingsFor(RestoredIDs(recs, missing), s.endpoints, listings)
    ensures RestoreAll(map[], listings) == s.records - missing
  {
    var ids := RestoredIDs(recs, missing);
    forall nid ensures nid in ids <==> UserDefined(s, nid) && nid !in missing {
      RestoredAreUserDefined(s, recs, missing, nid);
    }
    forall l | l in listings ensures UserDefined(s, l.networkID) && l.networkID !in missing && Lists(s, l) {
      var i :| 0 <= i < |listings| && listings[i] == l;
      assert ids[i] in ids;
      ListingIsNetworks(s, l);
    }
    forall nid | UserDefined(s, nid) && nid !in missing ensures exists l :: l in listings && l.networkID == nid {
      assert nid in ids;
      var i :| 0 <= i < |listings| && ids[i] == nid;
      assert listings[i] in listings;
    }
    RestoreGivesRecords(s, missing, listings);
  }

  lemma {:induction false} MasqueradedAre(recs: seq<Network>, bridgeFails: set<string>, masqFails: set<Prefix>,
                                          p: Prefix)
    ensures p in Masqueraded(recs, bridgeFails, masqFails)
            <==> p !in masqFails && exists rec :: rec in recs && Recreated(rec, bridgeFails) && rec.subnet == p
  {
    if recs != [] {
      var init, last := recs[..|recs| - 1], recs[|recs| - 1];
      assert recs == init + [last];
      MasqueradedAre(init, bridgeFails, masqFails, p);
      if p in Masqueraded(init, bridgeFails, masqFails) {
        var rec :| rec in init && Recreated(rec, bridgeFails) && rec.subnet == p;
        assert rec in recs;
      }
      if Recreated(last, bridgeFails) && last.subnet == p {
        assert last in recs;
      }
    }
  }

  // ----- A restart

  /** What is left of the state `s` of a stopped daemon, and what Init rebuilds from it. */
  ghost predicate Restarted(s: NetState, t: NetState, fails: RestartFails,
                            recs: seq<Network>, listings: seq<Listing>)
  {
    && StoredNetworks(s, recs)
    && ListingsFor(RestoredIDs(recs, Missing(fails)), s.endpoints, listings)
    && t == s.(portKeys := {}, masq := Masqueraded(recs, fails.bridges, fails.rules),
               records := RestoreAll(map[], listings))
  }

  /** A new manager on the store of a stopped one, through the loop of Init. */
  method Restart(stopped: Manager, fails: RestartFails)
    returns (m: Manager, ghost recs: seq<Network>, ghost listings: seq<Listing>)
    ensures Restarted(old(stopped.View()), m.View(), fails, recs, listings)
  {
    m := new Manager.OnStore(stopped.store, stopped.ipam);
    recs, listings := RestoreNetworks(m.store, m.natRules, m.dns, fails);
  }

  /** Whatever cannot be set up again, a restart leaves the masquerade rules right exactly when the
      networks whose rule is added are those that are not internal: the loop does not look. */
  lemma RestartMasqueradeExactly(s: NetState, t: NetState, fails: RestartFails,
                                 recs: seq<Network>, listings: seq<Listing>)
    requires Coherent(s) && Restarted(s, t, fails, recs, listings)
    ensures MasqueradeExact(t)
            <==> forall id :: IsBridge(s, id) ==>
              (id !in fails.bridges && s.networks[id].subnet !in fails.rules <==> !s.networks[id].internal)
  {
    assert forall id :: IsBridge(t, id) <==> IsBridge(s, id);
    forall id | IsBridge(s, id)
      ensures s.networks[id].subnet in t.masq <==> id !in fails.bridges && s.networks[id].subnet !in fails.rules
    {
      RuleOf(s, fails.bridges, fails.rules, recs, id);
    }
    forall p | p in t.masq ensures exists id :: IsBridge(s, id) && s.networks[id].subnet == p {
      MasqueradedAre(recs, fails.bridges, fails.rules, p);
      var rec :| rec in recs && Recreated(rec, fails.bridges) && rec.subnet == p;
      StoredByID(s, recs, rec);
      assert IsBridge(s, rec.id);
    }
    RulesPerNetwork(s, t);
  }

  lemma RuleOf(s: NetState, bridgeFails: set<string>, masqFails: set<Prefix>, recs: seq<Network>, id: string)
    requires NetworksIndexed(s) && SubnetsApart(s) && StoredNetworks(s, recs) && IsBridge(s, id)
    ensures s.networks[id].subnet in Masqueraded(recs, bridgeFails, masqFails)
            <==> id !in bridgeFails && s.networks[id].subnet !in masqFails
  {
    var p := s.networks[id].subnet;
    MasqueradedAre(recs, bridgeFails, masqFails, p);
    StoredByID(s, recs, s.networks[id]);
    if rec :| rec in recs && Recreated(rec, bridgeFails) && rec.subnet == p {
      StoredByID(s, recs, rec);
      SubnetOwner(s, rec.id, id);
    }
  }

  /** With subnets apart, exactness of the rules is a matter of each network by itself. */
  lemma RulesPerNetwork(s: NetState, t: NetState)
    requires SubnetsApart(s) && t.networks == s.networks
    requires forall p :: p in t.masq ==> exists id :: IsBridge(s, id) && s.networks[id].subnet == p
    ensures MasqueradeExact(t)
            <==> forall id :: IsBridge(s, id) ==> (s.networks[id].subnet in t.masq <==> !s.networks[id].internal)
  {
    assert forall id :: IsBridge(t, id) <==> IsBridge(s, id);
    forall i, j | IsBridge(s, i) && IsBridge(s, j) && s.networks[i].subnet == s.networks[j].subnet
      ensures i == j
    {
      SubnetOwner(s, i, j);
    }
  }

  /** A restart keeps the state coherent exactly when no port was published and no network whose
      bridge or listing fails carries a named endpoint: port rules are not rebuilt. */
  lemma RestartCoherentExactly(s: NetState, t: NetState, fails: RestartFails, recs: seq<Network>,
                               listings: seq<Listing>)
    requires Coherent(s) && Restarted(s, t, fails, recs, listings)
    ensures t.records == s.records - Missing(fails)
    ensures Coherent(t) <==> s.portKeys == {} && forall id <- Missing(fails) :: id !in s.records
  {
    RestartRestoresRecords(s, recs, Missing(fails), listings);
    assert NetworksIndexed(t) && SubnetsApart(t) && AddressesUnique(t);
    assert EndpointsPlaced(t) by {
      forall k | k in t.endpoints ensures Placed(t, k) { assert Placed(s, k); }
    }
    assert AllocationExact(t) by {
      SameAllocation(s, t);
    }
    assert PortsExact(t) <==> s.portKeys == {} by {
      assert forall pk :: Wanted(t, pk) <==> Wanted(s, pk);
    }
    assert DnsExact(t) <==> forall id <- Missing(fails) :: id !in s.records by {
      FewerRecords(s, t, Missing(fails));
    }
  }

  lemma SameAllocation(s: NetState, t: NetState)
    requires AllocationExact(s) && t == s.(portKeys := t.portKeys, masq := t.masq, records := t.records)
    ensures AllocationExact(t)
  {
    assert forall i, x, j :: TakenBy(t, i, x, j) <==> TakenBy(s, i, x, j);
    assert forall i, x :: Taken(t, i, x) <==> Taken(s, i, x);
  }

  lemma FewerRecords(s: NetState, t: NetState, missing: set<string>)
    requires DnsExact(s) && t == s.(portKeys := t.portKeys, masq := t.masq, records := s.records - missing)
    ensures DnsExact(t) <==> forall id <- missing :: id !in s.records
  {
    assert forall k, nid, name :: Carries(t, k, nid, name) <==> Carries(s, k, nid, name);
    if forall id <- missing :: id !in s.records {
      assert s.records - missing == s.records;
    } else {
      var id :| id in missing && id in s.records;
      var name :| name in s.records[id];
      assert Recorded(s.records, id, name) && !Recorded(t.records, id, name);
      var k :| Carries(s, k, id, name);
      assert Carries(t, k, id, name);
    }
  }
}
