/** Rebuilding the DNS records from the stored endpoints when the daemon starts
    (restoreDNSEntries in internal/network/manager.go). */
module DnsRestore {
  import opened Addresses
  import opened NetworkSpec
  import opened NetworkInvariant

  function RegisterNames(r: DnsRecords, nid: string, names: seq<string>, ip: Addr): DnsRecords
    decreases |names|
  {
    if names == [] then r else RegisterNames(Register(r, nid, names[0], ip), nid, names[1..], ip)
  }

  function RestoreEndpoints(r: DnsRecords, nid: string, eps: seq<Endpoint>): DnsRecords
    decreases |eps|
  {
    if eps == [] then r else RestoreEndpoints(RegisterNames(r, nid, eps[0].dnsNames, eps[0].ip), nid, eps[1..])
  }

  /** One listing of endpoints for each user-defined network. */
  datatype Listing = Listing(networkID: string, endpoints: seq<Endpoint>)

  function RestoreAll(r: DnsRecords, listings: seq<Listing>): DnsRecords
    decreases |listings|
  {
    if listings == [] then r
    else RestoreAll(RestoreEndpoints(r, listings[0].networkID, listings[0].endpoints), listings[1..])
  }

  /** What ListEndpoints returns for the network, in any order. */
  ghost predicate Lists(s: NetState, l: Listing) {
    forall ep ::
      ep in l.endpoints <==> ep.networkID == l.networkID && exists k :: k in s.endpoints && s.endpoints[k] == ep
  }

  /** One listing at least for each user-defined network, those with a failed bridge left out. */
  ghost predicate ListsAllBut(s: NetState, failed: set<string>, listings: seq<Listing>) {
    && (forall l :: l in listings ==> UserDefined(s, l.networkID) && l.networkID !in failed && Lists(s, l))
    && (forall nid :: UserDefined(s, nid) && nid !in failed ==> exists l :: l in listings && l.networkID == nid)
  }

  // ----- Growing towards the live records

  /** r holds part of the records of full. */
  ghost predicate PartOf(r: DnsRecords, full: DnsRecords) {
    && NoEmptyRecords(r)
    && forall i, x :: Recorded(r, i, x) ==> Recorded(full, i, x) && r[i][x] == full[i][x]
  }

  ghost predicate Grows(r: DnsRecords, d: DnsRecords) {
    forall i, x :: Recorded(r, i, x) ==> Recorded(d, i, x)
  }

  lemma RegisterPart(r: DnsRecords, full: DnsRecords, nid: string, name: string, ip: Addr)
    requires PartOf(r, full) && Recorded(full, nid, name) && full[nid][name] == ip
    ensures PartOf(Register(r, nid, name, ip), full) && Grows(r, Register(r, nid, name, ip))
    ensures Recorded(Register(r, nid, name, ip), nid, name)
  {
    assert name in Register(r, nid, name, ip)[nid];
  }

  lemma {:induction false} RegisterNamesPart(r: DnsRecords, full: DnsRecords, nid: string, names: seq<string>, ip: Addr)
    requires PartOf(r, full)
    requires forall x :: x in names ==> Recorded(full, nid, x) && full[nid][x] == ip
    ensures var d := RegisterNames(r, nid, names, ip);
            PartOf(d, full) && Grows(r, d) && forall x :: x in names ==> Recorded(d, nid, x)
    decreases |names|
  {
    if names != [] {
      RegisterPart(r, full, nid, names[0], ip);
      RegisterNamesPart(Register(r, nid, names[0], ip), full, nid, names[1..], ip);
      assert names == [names[0]] + names[1..];
    }
  }

  /** The records of the endpoint agree with the full map. */
  ghost predicate Agrees(full: DnsRecords, ep: Endpoint) {
    forall x :: x in ep.dnsNames ==> Recorded(full, ep.networkID, x) && full[ep.networkID][x] == ep.ip
  }

  ghost predicate Covers(d: DnsRecords, ep: Endpoint) {
    forall x :: x in ep.dnsNames ==> Recorded(d, ep.networkID, x)
  }

  lemma {:induction false} RestoreEndpointsPart(r: DnsRecords, full: DnsRecords, nid: string, eps: seq<Endpoint>)
    requires PartOf(r, full)
    requires forall ep :: ep in eps ==> ep.networkID == nid && Agrees(full, ep)
    ensures var d := RestoreEndpoints(r, nid, eps);
            PartOf(d, full) && Grows(r, d) && forall ep :: ep in eps ==> Covers(d, ep)
    decreases |eps|
  {
    if eps != [] {
      assert eps[0] in eps;
      RegisterNamesPart(r, full, nid, eps[0].dnsNames, eps[0].ip);
      var d := RegisterNames(r, nid, eps[0].dnsNames, eps[0].ip);
      RestoreEndpointsPart(d, full, nid, eps[1..]);
      assert Covers(d, eps[0]);
      assert eps == [eps[0]] + eps[1..];
    }
  }

  lemma {:induction false} RestoreAllPart(r: DnsRecords, full: DnsRecords, listings: seq<Listing>)
    requires PartOf(r, full)
    requires forall l, ep :: l in listings && ep in l.endpoints ==> ep.networkID == l.networkID && Agrees(full, ep)
    ensures var d := RestoreAll(r, listings);
            PartOf(d, full) && Grows(r, d) && forall l, ep :: l in listings && ep in l.endpoints ==> Covers(d, ep)
    decreases |listings|
  {
    if listings != [] {
      var l := listings[0];
      assert l in listings;
      RestoreEndpointsPart(r, full, l.networkID, l.endpoints);
      var d := RestoreEndpoints(r, l.networkID, l.endpoints);
      RestoreAllPart(d, full, listings[1..]);
      assert listings == [l] + listings[1..];
    }
  }

  lemma MutualEntry(r: DnsRecords, full: DnsRecords, i: string)
    requires PartOf(r, full) && PartOf(full, r) && i in r
    ensures i in full && r[i] == full[i]
  {
    var x :| x in r[i];
    assert Recorded(r, i, x);
    assert forall y :: Recorded(r, i, y) <==> Recorded(full, i, y);
    assert forall y :: y in r[i] <==> y in full[i];
  }

  lemma MutualParts(r: DnsRecords, full: DnsRecords)
    requires PartOf(r, full) && PartOf(full, r)
    ensures r == full
  {
    forall i | i in r
      ensures i in full && r[i] == full[i]
    {
      MutualEntry(r, full, i);
    }
    forall i | i in full
      ensures i in r
    {
      MutualEntry(full, r, i);
    }
  }

  lemma ListedAgrees(s: NetState, failed: set<string>, l: Listing, ep: Endpoint)
    requires DnsExact(s) && UserDefined(s, l.networkID) && l.networkID !in failed && Lists(s, l) && ep in l.endpoints
    ensures ep.networkID == l.networkID && Agrees(s.records - failed, ep)
  {
    var k :| k in s.endpoints && s.endpoints[k] == ep;
    assert forall x :: x in ep.dnsNames ==> Carries(s, k, ep.networkID, x);
  }

  lemma RecordedIsCovered(s: NetState, failed: set<string>, listings: seq<Listing>, d: DnsRecords, i: string, x: string)
    requires DnsExact(s) && ListsAllBut(s, failed, listings) && Recorded(s.records, i, x) && i !in failed
    requires forall l, ep :: l in listings && ep in l.endpoints ==> Covers(d, ep)
    ensures Recorded(d, i, x)
  {
    var k :| Carries(s, k, i, x);
    var l :| l in listings && l.networkID == i;
    assert Lists(s, l);
    assert s.endpoints[k] in l.endpoints;
    assert Covers(d, s.endpoints[k]);
  }

  /** Rebuilt from nothing, the records are exactly those of the running daemon, without the networks
      whose bridge failed. */
  lemma RestoreGivesRecords(s: NetState, failed: set<string>, listings: seq<Listing>)
    requires Coherent(s) && ListsAllBut(s, failed, listings)
    ensures RestoreAll(map[], listings) == s.records - failed
  {
    var full, d := s.records - failed, RestoreAll(map[], listings);
    forall l, ep | l in listings && ep in l.endpoints
      ensures ep.networkID == l.networkID && Agrees(full, ep)
    {
      ListedAgrees(s, failed, l, ep);
    }
    RestoreAllPart(map[], full, listings);
    forall i, x | Recorded(full, i, x)
      ensures Recorded(d, i, x)
    {
      RecordedIsCovered(s, failed, listings, d, i, x);
    }
    MutualParts(d, full);
  }
}
