/** Disconnecting when calls inside it fail, and disconnecting a container everywhere
    (internal/network/manager.go). */
module NetworkDisconnect {
  import opened Wrappers
  import opened Addresses
  import opened Lookup
  import opened NetworkSpec
  import opened NetworkInvariant

  // ----- Calls that fail inside a disconnect

  /** Nothing fails; or everything does that would have changed something. */
  ghost predicate Harmless(s: NetState, nid: string, cid: string, env: DisconnectEnv) {
    var k := EndpointKey(nid, cid);
    k in s.endpoints ==>
      var ep := s.endpoints[k];
      var keys := KeysOf(ep.portMappings, ep.ip);
      if env.deleteOk then env.releaseOk && keys !! env.refused
      else !env.releaseOk && keys <= env.refused && (UserDefined(s, nid) ==> ep.dnsNames == [])
  }

  /** The state after a disconnect of an endpoint that is there, by component. */
  lemma DisconnectWithFound(s: NetState, nid: string, cid: string, force: bool, env: DisconnectEnv)
    requires IsBridge(s, nid) && EndpointKey(nid, cid) in s.endpoints
    ensures var k := EndpointKey(nid, cid);
            var ep := s.endpoints[k];
            var t := DisconnectWith(s, nid, cid, force, env).0;
            && t.networks == s.networks && t.names == s.names && t.masq == s.masq
            && t.endpoints == (if env.deleteOk then s.endpoints - {k} else s.endpoints)
            && t.portKeys == s.portKeys - (KeysOf(ep.portMappings, ep.ip) - env.refused)
            && t.records == DeregisterEach(s.records, nid, ep.dnsNames)
            && t.alloc == if env.releaseOk then ReleaseIn(s.alloc, s.networks[nid].subnet, ep.ip) else s.alloc
  {
    assert ResolveNetwork(s, nid) == Ok(s.networks[nid]);
  }

  /** The bridge endpoint j of `v` was disconnected and `u` is left. */
  ghost predicate Dropped(v: NetState, u: NetState, j: string, env: DisconnectEnv)
    requires j in v.endpoints
  {
    var ep := v.endpoints[j];
    && IsBridge(v, ep.networkID)
    && u.networks == v.networks && u.names == v.names
    && u.endpoints == (if env.deleteOk then v.endpoints - {j} else v.endpoints)
    && u.portKeys == v.portKeys - (KeysOf(ep.portMappings, ep.ip) - env.refused)
    && u.alloc == (if env.releaseOk then ReleaseIn(v.alloc, v.networks[ep.networkID].subnet, ep.ip) else v.alloc)
    && NoEmptyRecords(u.records)
    && forall i, x :: EntryKept(v.records, u.records, ep.networkID, ep.dnsNames, i, x)
  }

  lemma DisconnectDrops(v: NetState, nid: string, cid: string, force: bool, env: DisconnectEnv)
    requires IsBridge(v, nid) && NoEmptyRecords(v.records)
    requires EndpointKey(nid, cid) in v.endpoints && v.endpoints[EndpointKey(nid, cid)].networkID == nid
    ensures Dropped(v, DisconnectWith(v, nid, cid, force, env).0, EndpointKey(nid, cid), env)
  {
    DisconnectWithFound(v, nid, cid, force, env);
    DeregisterEachRemoves(v.records, nid, v.endpoints[EndpointKey(nid, cid)].dnsNames);
  }

  /** What a disconnect reports: an absent endpoint, unless forced; a deletion that failed; nothing else. */
  lemma DisconnectReports(s: NetState, nid: string, cid: string, force: bool, env: DisconnectEnv)
    ensures var r := DisconnectWith(s, nid, cid, force, env).1;
            && (r == Err(EndpointNotFound) <==> !force && nid + "/" + cid !in s.endpoints)
            && (r == Err(EndpointKept) <==> nid + "/" + cid in s.endpoints && !env.deleteOk)
  {
  }

  lemma {:induction false} DeregisterAbsent(r: DnsRecords, nid: string, names: seq<string>)
    requires nid !in r
    ensures DeregisterEach(r, nid, names) == r
    decreases |names|
  {
    if names != [] {
      DeregisterAbsent(r, nid, names[1..]);
    }
  }

  /** Whatever fails inside a disconnect, the state stays coherent exactly when nothing fails, or when
      everything does that would have changed something. */
  lemma DisconnectKeepsCoherentExactly(s: NetState, nid: string, cid: string, force: bool, env: DisconnectEnv)
    requires Coherent(s)
    ensures Coherent(DisconnectWith(s, nid, cid, force, env).0) <==> Harmless(s, nid, cid, env)
  {
    var k := EndpointKey(nid, cid);
    if k in s.endpoints {
      FoundUnderItsNetwork(s, nid, cid);
      assert Placed(s, k);
      if Harmless(s, nid, cid, env) {
        HarmlessDisconnect(s, nid, cid, force, env);
      } else {
        var flaw := HarmfulDisconnect(s, nid, cid, force, env);
        FlawedIncoherent(s, DisconnectWith(s, nid, cid, force, env).0, k, flaw);
      }
    }
  }

  lemma HarmlessDisconnect(s: NetState, nid: string, cid: string, force: bool, env: DisconnectEnv)
    requires Coherent(s) && IsBridge(s, nid) && EndpointKey(nid, cid) in s.endpoints && Harmless(s, nid, cid, env)
    ensures Coherent(DisconnectWith(s, nid, cid, force, env).0)
  {
    var ep := s.endpoints[EndpointKey(nid, cid)];
    var keys := KeysOf(ep.portMappings, ep.ip);
    DisconnectWithFound(s, nid, cid, force, env);
    if env.deleteOk {
      DisconnectFound(s, nid, cid, force);
      assert keys - env.refused == keys;
      assert DisconnectWith(s, nid, cid, force, env).0 == Disconnect(s, nid, cid, force).0;
      DisconnectKeepsCoherent(s, nid, cid, force);
    } else {
      assert keys - env.refused == {};
      if !UserDefined(s, nid) {
        NoDefaultRecords(s, nid);
        DeregisterAbsent(s.records, nid, ep.dnsNames);
      }
      assert DisconnectWith(s, nid, cid, force, env).0 == s;
    }
  }

  // ----- What a harmful failure leaves behind

  /** An offset without its endpoint, an endpoint without its offset, a rule nobody wants, a rule or a
      name that is missing. */
  datatype Flaw =
    | Leaked(o: nat)
    | Unallocated(o: nat)
    | StaleRule(pk: PortKey)
    | MissingRule(pk: PortKey)
    | MissingName(x: string)

  /** `v` has no endpoint that `s` does not have. */
  ghost predicate Reduced(s: NetState, v: NetState) {
    && v.networks == s.networks && v.names == s.names && NoEmptyRecords(v.records)
    && forall j :: j in v.endpoints ==> j in s.endpoints && v.endpoints[j] == s.endpoints[j]
  }

  /** Endpoint `k` of `s` shows the flaw in `v`. */
  ghost predicate Shows(s: NetState, v: NetState, k: string, flaw: Flaw)
    requires k in s.endpoints && IsBridge(s, s.endpoints[k].networkID)
  {
    var ep := s.endpoints[k];
    var nid := ep.networkID;
    match flaw
    case Leaked(o) => TakenBy(s, nid, o, k) && k !in v.endpoints && o in AllocOf(v, s.networks[nid].subnet)
    case Unallocated(o) => TakenBy(s, nid, o, k) && k in v.endpoints && o !in AllocOf(v, s.networks[nid].subnet)
    case StaleRule(pk) => pk in KeysOf(ep.portMappings, ep.ip) && k !in v.endpoints && pk in v.portKeys
    case MissingRule(pk) => pk in KeysOf(ep.portMappings, ep.ip) && k in v.endpoints && pk !in v.portKeys
    case MissingName(x) => UserDefined(s, nid) && x in ep.dnsNames && k in v.endpoints && !Recorded(v.records, nid, x)
  }

  ghost predicate Flawed(s: NetState, v: NetState, k: string, flaw: Flaw)
    requires k in s.endpoints
  {
    IsBridge(s, s.endpoints[k].networkID) && Reduced(s, v) && Shows(s, v, k, flaw)
  }

  lemma FlawedIncoherent(s: NetState, v: NetState, k: string, flaw: Flaw)
    requires SubnetsApart(s) && AddressesUnique(s) && k in s.endpoints && Flawed(s, v, k, flaw)
    ensures !Coherent(v)
  {
    var nid := s.endpoints[k].networkID;
    assert IsBridge(v, nid);
    match flaw
    case Leaked(o) =>
      assert !Taken(v, nid, o) by {
        forall j ensures !TakenBy(v, nid, o, j) {
          if TakenBy(v, nid, o, j) {
            TakenOnce(s, nid, o, j, k);
          }
        }
      }
      assert o in AllocOf(v, v.networks[nid].subnet);
    case Unallocated(o) =>
      assert TakenBy(v, nid, o, k) && Taken(v, nid, o);
    case StaleRule(pk) =>
      assert forall j :: j in v.endpoints ==> pk.containerIP != v.endpoints[j].ip;
      assert !Wanted(v, pk);
    case MissingRule(pk) =>
      assert Wanted(v, pk);
    case MissingName(x) =>
      assert Carries(v, k, nid, x);
  }

  /** A failure that is not harmless leaves a flaw. */
  lemma HarmfulDisconnect(s: NetState, nid: string, cid: string, force: bool, env: DisconnectEnv) returns (flaw: Flaw)
    requires Coherent(s) && IsBridge(s, nid) && EndpointKey(nid, cid) in s.endpoints && !Harmless(s, nid, cid, env)
    requires s.endpoints[EndpointKey(nid, cid)].networkID == nid
    ensures Flawed(s, DisconnectWith(s, nid, cid, force, env).0, EndpointKey(nid, cid), flaw)
  {
    var k, t := EndpointKey(nid, cid), DisconnectWith(s, nid, cid, force, env).0;
    var keys := KeysOf(s.endpoints[k].portMappings, s.endpoints[k].ip);
    DisconnectDrops(s, nid, cid, force, env);
    if env.deleteOk != env.releaseOk {
      flaw := OffsetFlaw(s, t, k, env);
    } else if env.deleteOk || !(keys <= env.refused) {
      flaw := RuleFlaw(s, t, k, env);
    } else {
      flaw := NameFlaw(s, t, k, env);
    }
  }

  lemma OffsetFlaw(s: NetState, t: NetState, k: string, env: DisconnectEnv) returns (flaw: Flaw)
    requires EndpointsPlaced(s) && AllocationExact(s) && k in s.endpoints && Dropped(s, t, k, env)
    requires env.deleteOk != env.releaseOk
    ensures Shows(s, t, k, flaw)
  {
    var nid := s.endpoints[k].networkID;
    var p := s.networks[nid].subnet;
    assert Placed(s, k);
    var o := IPToOffset(p, s.endpoints[k].ip).value;
    if env.deleteOk {
      assert TakenBy(s, nid, o, k) && Taken(s, nid, o);
      flaw := Leaked(o);
    } else {
      SetAllocLookup(s, t, p, AllocOf(s, p) - {o}, p);
      flaw := Unallocated(o);
    }
  }

  lemma RuleFlaw(s: NetState, t: NetState, k: string, env: DisconnectEnv) returns (flaw: Flaw)
    requires PortsExact(s) && k in s.endpoints && Dropped(s, t, k, env)
    requires var keys := KeysOf(s.endpoints[k].portMappings, s.endpoints[k].ip);
             if env.deleteOk then !(keys !! env.refused) else !(keys <= env.refused)
    ensures Shows(s, t, k, flaw)
  {
    var keys := KeysOf(s.endpoints[k].portMappings, s.endpoints[k].ip);
    if env.deleteOk {
      var pk :| pk in keys && pk in env.refused;
      assert Wanted(s, pk);
      flaw := StaleRule(pk);
    } else {
      var pk :| pk in keys && pk !in env.refused;
      flaw := MissingRule(pk);
    }
  }

  lemma NameFlaw(s: NetState, t: NetState, k: string, env: DisconnectEnv) returns (flaw: Flaw)
    requires k in s.endpoints && Dropped(s, t, k, env) && !env.deleteOk
    requires UserDefined(s, s.endpoints[k].networkID) && s.endpoints[k].dnsNames != []
    ensures Shows(s, t, k, flaw)
  {
    var ep := s.endpoints[k];
    assert EntryKept(s.records, t.records, ep.networkID, ep.dnsNames, ep.networkID, ep.dnsNames[0]);
    flaw := MissingName(ep.dnsNames[0]);
  }

  // ----- Disconnecting a container everywhere

  /** On no listed network something harmful fails. */
  ghost predicate HarmlessEach(s: NetState, nids: seq<string>, cid: string, env: string -> DisconnectEnv) {
    forall nid <- nids :: Harmless(s, nid, cid, env(nid))
  }

  /** The endpoint k of the container is among those to be disconnected. */
  predicate Leaves(s: NetState, nids: seq<string>, cid: string, env: string -> DisconnectEnv, k: string)
    requires k in s.endpoints
  {
    var ep := s.endpoints[k];
    ep.containerID == cid && ep.networkID in nids && env(ep.networkID).deleteOk
  }

  /** The container's endpoints on the listed networks are gone, unless they could not be deleted; all
      others are untouched. */
  lemma {:induction false} DisconnectEachRemoves(s: NetState, nids: seq<string>, cid: string,
                                                 env: string -> DisconnectEnv, k: string)
    requires NetworksIndexed(s) && EndpointsPlaced(s)
    ensures var t := DisconnectEach(s, nids, cid, env).0;
            && t.networks == s.networks && t.names == s.names && t.masq == s.masq
            && (k in t.endpoints <==> k in s.endpoints && !Leaves(s, nids, cid, env, k))
            && (k in t.endpoints ==> t.endpoints[k] == s.endpoints[k])
    decreases |nids|
  {
    if nids != [] {
      var init, last := nids[..|nids| - 1], nids[|nids| - 1];
      var t := DisconnectEach(s, init, cid, env).0;
      assert nids == init + [last];
      forall j ensures t.networks == s.networks && t.names == s.names
               ensures j in t.endpoints ==> j in s.endpoints && t.endpoints[j] == s.endpoints[j]
      {
        DisconnectEachRemoves(s, init, cid, env, j);
      }
      DisconnectEachRemoves(s, init, cid, env, k);
      FewerPlaced(s, t);
      DisconnectOne(t, last, cid, env, k);
    }
  }

  /** It reports a deletion that failed, on whichever network it was, and no endpoint as absent. */
  lemma {:induction false} DisconnectEachReports(s: NetState, nids: seq<string>, cid: string,
                                                 env: string -> DisconnectEnv)
    ensures var (t, r) := DisconnectEach(s, nids, cid, env);
            && r == (if exists nid <- nids :: EndpointKey(nid, cid) in s.endpoints && !env(nid).deleteOk
                     then Err(EndpointKept) else Ok(()))
            && forall k :: k in t.endpoints <==>
                 k in s.endpoints && forall nid <- nids :: k == EndpointKey(nid, cid) ==> !env(nid).deleteOk
    decreases |nids|
  {
    if nids != [] {
      var last := |nids| - 1;
      DisconnectEachReports(s, nids[..last], cid, env);
      var t := DisconnectEach(s, nids[..last], cid, env).0;
      DisconnectReports(t, nids[last], cid, true, env(nids[last]));
      assert nids == nids[..last] + [nids[last]];
      forall nid | EndpointKey(nid, cid) == EndpointKey(nids[last], cid) ensures nid == nids[last] {
        assert nid == EndpointKey(nid, cid)[..|EndpointKey(nid, cid)| - |cid| - 1];
        assert nids[last] == EndpointKey(nids[last], cid)[..|EndpointKey(nids[last], cid)| - |cid| - 1];
      }
    }
  }

  lemma FewerPlaced(s: NetState, t: NetState)
    requires NetworksIndexed(s) && EndpointsPlaced(s) && t.networks == s.networks && t.names == s.names
    requires forall j :: j in t.endpoints ==> j in s.endpoints && t.endpoints[j] == s.endpoints[j]
    ensures NetworksIndexed(t) && EndpointsPlaced(t)
  {
    forall j | j in t.endpoints ensures Placed(t, j) { assert Placed(s, j); }
  }

  lemma DisconnectOne(s: NetState, nid: string, cid: string, env: string -> DisconnectEnv, k: string)
    requires NetworksIndexed(s) && EndpointsPlaced(s)
    ensures var u := DisconnectWith(s, nid, cid, true, env(nid)).0;
            && u.networks == s.networks && u.names == s.names && u.masq == s.masq
            && (k in u.endpoints <==> k in s.endpoints && !Leaves(s, [nid], cid, env, k))
            && (k in u.endpoints ==> u.endpoints[k] == s.endpoints[k])
  {
    if k in s.endpoints {
      assert Placed(s, k);
      if k == EndpointKey(nid, cid) {
        FoundUnderItsNetwork(s, nid, cid);
      }
    }
  }

  lemma {:induction false} DisconnectEachKeepsCoherent(s: NetState, nids: seq<string>, cid: string,
                                                       env: string -> DisconnectEnv)
    requires Coherent(s) && HarmlessEach(s, nids, cid, env)
    ensures Coherent(DisconnectEach(s, nids, cid, env).0)
    decreases |nids|
  {
    if nids != [] {
      var init, last := nids[..|nids| - 1], nids[|nids| - 1];
      var t := DisconnectEach(s, init, cid, env).0;
      assert forall nid <- init :: nid in nids;
      DisconnectEachKeepsCoherent(s, init, cid, env);
      assert Harmless(t, last, cid, env(last)) by {
        assert last in nids && Harmless(s, last, cid, env(last));
        DisconnectEachRemoves(s, init, cid, env, EndpointKey(last, cid));
      }
      DisconnectKeepsCoherentExactly(t, last, cid, true, env(last));
    }
  }

  // ----- A flaw is not mended by disconnecting elsewhere

  /** Disconnecting the container from one more network keeps the flaw of its endpoint k, as long as k is
      not deleted now. */
  lemma FlawedStays(s: NetState, v: NetState, k: string, flaw: Flaw, m: string, cid: string, env: DisconnectEnv)
    requires Coherent(s) && k in s.endpoints && s.endpoints[k].containerID == cid && Flawed(s, v, k, flaw)
    requires k in v.endpoints && m == s.endpoints[k].networkID ==> !env.deleteOk
    ensures Flawed(s, DisconnectWith(v, m, cid, true, env).0, k, flaw)
  {
    var j, u := EndpointKey(m, cid), DisconnectWith(v, m, cid, true, env).0;
    if j in v.endpoints {
      FewerPlaced(s, v);
      FoundUnderItsNetwork(v, m, cid);
      assert IsBridge(v, m) && Placed(s, k) by { assert Placed(v, j); }
      DisconnectDrops(v, m, cid, true, env);
      FlawedStep(s, v, u, k, flaw, j, env);
    }
  }

  lemma FlawedStep(s: NetState, v: NetState, u: NetState, k: string, flaw: Flaw, j: string, env: DisconnectEnv)
    requires SubnetsApart(s) && AddressesUnique(s) && EndpointsPlaced(s)
    requires k in s.endpoints && Flawed(s, v, k, flaw) && j in v.endpoints && Dropped(v, u, j, env)
    requires s.endpoints[j].containerID == s.endpoints[k].containerID
    requires k in v.endpoints && j == k ==> !env.deleteOk
    ensures Flawed(s, u, k, flaw)
  {
    StaysReduced(s, v, u, j, env);
    assert Shows(s, u, k, flaw) by {
      match flaw
      case Leaked(_) => LeakStays(s, v, u, k, flaw, j, env);
      case Unallocated(_) => UnallocatedStays(s, v, u, k, flaw, j, env);
      case StaleRule(_) => StaleRuleStays(s, v, u, k, flaw, j, env);
      case MissingRule(_) => MissingRuleStays(s, v, u, k, flaw, j, env);
      case MissingName(_) => MissingNameStays(s, v, u, k, flaw, j, env);
    }
  }

  lemma StaysReduced(s: NetState, v: NetState, u: NetState, j: string, env: DisconnectEnv)
    requires Reduced(s, v) && j in v.endpoints && Dropped(v, u, j, env)
    ensures Reduced(s, u)
  {
  }

  /** A disconnect takes offsets out of no bitmap but the one of its own subnet, and adds none. */
  lemma Released(v: NetState, u: NetState, j: string, env: DisconnectEnv, p: Prefix)
    requires j in v.endpoints && Dropped(v, u, j, env)
    ensures AllocOf(u, p) <= AllocOf(v, p)
    ensures v.networks[v.endpoints[j].networkID].subnet != p ==> AllocOf(u, p) == AllocOf(v, p)
  {
  }

  lemma LeakStays(s: NetState, v: NetState, u: NetState, k: string, flaw: Flaw, j: string, env: DisconnectEnv)
    requires SubnetsApart(s) && EndpointsPlaced(s)
    requires k in s.endpoints && Flawed(s, v, k, flaw) && flaw.Leaked? && j in v.endpoints && Dropped(v, u, j, env)
    requires s.endpoints[j].containerID == s.endpoints[k].containerID
    ensures Shows(s, u, k, flaw)
  {
    var nid, m := s.endpoints[k].networkID, s.endpoints[j].networkID;
    assert nid != m by {
      assert j != k && Placed(s, j) && Placed(s, k);
    }
    var p, q := s.networks[nid].subnet, s.networks[m].subnet;
    assert p != q by {
      if p == q {
        SubnetOwner(s, nid, m);
      }
    }
    Released(v, u, j, env, p);
  }

  lemma UnallocatedStays(s: NetState, v: NetState, u: NetState, k: string, flaw: Flaw, j: string, env: DisconnectEnv)
    requires k in s.endpoints && Flawed(s, v, k, flaw) && flaw.Unallocated? && j in v.endpoints && Dropped(v, u, j, env)
    requires j == k ==> !env.deleteOk
    ensures Shows(s, u, k, flaw)
  {
    Released(v, u, j, env, s.networks[s.endpoints[k].networkID].subnet);
  }

  lemma StaleRuleStays(s: NetState, v: NetState, u: NetState, k: string, flaw: Flaw, j: string, env: DisconnectEnv)
    requires AddressesUnique(s) && k in s.endpoints && Flawed(s, v, k, flaw) && flaw.StaleRule?
    requires j in v.endpoints && Dropped(v, u, j, env)
    ensures Shows(s, u, k, flaw)
  {
    assert s.endpoints[j].ip != flaw.pk.containerIP;
  }

  lemma MissingRuleStays(s: NetState, v: NetState, u: NetState, k: string, flaw: Flaw, j: string, env: DisconnectEnv)
    requires k in s.endpoints && Flawed(s, v, k, flaw) && flaw.MissingRule? && j in v.endpoints && Dropped(v, u, j, env)
    requires j == k ==> !env.deleteOk
    ensures Shows(s, u, k, flaw)
  {
  }

  lemma MissingNameStays(s: NetState, v: NetState, u: NetState, k: string, flaw: Flaw, j: string, env: DisconnectEnv)
    requires k in s.endpoints && Flawed(s, v, k, flaw) && flaw.MissingName? && j in v.endpoints && Dropped(v, u, j, env)
    requires j == k ==> !env.deleteOk
    ensures Shows(s, u, k, flaw)
  {
    var ep := v.endpoints[j];
    assert EntryKept(v.records, u.records, ep.networkID, ep.dnsNames, s.endpoints[k].networkID, flaw.x);
  }

  lemma FlawedRelative(s: NetState, t: NetState, u: NetState, k: string, flaw: Flaw)
    requires k in t.endpoints && Flawed(t, u, k, flaw)
    requires t.networks == s.networks && t.names == s.names
    requires forall j :: j in t.endpoints ==> j in s.endpoints && t.endpoints[j] == s.endpoints[j]
    ensures Flawed(s, u, k, flaw)
  {
  }

  /** The container's own endpoints among those listed. */
  lemma {:induction false} HarmfulEach(s: NetState, nids: seq<string>, cid: string, env: string -> DisconnectEnv)
    returns (k: string, flaw: Flaw)
    requires Coherent(s) && !HarmlessEach(s, nids, cid, env)
    ensures k in s.endpoints && s.endpoints[k].containerID == cid
    ensures var v := DisconnectEach(s, nids, cid, env).0;
            Flawed(s, v, k, flaw) && (k in v.endpoints ==> !env(s.endpoints[k].networkID).deleteOk)
    decreases |nids|
  {
    var init, last := nids[..|nids| - 1], nids[|nids| - 1];
    var t := DisconnectEach(s, init, cid, env).0;
    assert nids == init + [last];
    if !HarmlessEach(s, init, cid, env) {
      k, flaw := HarmfulEach(s, init, cid, env);
      FlawedStays(s, t, k, flaw, last, cid, env(last));
    } else {
      assert !Harmless(s, last, cid, env(last)) && last !in init;
      k := EndpointKey(last, cid);
      FoundUnderItsNetwork(s, last, cid);
      forall j ensures t.networks == s.networks && t.names == s.names
               ensures j in t.endpoints ==> j in s.endpoints && t.endpoints[j] == s.endpoints[j]
      {
        DisconnectEachRemoves(s, init, cid, env, j);
      }
      DisconnectEachRemoves(s, init, cid, env, k);
      DisconnectEachKeepsCoherent(s, init, cid, env);
      assert Placed(s, k) && IsBridge(t, last) && !Harmless(t, last, cid, env(last));
      flaw := HarmfulDisconnect(t, last, cid, true, env(last));
      FlawedRelative(s, t, DisconnectWith(t, last, cid, true, env(last)).0, k, flaw);
    }
  }

  /** Whatever fails on which network, disconnecting a container from all of them keeps the state coherent
      exactly when the failures are harmless on each. */
  lemma DisconnectEachKeepsCoherentExactly(s: NetState, nids: seq<string>, cid: string, env: string -> DisconnectEnv)
    requires Coherent(s)
    ensures Coherent(DisconnectEach(s, nids, cid, env).0) <==> HarmlessEach(s, nids, cid, env)
  {
    if HarmlessEach(s, nids, cid, env) {
      DisconnectEachKeepsCoherent(s, nids, cid, env);
    } else {
      var k, flaw := HarmfulEach(s, nids, cid, env);
      FlawedIncoherent(s, DisconnectEach(s, nids, cid, env).0, k, flaw);
    }
  }
}
