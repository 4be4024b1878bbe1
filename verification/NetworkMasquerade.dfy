/** Outbound translation: which bridge networks have a masquerade rule over runs of the manager. */
module NetworkMasquerade {
  import opened Addresses
  import opened Lookup
  import opened NetworkSpec
  import opened NetworkInvariant
  import opened NetworkDisconnect
  import opened NetworkRuns

  lemma SubnetUnmasked(s: NetState, p: Prefix)
    requires MasqueradeExact(s) && ApartFromAll(s, p)
    ensures p !in s.masq
  {
    ContainsRange(p, p.addr);
    assert Contains(p, p.addr);
    assert forall id :: IsBridge(s, id) ==> s.networks[id].subnet != p;
  }

  lemma SameNetworksMasquerade(s: NetState, t: NetState)
    requires MasqueradeExact(s) && t.networks == s.networks && t.masq == s.masq
    ensures MasqueradeExact(t)
  {
    assert forall id :: IsBridge(t, id) <==> IsBridge(s, id);
  }

  // ----- Creating

  /** A creation that fails late spares the rules. */
  ghost predicate CreationSparesRules(s: NetState, a: CreateArgs) {
    SupportedDriver(a) ==> RuleSpared(s, a)
  }

  lemma NewNetworkMasquerade(s: NetState, t: NetState, n: Network)
    requires MasqueradeExact(s) && n.BridgeNetwork? && n.id !in s.networks
    requires t.networks == s.networks[n.id := n] && t.masq == if n.internal then s.masq else s.masq + {n.subnet}
    ensures MasqueradeExact(t)
  {
    assert forall id :: IsBridge(t, id) <==> id == n.id || IsBridge(s, id);
    assert IsBridge(t, n.id) && t.networks[n.id].subnet == n.subnet;
    forall q
      ensures q in t.masq <==> exists id :: IsBridge(t, id) && t.networks[id].subnet == q && !t.networks[id].internal
    {
      if q in s.masq {
        var id :| IsBridge(s, id) && s.networks[id].subnet == q && !s.networks[id].internal;
        assert IsBridge(t, id) && t.networks[id] == s.networks[id];
      }
    }
  }

  lemma CreateKeepsMasquerade(s: NetState, a: CreateArgs)
    requires MasqueradeExact(s) && CreateGuard(s, a) && CreationSparesRules(s, a)
    ensures MasqueradeExact(Create(s, a).0)
  {
    var (t, r) := Create(s, a);
    CreateShape(s, a);
    if r.Ok? {
      assert Creatable(s, a);
      var p := ChosenSubnet(s, a).value;
      CreateOnShape(s, a, p, ChosenGateway(a, p));
      NewNetworkMasquerade(s, t, BridgeNetwork(a.id, a.name, p, ChosenGateway(a, p), a.internal));
    } else {
      FailedCreateRestores(s, a);
    }
  }

  /** Without new networks, rules are right exactly when they are the same. */
  lemma SameRules(s: NetState, t: NetState)
    requires MasqueradeExact(s) && t == s.(masq := t.masq)
    ensures MasqueradeExact(t) <==> t == s
  {
    assert forall id :: IsBridge(t, id) <==> IsBridge(s, id);
    if MasqueradeExact(t) {
      assert forall p :: p in t.masq <==> p in s.masq;
      assert t.masq == s.masq;
    }
  }

  /** Whatever call fails, a guarded creation keeps the rules right: exactly when its clean-up takes back the
      rule that was added and no other. */
  lemma CreateKeepsMasqueradeExactly(s: NetState, a: CreateArgs)
    requires MasqueradeExact(s) && CreateGuard(s, a)
    ensures (forall f: CreateFault :: MasqueradeExact(Create(s, a.(fault := f)).0)) <==> CreationSparesRules(s, a)
  {
    if CreationSparesRules(s, a) {
      forall f: CreateFault ensures MasqueradeExact(Create(s, a.(fault := f)).0) {
        assert CreateGuard(s, a.(fault := f)) && CreationSparesRules(s, a.(fault := f));
        CreateKeepsMasquerade(s, a.(fault := f));
      }
    } else {
      var b, p := a.(fault := AtCreate), ChosenSubnet(s, a).value;
      RefusedAtCreate(s, b);
      RefusedRestores(s, b, p);
      SameRules(s, Create(s, b).0);
    }
  }

  // ----- Removing

  /** The query names a bridge network that may be removed. */
  ghost predicate Removable(s: NetState, query: string) {
    var r := ResolveNetwork(s, query);
    r.Ok? && r.value.BridgeNetwork? && r.value.name != DEFAULT_NAME && !HasEndpoints(s, r.value.id)
  }

  /** Rule and record go together, or there is no rule. */
  ghost predicate RemovalsAgree(s: NetState, query: string, env: RemoveEnv) {
    Removable(s, query) ==> ResolveNetwork(s, query).value.internal || env.masqOk == env.deleteOk
  }

  lemma RemovedMasquerade(s: NetState, t: NetState, n: Network, masqOk: bool, deleteOk: bool)
    requires SubnetsApart(s) && MasqueradeExact(s) && IsBridge(s, n.id) && s.networks[n.id] == n
    requires t.networks == if deleteOk then s.networks - {n.id} else s.networks
    requires t.masq == if masqOk then s.masq - {n.subnet} else s.masq
    ensures MasqueradeExact(t) <==> n.internal || masqOk == deleteOk
  {
    assert forall id :: IsBridge(t, id) <==> IsBridge(s, id) && !(deleteOk && id == n.id);
    forall id | IsBridge(s, id) && s.networks[id].subnet == n.subnet ensures id == n.id {
      SubnetOwner(s, id, n.id);
    }
    forall q | q != n.subnet
      ensures q in t.masq <==> exists id :: IsBridge(t, id) && t.networks[id].subnet == q && !t.networks[id].internal
    {
      if q in s.masq {
        var id :| IsBridge(s, id) && s.networks[id].subnet == q && !s.networks[id].internal;
        assert IsBridge(t, id) && t.networks[id] == s.networks[id];
      }
      if id :| IsBridge(t, id) && t.networks[id].subnet == q && !t.networks[id].internal {
        assert IsBridge(s, id) && s.networks[id] == t.networks[id];
      }
    }
    assert n.subnet in s.masq <==> !n.internal;
    assert (exists id :: IsBridge(t, id) && t.networks[id].subnet == n.subnet && !t.networks[id].internal)
      <==> !deleteOk && !n.internal by {
      if !deleteOk && !n.internal {
        assert IsBridge(t, n.id) && t.networks[n.id] == n;
      }
    }
  }

  /** Whatever call fails, a removal keeps the rules right: exactly when rule and record both go or
      both stay, or the network is internal. */
  lemma RemoveKeepsMasqueradeExactly(s: NetState, query: string, env: RemoveEnv)
    requires Coherent(s) && MasqueradeExact(s)
    ensures MasqueradeExact(Remove(s, query, env).0) <==> RemovalsAgree(s, query, env)
  {
    var t := Remove(s, query, env).0;
    if Removable(s, query) {
      var n := ResolveNetwork(s, query).value;
      ResolvedIsStored(s, query);
      RemovedMasquerade(s, t, n, env.masqOk, env.deleteOk);
    } else {
      assert t == s;
    }
  }

  // ----- Runs

  /** What the callers of each operation see to for the rules. */
  ghost predicate RulesGuard(s: NetState, op: Op) {
    match op
    case OpCreate(a) => CreationSparesRules(s, a)
    case OpRemove(query, env) => RemovalsAgree(s, query, env)
    case _ => true
  }

  ghost predicate RulesGuarded(s: NetState, ops: seq<Op>)
    decreases |ops|
  {
    ops == [] || (RulesGuard(s, ops[0]) && RulesGuarded(Step(s, ops[0]), ops[1..]))
  }

  lemma StepKeepsMasquerade(s: NetState, op: Op)
    requires Coherent(s) && MasqueradeExact(s) && Guard(s, op) && RulesGuard(s, op)
    ensures MasqueradeExact(Step(s, op))
  {
    match op
    case OpCreate(a) => CreateKeepsMasquerade(s, a);
    case OpRemove(query, env) => RemoveKeepsMasqueradeExactly(s, query, env);
    case OpConnect(a) =>
      ConnectFrame(s, a);
      SameNetworksMasquerade(s, Connect(s, a).0);
    case OpDisconnect(nid, cid, force, env) =>
      SameNetworksMasquerade(s, DisconnectWith(s, nid, cid, force, env).0);
    case OpDisconnectAll(nids, cid, env) =>
      DisconnectEachRemoves(s, nids, cid, env, "");
      SameNetworksMasquerade(s, DisconnectEach(s, nids, cid, env).0);
  }

  /** Over every guarded run, outbound translation is set up for exactly the bridge networks that are
      not internal. */
  lemma {:induction false} RunKeepsMasquerade(s: NetState, ops: seq<Op>)
    requires Coherent(s) && MasqueradeExact(s) && Guarded(s, ops) && RulesGuarded(s, ops)
    ensures MasqueradeExact(Run(s, ops))
    decreases |ops|
  {
    if ops != [] {
      StepKeepsCoherent(s, ops[0]);
      StepKeepsMasquerade(s, ops[0]);
      RunKeepsMasquerade(Step(s, ops[0]), ops[1..]);
    }
  }

  lemma InitialMasquerade(b: string, h: string, n: string)
    requires b != h && h != n && b != n
    ensures MasqueradeExact(Initial(b, h, n))
  {
    var s := Initial(b, h, n);
    assert IsBridge(s, b) && forall id :: IsBridge(s, id) ==> id == b;
  }
}
