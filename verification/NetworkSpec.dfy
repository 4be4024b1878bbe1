/** What one call of the network manager does to the state that the store, the allocator, the NAT
    rules and the DNS records hold between them (internal/network/manager.go). */
module NetworkSpec {
  import opened Wrappers
  import opened Addresses
  import Ipam
  import opened Lookup
  import SubnetPool

  datatype Network =
    | BridgeNetwork(id: string, name: string, subnet: Prefix, gateway: Addr, internal: bool)
    | VirtualNetwork(id: string, name: string) // the host and none drivers: no subnet

  datatype PortMapping = PortMapping(hostIP: Option<Addr>, hostPort: nat, containerPort: nat, protocol: string)

  datatype Endpoint = Endpoint(
    networkID: string, containerID: string, containerName: string, ip: Addr, mac: string, vethHost: string,
    portMappings: seq<PortMapping>, dnsNames: seq<string>)

  datatype PortKey = PortKey(hostIP: Option<Addr>, containerIP: Addr, protocol: string, hostPort: nat,
                             containerPort: nat)

  type DnsRecords = map<string, map<string, Addr>>

  /** `alloc` lists the subnets with at least one allocated offset. */
  datatype NetState = NetState(
    networks: map<string, Network>,
    names: map<string, string>,
    endpoints: map<string, Endpoint>,
    alloc: map<Prefix, set<nat>>,
    portKeys: set<PortKey>,
    masq: set<Prefix>,
    records: DnsRecords)

  const DEFAULT_NAME := "bridge"

  // ----- Parts

  function EndpointKey(networkID: string, containerID: string): string {
    networkID + "/" + containerID
  }

  function AllocOf(s: NetState, p: Prefix): set<nat> {
    if p in s.alloc then s.alloc[p] else {}
  }

  function SetAlloc(alloc: map<Prefix, set<nat>>, p: Prefix, offsets: set<nat>): map<Prefix, set<nat>> {
    if offsets == {} then alloc - {p} else alloc[p := offsets]
  }

  function KeyOf(pm: PortMapping, ip: Addr): PortKey {
    PortKey(pm.hostIP, ip, pm.protocol, pm.hostPort, pm.containerPort)
  }

  function KeysOf(pms: seq<PortMapping>, ip: Addr): set<PortKey> {
    set pm <- pms :: KeyOf(pm, ip)
  }

  function Register(r: DnsRecords, nid: string, name: string, ip: Addr): DnsRecords {
    r[nid := (if nid in r then r[nid] else map[])[name := ip]]
  }

  function Deregister(r: DnsRecords, nid: string, name: string): DnsRecords {
    if nid !in r then r
    else if r[nid] - {name} == map[] then r - {nid}
    else r[nid := r[nid] - {name}]
  }

  function DeregisterEach(r: DnsRecords, nid: string, names: seq<string>): DnsRecords
    decreases |names|
  {
    if names == [] then r else DeregisterEach(Deregister(r, nid, names[0]), nid, names[1..])
  }

  predicate Recorded(r: DnsRecords, nid: string, name: string) {
    nid in r && name in r[nid]
  }

  function TrimSlash(name: string): string {
    if name != [] && name[0] == '/' then name[1..] else name
  }

  ghost function ResolveNetwork(s: NetState, query: string): Result<Network, LookupError> {
    Resolve(s.networks, s.names, [query], query)
  }

  /** Subnets that occur among the network records. */
  ghost function LiveSubnets(s: NetState): set<Prefix> {
    set id | id in s.networks && s.networks[id].BridgeNetwork? :: s.networks[id].subnet
  }

  // ----- Connect

  /** The first call into the store, the kernel or the bridge that fails, if any. */
  datatype Fault = NoFault | AtLoad | AtPut | AtVeth | AtPort(i: nat) | AtPersist

  /** What the clean-ups of a failed call achieve: whether the address is released, and which rules the
      kernel refuses to delete. Their failures are ignored. */
  datatype UndoEnv = UndoEnv(releaseOk: bool, refused: set<PortKey>)

  const ALL_UNDONE := UndoEnv(true, {})

  datatype ConnectArgs = ConnectArgs(
    networkID: string, containerID: string, containerName: string, portMappings: seq<PortMapping>,
    vethHost: string, mac: string, fault: Fault, undo: UndoEnv)

  datatype ConnectError =
    | NetworkNotFound
    | AllocateFailed(cause: Ipam.IpamError)
    | VethFailed
    | PortFailed(i: nat)
    | PersistFailed

  /** A kernel failure can only hit a rule that is not there yet. */
  predicate PortFaultOn(keys: set<PortKey>, a: ConnectArgs, ip: Addr) {
    && a.fault.AtPort?
    && a.fault.i < |a.portMappings|
    && KeyOf(a.portMappings[a.fault.i], ip) !in keys + KeysOf(a.portMappings[..a.fault.i], ip)
  }

  predicate PortFault(s: NetState, a: ConnectArgs, ip: Addr) {
    PortFaultOn(s.portKeys, a, ip)
  }

  function NewEndpoint(n: Network, a: ConnectArgs, ip: Addr): Endpoint {
    Endpoint(n.id, a.containerID, a.containerName, ip, a.mac, a.vethHost, a.portMappings, [TrimSlash(a.containerName)])
  }

  /** The allocation after the clean-ups. An address outside its subnet, which a subnet with host bits set
      can hand out, is not taken back. */
  function AllocLeft(s: NetState, p: Prefix, o: nat, ip: Addr, undo: UndoEnv): map<Prefix, set<nat>> {
    if undo.releaseOk && Contains(p, ip) then s.alloc else SetAlloc(s.alloc, p, AllocOf(s, p) + {o})
  }

  /** The rules after the clean-ups of those that were added. */
  function KeysLeft(keys: set<PortKey>, added: set<PortKey>, undo: UndoEnv): set<PortKey> {
    keys + added - (added - undo.refused)
  }

  /** The endpoint is persisted, or everything is undone. */
  function Finished(s: NetState, n: Network, a: ConnectArgs, o: nat, ip: Addr)
    : (NetState, Result<Endpoint, ConnectError>)
    requires n.BridgeNetwork?
  {
    var name := TrimSlash(a.containerName);
    var ep := NewEndpoint(n, a, ip);
    if a.fault.AtPersist? then
      (s.(alloc := AllocLeft(s, n.subnet, o, ip, a.undo),
          portKeys := KeysLeft(s.portKeys, KeysOf(a.portMappings, ip), a.undo),
          records := if n.name == DEFAULT_NAME then s.records
                     else Deregister(Register(s.records, n.id, name, ip), n.id, name)),
       Err(PersistFailed))
    else
      (s.(endpoints := s.endpoints[EndpointKey(n.id, a.containerID) := ep],
          alloc := SetAlloc(s.alloc, n.subnet, AllocOf(s, n.subnet) + {o}),
          portKeys := s.portKeys + KeysOf(a.portMappings, ip),
          records := if n.name == DEFAULT_NAME then s.records else Register(s.records, n.id, name, ip)),
       Ok(ep))
  }

  function Published(s: NetState, n: Network, a: ConnectArgs, o: nat, ip: Addr)
    : (NetState, Result<Endpoint, ConnectError>)
    requires n.BridgeNetwork?
  {
    if PortFault(s, a, ip) then
      (s.(alloc := AllocLeft(s, n.subnet, o, ip, a.undo),
          portKeys := KeysLeft(s.portKeys, KeysOf(a.portMappings[..a.fault.i], ip), a.undo)),
       Err(PortFailed(a.fault.i)))
    else Finished(s, n, a, o, ip)
  }

  ghost function ConnectBridge(s: NetState, n: Network, a: ConnectArgs): (NetState, Result<Endpoint, ConnectError>)
    requires n.BridgeNetwork?
  {
    var free := Ipam.LowestFree(AllocOf(s, n.subnet), 2, SubnetSize(n.subnet));
    if a.fault.AtLoad? then (s, Err(AllocateFailed(Ipam.LoadFailed)))
    else if free.None? then (s, Err(AllocateFailed(Ipam.NoAvailableIP)))
    else if a.fault.AtPut? then (s, Err(AllocateFailed(Ipam.PersistFailed)))
    else if a.fault.AtVeth? then
      (s.(alloc := AllocLeft(s, n.subnet, free.value, OffsetToIP(n.subnet, free.value), a.undo)), Err(VethFailed))
    else Published(s, n, a, free.value, OffsetToIP(n.subnet, free.value))
  }

  ghost function Connect(s: NetState, a: ConnectArgs): (NetState, Result<Endpoint, ConnectError>) {
    match ResolveNetwork(s, a.networkID)
    case Err(_) => (s, Err(NetworkNotFound))
    case Ok(VirtualNetwork(id, _)) =>
      (s, Ok(Endpoint(id, a.containerID, a.containerName, Addr(0, 0, 0, 0), "", "", [], [])))
    case Ok(n) => ConnectBridge(s, n, a)
  }

  // ----- Disconnect

  datatype DisconnectError = EndpointNotFound | EndpointKept

  /** Which calls inside a disconnect fail: the rules the kernel keeps, the release of the address,
      the deletion of the endpoint. Only the last one is reported. */
  datatype DisconnectEnv = DisconnectEnv(refused: set<PortKey>, releaseOk: bool, deleteOk: bool)

  const NO_FAILURE := DisconnectEnv({}, true, true)

  function ReleaseIn(alloc: map<Prefix, set<nat>>, p: Prefix, ip: Addr): map<Prefix, set<nat>> {
    if Contains(p, ip) then
      SetAlloc(alloc, p, (if p in alloc then alloc[p] else {}) - {IPToOffset(p, ip).value})
    else alloc
  }

  ghost function DisconnectWith(s: NetState, networkID: string, containerID: string, force: bool, env: DisconnectEnv)
    : (NetState, Result<(), DisconnectError>)
  {
    var key := EndpointKey(networkID, containerID);
    if key !in s.endpoints then (s, if force then Ok(()) else Err(EndpointNotFound))
    else
      var ep := s.endpoints[key];
      var rec := ResolveNetwork(s, networkID);
      (s.(endpoints := if env.deleteOk then s.endpoints - {key} else s.endpoints,
          portKeys := s.portKeys - (KeysOf(ep.portMappings, ep.ip) - env.refused),
          records := DeregisterEach(s.records, networkID, ep.dnsNames),
          alloc := if env.releaseOk && rec.Ok? && rec.value.BridgeNetwork?
                   then ReleaseIn(s.alloc, rec.value.subnet, ep.ip)
                   else s.alloc),
       if env.deleteOk then Ok(()) else Err(EndpointKept))
  }

  /** When every call succeeds. */
  ghost function Disconnect(s: NetState, networkID: string, containerID: string, force: bool)
    : (NetState, Result<(), DisconnectError>)
  {
    DisconnectWith(s, networkID, containerID, force, NO_FAILURE)
  }

  /** The endpoints of a container, removed one network at a time; the last error is the result. */
  ghost function DisconnectEach(s: NetState, networkIDs: seq<string>, containerID: string, env: string -> DisconnectEnv)
    : (NetState, Result<(), DisconnectError>)
    decreases |networkIDs|
  {
    if networkIDs == [] then (s, Ok(()))
    else
      var last := |networkIDs| - 1;
      var (t, before) := DisconnectEach(s, networkIDs[..last], containerID, env);
      var (u, r) := DisconnectWith(t, networkIDs[last], containerID, true, env(networkIDs[last]));
      (u, if r.Err? then r else before)
  }

  // ----- Create and remove

  datatype CreateFault = NoCreateFault | AtBridge | AtMasquerade | AtCreate

  datatype CreateArgs = CreateArgs(
    name: string, driver: string, subnet: Option<Prefix>, gateway: Option<Addr>, internal: bool, id: string,
    fault: CreateFault, undoOk: bool)

  datatype CreateError = Unsupported | NoAvailableSubnets | BridgeFailed | MasqueradeFailed | NameInUse | CreateFailed

  /** A record that is refused takes its masquerade rule back, if the kernel lets it. */
  function RefusedOn(s: NetState, a: CreateArgs, subnet: Prefix): NetState {
    s.(masq := if a.undoOk then s.masq - {subnet} else if a.internal then s.masq else s.masq + {subnet})
  }

  ghost function CreateOn(s: NetState, a: CreateArgs, subnet: Prefix, gateway: Addr)
    : (NetState, Result<string, CreateError>)
  {
    if a.fault.AtBridge? then (s, Err(BridgeFailed))
    else if a.fault.AtMasquerade? && !a.internal && subnet !in s.masq then (s, Err(MasqueradeFailed))
    else if a.name in s.names then (RefusedOn(s, a, subnet), Err(NameInUse))
    else if a.fault.AtCreate? || !ValidKeys(a.id, a.name) then (RefusedOn(s, a, subnet), Err(CreateFailed))
    else
      (s.(networks := s.networks[a.id := BridgeNetwork(a.id, a.name, subnet, gateway, a.internal)],
          names := s.names[a.name := a.id],
          masq := if a.internal then s.masq else s.masq + {subnet}),
       Ok(a.id))
  }

  ghost function Create(s: NetState, a: CreateArgs): (NetState, Result<string, CreateError>) {
    if a.driver != "" && a.driver != "bridge" then (s, Err(Unsupported))
    else
      match a.subnet
      case Some(p) => CreateOn(s, a, p, if a.gateway.Some? then a.gateway.value else OffsetToIP(p, 1))
      case None =>
        var i := SubnetPool.FirstFree(LiveSubnets(s), 0);
        if i.None? then (s, Err(NoAvailableSubnets))
        else CreateOn(s, a, SubnetPool.PoolSubnet(i.value), OffsetToIP(SubnetPool.PoolSubnet(i.value), 1))
  }

  datatype RemoveError = NoSuchNetwork | Predefined | HasContainers | DeleteFailed

  /** Which of the clean-up calls succeed. */
  datatype RemoveEnv = RemoveEnv(masqOk: bool, releaseOk: bool, deleteOk: bool)

  ghost predicate HasEndpoints(s: NetState, nid: string) {
    exists k :: k in s.endpoints && nid + "/" <= k
  }

  ghost function Remove(s: NetState, query: string, env: RemoveEnv): (NetState, Result<(), RemoveError>) {
    match ResolveNetwork(s, query)
    case Err(_) => (s, Err(NoSuchNetwork))
    case Ok(n) =>
      if n.name == DEFAULT_NAME || n.VirtualNetwork? then (s, Err(Predefined))
      else if HasEndpoints(s, n.id) then (s, Err(HasContainers))
      else
        var t := s.(records := s.records - {n.id},
                    masq := if env.masqOk then s.masq - {n.subnet} else s.masq,
                    alloc := if env.releaseOk then s.alloc - {n.subnet} else s.alloc);
        if !env.deleteOk then (t, Err(DeleteFailed))
        else (t.(networks := s.networks - {n.id}, names := if n.name == "" then s.names else s.names - {n.name}),
              Ok(()))
  }

  // ----- Runs

  datatype Op =
    | OpCreate(create: CreateArgs)
    | OpRemove(query: string, env: RemoveEnv)
    | OpConnect(connect: ConnectArgs)
    | OpDisconnect(networkID: string, containerID: string, force: bool, failing: DisconnectEnv)
    | OpDisconnectAll(networkIDs: seq<string>, containerID: string, failures: string -> DisconnectEnv)

  ghost function Step(s: NetState, op: Op): NetState {
    match op
    case OpCreate(a) => Create(s, a).0
    case OpRemove(query, env) => Remove(s, query, env).0
    case OpConnect(a) => Connect(s, a).0
    case OpDisconnect(nid, cid, force, env) => DisconnectWith(s, nid, cid, force, env).0
    case OpDisconnectAll(nids, cid, env) => DisconnectEach(s, nids, cid, env).0
  }

  /** The default, host and none networks, before any container runs. */
  function Initial(bridgeID: string, hostID: string, noneID: string): NetState {
    NetState(
      map[bridgeID := BridgeNetwork(bridgeID, DEFAULT_NAME, SubnetPool.DEFAULT_SUBNET, Addr(172, 20, 0, 1), false),
          hostID := VirtualNetwork(hostID, "host"), noneID := VirtualNetwork(noneID, "none")],
      map[DEFAULT_NAME := bridgeID, "host" := hostID, "none" := noneID],
      map[], map[], {}, {SubnetPool.DEFAULT_SUBNET}, map[])
  }
}
