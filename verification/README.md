# Kogia: a verified model of its stateful core

Kogia is a container daemon. Most of it is glue around libraries; this project models the parts
that keep state of their own and proves what they promise. `dafny verify dfyconfig.toml` checks
everything.

## What is modelled

**Network control plane.** `Addresses`, `Bitmaps`, `Ipam` and `SubnetPool` are the address
arithmetic, the bit scan, the allocator and the pool. `Lookup` is the ordered bucket with its cursor
and name index. `NetworkSpec` says what each call of the manager does to the state held by store,
allocator, NAT rules and DNS records together; `NetworkComponents` and `NetworkManager` are the
objects that do it step by step, with the explicit stack of clean-ups. `NetworkInvariant` holds the
coherence of the four parts and what single calls undo, `NetworkDisconnect` what a disconnect leaves
when calls inside it fail, `NetworkRuns`, `NetworkMasquerade` and `NetworkOverlap` whole runs;
`DnsRestore`, `NetworkRestart` and `DnsLookup` are the restart and the answering of queries.

**Container output.** `Stdcopy` is the framing and its decoding, `Lines` the two copy loops and the
progress writer, `Attach` the buffer-then-replay fan-out. The goroutines share one mutex, so a run is
a sequence of critical sections in any order.

**Log files.** `RotatingLog` is the driver and its reader, `RotatingRuns` what any sequence of Log
calls leaves and a reader sees, `ConcurrentReads` a reader between whose steps system calls of the
writer fall.

**Container lifecycle.** `Lifecycle` has the maps behind the manager's mutex and the sections that
touch them, `LifecycleRuns` their interleavings with attaching and exiting goroutines.
`RestartPolicy` is the policy and its backoff.

**Smaller machines.** `EventBus`, `ContainerStore` and `Binds`, over `Strings`.

Objects whose fields the program updates are classes. Each method is proved against a function of
the old state (`View()`), and runs, invariants and inverses are lemmas about those functions. Calls
into the kernel, the bridge, crun, the database and the file system are steps that succeed or fail
with no effect; `fault`, `env`, `...Ok` and `...Fails` arguments say which. Identifiers, times, MAC
addresses and interface names are arguments.

## What the proofs found

Some promises hold only under a condition that nobody checks. Each is stated below with that condition
in both directions.

- A failed Connect is rolled back completely unless a clean-up fails or the name it registers was
  registered before: the clean-up then removes the record of the endpoint that is still there. On a
  subnet with host bits set the address may lie outside, and is not given back.
- Connecting a container twice to one network overwrites its endpoint and leaks the old address.
- CreateNetwork checks neither that the bitmap covers a subnet nor that it meets no live one. Overlapping
  networks hand out the same addresses; two networks on one subnet share one bitmap, and removing one
  drops the allocations of the other; a disconnect panics on an address past the bitmap.
- A CreateNetwork refused for its name, or not persisted, removes the masquerade rule of its subnet even
  when it belonged to another network; when that clean-up fails its own rule stays.
- A call that fails inside a disconnect leaks an address or a rule, or leaves an endpoint without its
  address, a rule or a name, unless everything fails that would have changed something.
- After a restart internal networks are masqueraded, and the manager's map of NAT port rules is empty.
- The counters of a /32 never meet. Prefixes wider than /12 or with host bits set have addresses without
  a bit.
- Pool subnets are compared as text, so one is assigned inside a wider live subnet.
- A log line over 64 KiB hides the rest of its file from the reader, and a file that is renamed past the
  reader between two openings is not read.
- The renames between rotated files may fail unnoticed; then entries in the middle are lost while older
  ones stay, unless it is the oldest file renamed. A rotation that fails with an error closes the driver
  for good.
- Removing a container, a failed crun start, or a second registration strands whoever waits for the
  activation; so does Remove for an attach that waits for a start.
- Two pids registered for one container close one done channel twice and the other never. That crun
  refuses to create an existing ID ("Create" operation of the OCI Runtime Specification) is what
  excludes it.

The code is followed where its comments say something else: the log driver's `max-file` counts rotated
files beside the primary one (a comment says 0 keeps one file only, the code keeps two), and the
comment that a failed Connect rolls back all completed steps misses the first case above.

## Model

| member | source | states |
|---|---|---|
| `NetworkRuns.RunKeepsCoherent` | internal/network/manager.go:294-476 | over every run of create, connect, disconnect, disconnect-all and remove that meets its guards: for each bridge network the offsets allocated from 2 up are exactly those of its endpoints, no two endpoints share an address, the NAT port keys are exactly those the endpoints ask for, the DNS records are exactly the names of the endpoints of user-defined networks, live subnets are disjoint, and the name index is a bijection with the networks. The guards: a network that is not refused has a new ID without a slash and a subnet that the bitmap covers and that meets no live one; a Connect that gets an address brings a container and a name new to its network, and its clean-ups succeed if they run; what fails inside a disconnect is harmless. Any call of a create, a connect or a removal may fail, and the clean-up of a create |
| `NetworkRuns.GuardExactly` | internal/network/manager.go:156-476 | no weaker guard would do: a call on a coherent state keeps it coherent exactly under its guard, whichever step of a create, a connect or a removal fails and for the given failures of a disconnect |
| `NetworkOverlap.PoolRunsAreGuarded` | internal/network/manager.go:719-754 | when user-given subnets are in the pool or apart from it, every automatic choice meets no live subnet, so a run of such networks needs no condition on what is assigned, and stays coherent |
| `NetworkMasquerade.RunKeepsMasquerade` | internal/network/manager.go:156-288 | over every such run masquerade rules exist for exactly the bridge networks that are not internal, as long as no late failure of a creation takes the rule of another network or leaves its own, and rule and record of a removed network go together |
| `NetworkMasquerade.CreateKeepsMasqueradeExactly` | internal/network/manager.go:182-228 | whatever call fails, a guarded creation keeps the rules right exactly when its clean-up takes back the rule that was added and no other |
| `NetworkMasquerade.RemoveKeepsMasqueradeExactly` | internal/network/manager.go:234-288 | whatever call fails, a removal keeps the rules right exactly when rule and record both go or both stay, or the network is internal |
| `NetworkRuns.InitialCoherent` | internal/network/manager.go:644-715 | the predefined networks bridge, host and none make a coherent state to start from |
| `NetworkRuns.FirstConnect` | internal/network/manager.go:294-392 | the first container on the default network is connected at 172.20.0.2, and the state stays coherent |
| `NetworkInvariant.ConnectRestoresExactly` | internal/network/manager.go:308-382 | whatever call fails, a Connect that fails gives back the whole state (allocation, NAT keys, DNS records, endpoints): exactly when its clean-ups succeed and the name it would register on a user-defined network is not on record yet, or it gets no address at all |
| `NetworkInvariant.FailedConnectRestores` | internal/network/manager.go:308-382 | the same for one failing call: with clean-ups that succeed only the failure to persist the endpoint loses anything; rests on the fact that a fresh address occurs in no NAT key |
| `NetworkInvariant.FreshAddress` | internal/network/ipam.go:41-67 | the address at a free offset of a live network belongs to no endpoint of any network and occurs in no NAT key |
| `NetworkInvariant.KeyOfInjective` | internal/network/nat.go:18-25 | the key of a rule tells any two mappings apart: by host address, host port, container port, protocol, or container address |
| `NetworkInvariant.ConnectPublishes` | internal/network/manager.go:339-352 | a Connect that commits on a coherent state adds exactly one rule for each distinct mapping it publishes |
| `NetworkInvariant.ConnectStores` | internal/network/manager.go:294-392 | what it stores and returns: the arguments of the call, the lowest free address from offset 2 up, and as the only DNS name the name of the container without its slash |
| `NetworkInvariant.ConnectSucceedsExactly` | internal/network/manager.go:294-392 | it succeeds exactly when the network exists and, for a bridge, an address is free and no call fails, where a mapping given before is added without a call; otherwise it reports the first of these that fails |
| `NetworkInvariant.ConnectVirtual` | internal/network/manager.go:303-306 | on a network without a bridge it does nothing, and the endpoint returned has no address, rule or name |
| `NetworkInvariant.ConnectThenDisconnect` | internal/network/manager.go:294-476 | disconnecting what was just connected is the identity on the whole state |
| `NetworkInvariant.ConnectKeepsCoherentExactly` | internal/network/manager.go:294-392 | a successful Connect keeps the state coherent exactly when the container (its ID without a slash) is not on the network yet and, on a user-defined network, its name is not registered there yet |
| `NetworkInvariant.ReconnectLeaks` | internal/store/network.go:189-204 | connecting a container that is already on the network overwrites its endpoint and leaks the old address |
| `NetworkInvariant.NameReuseHides` | internal/network/dns.go:135-146 | connecting under a registered name hides the endpoint that had it |
| `NetworkOverlap.RollbackLosesRecord` | internal/network/manager.go:358-364 | the rollback of a failed Connect under a name in use takes the record of the endpoint that is still there |
| `NetworkOverlap.RollbackLossHappens` | internal/network/manager.go:358-364 | and this happens: on an automatic network after the first start, with a container named "/web" and a second one named "web" |
| `NetworkDisconnect.DisconnectKeepsCoherentExactly` | internal/network/manager.go:430-476 | whatever fails inside a disconnect (rules the kernel keeps, the release, the deletion of the endpoint), the state stays coherent exactly when nothing fails, or when everything does that would have changed something |
| `NetworkInvariant.DisconnectKeepsCoherent` | internal/network/manager.go:430-476 | in particular a disconnect without failing calls, forced or not, of a present or absent endpoint keeps the state coherent |
| `NetworkInvariant.DisconnectSparesOthers` | internal/network/nat.go:380-412 | removing one endpoint never removes a NAT rule another endpoint asked for |
| `NetworkDisconnect.DisconnectEachRemoves` | internal/network/manager.go:403-427 | disconnecting a container from listed networks removes exactly those of its endpoints that can be deleted, and leaves every other endpoint and every network as it was |
| `NetworkDisconnect.DisconnectEachKeepsCoherentExactly` | internal/network/manager.go:403-427 | whatever fails on which network, disconnecting a container from all of them keeps the state coherent exactly when the failures are harmless on each: what a harmful one leaves is not mended by the others |
| `NetworkDisconnect.DisconnectReports` | internal/network/manager.go:430-476 | an absent endpoint is reported exactly when the disconnect is not forced, and otherwise only a deletion that failed |
| `NetworkDisconnect.DisconnectEachReports` | internal/network/manager.go:403-427 | disconnecting from listed networks reports exactly whether some endpoint of the container there could not be deleted, and removes exactly the others |
| `NetworkRuns.CreateKeepsCoherentExactly` | internal/network/manager.go:156-231 | a successful creation keeps the state coherent exactly when the ID is new and has no slash, and the subnet is covered by the bitmap and meets no live subnet: what CreateNetwork does not check |
| `NetworkRuns.CreateGuardExactly` | internal/network/manager.go:156-231 | whatever call fails, a creation keeps the state coherent exactly when this holds or it is refused |
| `NetworkRuns.CreateSucceedsExactly` | internal/network/manager.go:156-231 | a creation succeeds exactly when the driver is known, ID and name are not empty, the name is free, a subnet is given or left in the pool, and no call fails; the error says which of these it was |
| `NetworkRuns.CreateRecords` | internal/network/manager.go:163-231 | what a creation records: name and flag of the call, the subnet given or the first pool subnet not in use, the gateway given with a subnet or else the address at offset 1; nothing else changes but the masquerade rules |
| `NetworkRuns.CreateRestoresExactly` | internal/network/manager.go:182-228 | whatever call fails, a CreateNetwork that fails leaves everything as it was: exactly when the clean-up takes the rule back and the subnet had none before, or the clean-up fails and no rule was added |
| `NetworkRuns.FailedCreateRestores` | internal/network/manager.go:182-228 | the same for one failing call |
| `NetworkRuns.RefusedCreateDropsMasquerade` | internal/network/manager.go:182-228 | for example: a second network named bridge on the default subnet is refused and the default network loses its masquerade rule |
| `NetworkRuns.RemoveKeepsCoherent` | internal/network/manager.go:234-288 | removing a network, refused or not and whichever clean-up calls fail, keeps the state coherent |
| `NetworkRuns.RemoveSucceedsExactly` | internal/network/manager.go:234-288 | a removal is refused exactly for an unknown network, a predefined one, and one that some endpoint is on |
| `NetworkRuns.NoSubnetsExactly` | internal/network/manager.go:719-754 | automatic assignment reports no available subnets exactly when all 27 pool subnets are in use |
| `NetworkOverlap.OverlapSharesAddressExactly` | internal/network/manager.go:169-178 | two networks can hand out one and the same address exactly when their subnets overlap, equal subnets included, and neither is a /31 or /32 |
| `NetworkOverlap.SharedSubnetLosesAllocations` | internal/network/manager.go:234-288 | two networks on one subnet share one bitmap: removing the empty one drops every allocation of the other, whose endpoints stay |
| `NetworkOverlap.AddressTakenBackExactly` | internal/network/manager.go:308-328 | on any network, covered by its bitmap or not, a Connect that fails after the allocation gives the address back exactly when the release succeeds and the address lies in the subnet it came from |
| `NetworkOverlap.HostBitsLeadOutside` | internal/network/ipam.go:201-225 | which it may not when host bits are set: the first address of 10.0.0.3/30 lies outside |
| `NetworkManager.Manager.Connect` | internal/network/manager.go:294-392 | the step-by-step method with its clean-up stack does to store, bitmap, NAT map and DNS map exactly what the specification says, with every error result, on any state |
| `NetworkManager.Manager.RunCleanups` | internal/network/manager.go:308-317 | the clean-ups run last one first and together undo what they name, as far as the calls in them succeed |
| `NetworkManager.Manager.AddPortMappings` | internal/network/manager.go:339-352 | rules are added until one fails; the clean-ups remembered are those of the rules added |
| `NetworkManager.Manager.DisconnectLocked` | internal/network/manager.go:430-476 | new state and result of a disconnect, component by component, whichever of its calls fail; and exactly when the release panics on an address past the bitmap, with what is left undone |
| `NetworkManager.Manager.DisconnectAll` | internal/network/manager.go:403-427 | every endpoint of the container is disconnected, in the order of the listing, past failures, up to a panic; the last error is returned |
| `NetworkManager.Manager.CreateNetwork` | internal/network/manager.go:156-231 | new state and result of a creation, with every refused and failing case |
| `NetworkManager.Manager.AutoAssign` | internal/network/manager.go:719-754 | the first pool subnet whose text is not that of a live one, with its gateway |
| `NetworkManager.Manager.RemoveNetwork` | internal/network/manager.go:234-288 | new state and result of a removal: not found, default, not a bridge, endpoints left, and each clean-up call that may fail |
| `NetworkComponents.NAT.AddPortMapping` | internal/network/nat.go:266-377 | adds the rule of this mapping and leaves that of every other mapping and address as it was; an existing one is accepted without a call into the kernel; a failure has no effect |
| `NetworkComponents.NAT.RemovePortMapping` | internal/network/nat.go:380-412 | removes the rule of this mapping and leaves that of every other mapping and address as it was; one not there is accepted, a rule the kernel refuses to delete stays |
| `NetworkComponents.NAT.AddMasquerade` | internal/network/nat.go:127-233 | one rule for a subnet; an existing one is accepted silently |
| `NetworkComponents.NAT.RemoveMasquerade` | internal/network/nat.go:236-262 | removes the rule, or nothing when the kernel refuses |
| `NetworkComponents.DNS.RegisterName` | internal/network/dns.go:135-146 | one record is set, the others stay |
| `NetworkComponents.DNS.DeregisterName` | internal/network/dns.go:149-162 | one record goes, and the inner map with its last record |
| `NetworkComponents.DNS.DeregisterNetwork` | internal/network/dns.go:165-170 | all records of a network go |
| `NetworkComponents.Store.GetNetwork` | internal/store/network.go:56-116 | the cursor lookup agrees with the set-level resolution by ID, name or unique ID prefix |
| `NetworkComponents.Store.CreateNetwork` | internal/store/network.go:27-53 | record and name are stored together, or nothing: for a name in use, an empty key, or a failed update |
| `NetworkComponents.Store.DeleteNetwork` | internal/store/network.go:140-158 | record and name go together |
| `NetworkComponents.Store.ListNetworks` | internal/store/network.go:161-181 | exactly the records |
| `NetworkComponents.Store.CreateEndpoint` | internal/store/network.go:189-204 | stores under the composite key, overwriting |
| `NetworkComponents.Store.GetEndpoint` | internal/store/network.go:207-234 | exact lookup under the composite key |
| `NetworkComponents.Store.DeleteEndpoint` | internal/store/network.go:237-247 | removes one endpoint, or nothing when the update fails |
| `NetworkComponents.Store.ListEndpoints` | internal/store/network.go:250-274 | the scan that stops at the first key without the prefix finds all endpoints with it |
| `NetworkComponents.Store.ListContainerEndpoints` | internal/store/network.go:277-299 | exactly the endpoints of the container |
| `NetworkInvariant.EndpointKeyInjective` | internal/store/network.go:184-186 | composite keys of IDs without a slash are injective |
| `NetworkInvariant.PrefixNamesNetwork` | internal/store/network.go:250-274 | a composite key starts with "{networkID}/" exactly when it belongs to that network |
| `DnsRestore.RestoreGivesRecords` | internal/network/manager.go:757-768 | registering every stored endpoint of the user-defined networks into an empty map, in any order, gives exactly the records of the daemon that stored them, without the networks left out |
| `NetworkRestart.RestoreNetworks` | internal/network/manager.go:96-127 | the loop of Init over the stored networks: which records are registered again and which masquerade rules are added, for any bridges and rules that cannot be set up and endpoints that cannot be listed |
| `NetworkRestart.RestoreDNSEntries` | internal/network/manager.go:757-768 | registers the names of all endpoints under the network prefix, or nothing when they cannot be listed |
| `NetworkRestart.RestartRestoresRecords` | internal/network/manager.go:96-127 | a daemon started on the store of a coherent one has the same DNS records, without the networks whose bridge or listing fails |
| `NetworkRestart.Restart` | internal/network/manager.go:87-127 | a new manager on the store of a stopped one: empty rule maps and records, then the loop over the stored networks |
| `NetworkRestart.RestartMasqueradeExactly` | internal/network/manager.go:114-117 | the state Restart builds has the masquerade rules right exactly when the networks whose rule could be added are those that are not internal: the loop does not look at the flag |
| `NetworkRestart.RestartCoherentExactly` | internal/network/manager.go:87-127 | the state Restart builds is coherent exactly when no port was published and no network whose bridge or listing fails carries a named endpoint |
| `NetworkRuns.PredefinedStay` | internal/network/manager.go:644-715 | after every guarded run from a first start bridge, host and none are still found by their names, so the next Init creates none of them again |
| `DnsLookup.LookupA` | internal/network/dns.go:253-267 | an answer is some recorded address of the name, none exactly when no network has it |
| `DnsLookup.LookupPTR` | internal/network/dns.go:270-289 | an answer is a recorded name of the address, none when no record has it |
| `DnsLookup.PtrExactly` | internal/network/dns.go:366-388 | a name is read as an address exactly when it is that address written in reverse under in-addr.arpa, with or without the final dot |
| `DnsLookup.ReverseNameExample` | internal/network/dns.go:366-388 | for example, the reverse name of 192.168.0.10 is 10.0.168.192.in-addr.arpa |
| `DnsLookup.ReverseNamesOwner` | internal/network/dns.go:270-289 | in a coherent state the reverse answer names the only endpoint that has the address |
| `DnsLookup.ReverseFindsEndpoint` | internal/network/dns.go:270-289 | in a coherent state every endpoint of a user-defined network is found by its address |
| `Bitmaps.FindFirstUnset` | internal/network/ipam.go:229-265 | the byte-skipping scan with shift and trailing-zero count returns the least clear bit in [start, maxBits), or -1 exactly when there is none |
| `Bitmaps.SetBit` | internal/network/ipam.go:268-270 | sets one bit in place and no other |
| `Bitmaps.ClearBit` | internal/network/ipam.go:273-275 | clears one bit in place and no other |
| `Bitmaps.MaskValues` | internal/network/ipam.go:268-275 | bits are counted from the lowest of each byte; a new bitmap starts with the byte 3 |
| `Ipam.IPAM.LoadOrCreateBitmap` | internal/network/ipam.go:162-187 | a bitmap that reads as the stored one, grown with zero bytes |
| `Ipam.BytesSuffice` | internal/network/ipam.go:162-187 | the bitmap worked on has a bit for each offset, and no byte more than that takes unless more were stored |
| `Ipam.IPAM.Allocate` | internal/network/ipam.go:41-67 | returns the lowest free address, sets its bit and no other, and raises the count by one, or fails for exactly the reason given and leaves the stored bitmaps unchanged |
| `Ipam.IPAM.AllocateSpecific` | internal/network/ipam.go:70-97 | sets one bit and no other, or fails without effect; on a subnet never used, offsets 0 and 1 are taken and no other; an address past the end of the bitmap panics |
| `Ipam.IPAM.Release` | internal/network/ipam.go:100-123 | clears one bit and no other, or fails without effect; an address past the end of the bitmap panics |
| `Ipam.IPAM.Count` | internal/network/ipam.go:127-146 | used is the number of allocated offsets from 2 up, total the subnet size less 2 |
| `Ipam.IPAM.ReleaseSubnet` | internal/network/ipam.go:149-158 | drops one bitmap |
| `Ipam.ExhaustedWhenCountersMeet` | internal/network/ipam.go:127-146 | no address is free exactly when used equals total, for exactly the prefixes other than /32, where total is -1 |
| `Addresses.PackUnpack` | internal/network/ipam.go:201-225 | byte split and reassembly of an address are inverse |
| `Addresses.UnpackPack` | internal/network/ipam.go:201-225 | and so the other way round |
| `Addresses.OffsetValue` | internal/network/ipam.go:201-210 | for a canonical subnet and an offset below its size the uint32 addition does not wrap |
| `Addresses.OffsetRoundTrip` | internal/network/ipam.go:201-225 | the address at an offset lies in the subnet and has that offset, so distinct offsets give distinct addresses |
| `Addresses.AddressRoundTrip` | internal/network/ipam.go:201-225 | an address of the subnet has an offset that leads back to it |
| `Addresses.BitmapCoversExactly` | internal/network/ipam.go:190-225 | every address of a prefix has its bit in the bitmap exactly when the prefix is canonical and not wider than /12 |
| `SubnetPool.AutoAssignSubnet` | internal/network/manager.go:719-754 | the first pool subnet not in use and its gateway, none exactly when all are in use |
| `SubnetPool.PoolExactly` | internal/network/manager.go:719-754 | the pool is exactly 172.21.0.0/16 to 172.31.0.0/16 and the /20 pieces of 192.168.0.0/16 |
| `SubnetPool.PoolPairwiseDisjoint` | internal/network/manager.go:719-754 | pool subnets share no address |
| `SubnetPool.DefaultOutsidePool` | internal/network/manager.go:719-754 | the default subnet shares no address with the pool |
| `SubnetPool.GatewayIsOffsetOne` | internal/network/manager.go:719-754 | the gateway chosen is the address at offset 1 |
| `SubnetPool.TextComparisonSuffices` | internal/network/manager.go:719-754 | comparing subnets as text avoids every overlap with a given live subnet exactly when that subnet is in the pool or apart from all of it |
| `SubnetPool.WideSubnetIsAssignedInto` | internal/network/manager.go:719-754 | a live 172.16.0.0/12 is not seen, and a pool subnet inside it is assigned |
| `Lookup.GetRecord` | internal/store/container.go:57-122 | an exact ID is found first, then the first name that leads to a record; else the unique record whose ID starts with the query, ambiguity exactly when two or more do, not found exactly when none does |
| `Lookup.OutsidePrefixBlock` | internal/store/container.go:88-105 | keys with a prefix are contiguous in byte order, so the scan may stop at the first key without it |
| `Lookup.ListPrefix` | internal/store/network.go:250-274 | the scan from Seek to the first key without the prefix yields exactly the entries with it, in order |
| `Lookup.PutContents` | internal/store/container.go:40-50 | putting into an ordered bucket is a map update |
| `Lookup.DeleteContents` | internal/store/container.go:146-158 | deleting from an ordered bucket removes one key |
| `ContainerStore.Store.CreateContainer` | internal/store/container.go:28-54 | new state and result: name conflict, failed update or empty key, or record and name stored together |
| `ContainerStore.Store.GetContainer` | internal/store/container.go:57-122 | ID, name with or without the leading slash, or unique ID prefix |
| `ContainerStore.Store.UpdateContainer` | internal/store/container.go:125-143 | new state and result, missing record and failed update included |
| `ContainerStore.Store.DeleteContainer` | internal/store/container.go:146-166 | record, name and bundle path go together, or nothing when the update fails |
| `ContainerStore.WrittenIsRead` | internal/store/container.go:28-143 | after a create or an update the lookup gives back the record just written, and for every other ID what it gave before |
| `ContainerStore.RefusedExactly` | internal/store/container.go:28-166 | with the index intact a create is refused for its name exactly when a record has it, an update exactly when there is no record, a delete never; a delete takes the record of its ID and no other |
| `ContainerStore.FailureChangesNothing` | internal/store/container.go:28-166 | an operation that fails changes nothing, and it fails whenever the database does not commit |
| `ContainerStore.KeepsIndexExactly` | internal/store/container.go:28-166 | whether or not the database commits, an operation keeps the name index a bijection with the records exactly when a new ID is new, an update does not rename, and a delete gives the own name of the record |
| `ContainerStore.RunKeepsIndex` | internal/store/container.go:28-166 | so the index is a bijection after every run of such operations |
| `ContainerStore.FoundByName` | internal/store/container.go:71-86 | with the index intact a container is found by its name and by its name without the slash |
| `Stdcopy.BuildFrame` | internal/api/stream/stdcopy.go:61-68 | fills header and payload in place |
| `Stdcopy.FrameLayout` | internal/api/stream/stdcopy.go:61-68 | 1 for stdout or 2 for stderr, three zeros, the length with its highest byte first, and the payload |
| `Stdcopy.DecodeFrames` | internal/api/stream/stdcopy.go:61-68 | decoding a concatenation of frames by their headers gives all streams and payloads back |
| `Stdcopy.FrameRoundTripExactly` | internal/api/stream/stdcopy.go:61-68 | a frame decodes to what was framed exactly when the payload is shorter than 2^32 bytes |
| `Lines.CopyStreamRaw` | internal/runtime/io.go:132-196 | however the input is cut into reads, the lines logged are the split of the whole input; the chunks passed on are the input and never empty |
| `Lines.DrainLines` | internal/runtime/io.go:149-170 | the inner loop takes every complete line and leaves the rest |
| `Lines.CopyStream` | internal/runtime/io.go:198-235 | however the input is cut into reads, the same lines are logged, and they are what is passed on |
| `Lines.Reader.ReadBytes` | internal/runtime/io.go:204-204 | what copyStream relies on from the buffered reader: up to the first newline, or all there is with the error |
| `Lines.SplitExactly` | internal/runtime/io.go:132-235 | the split is the only way to cut the input, ended by a newline, into pieces that each end in their only newline |
| `Lines.SplitExample` | internal/runtime/io.go:149-170 | for example, a newline b is the two lines a and b |
| `Lines.SplitResumes` | internal/runtime/io.go:148-170 | splitting can be resumed from the tail kept between reads |
| `Lines.ProgressWriter.Write` | internal/image/pull.go:111-134 | after any writes the messages are those of the complete lines of all the text, trimmed and not blank, and the buffer is what follows the last newline |
| `Lines.MessageOfLine` | internal/image/pull.go:111-134 | one line gives one message, trimmed and without its newline, or none when it is blank |
| `Attach.ContainerIO.FanOutOrBuffer` | internal/runtime/io.go:241-268 | the output, framed unless on a TTY, is buffered while nobody has attached; otherwise every attached client gets it once per attachment and nobody else anything |
| `Attach.ContainerIO.AddAttachWriter` | internal/runtime/io.go:291-303 | replays the buffer to the new client and empties it |
| `Attach.ContainerIO.RemoveAttachWriter` | internal/runtime/io.go:306-316 | removes the first attachment of the client and no other |
| `Attach.BufferHoldsPending` | internal/runtime/io.go:241-303 | in any interleaving the buffer holds exactly the last pending outputs, and nothing while a client is attached or after a replay |
| `Attach.ReceivesBlock` | internal/runtime/io.go:241-316 | in any interleaving a client attached once receives a contiguous block of whole outputs in the global order, from the oldest one buffered when it attached to the last before it detached |
| `Attach.ReplayedOnce` | internal/runtime/io.go:291-303 | no output is replayed to two clients |
| `Attach.FlushedExactly` | internal/runtime/io.go:291-303 | the buffer counts as replayed from the first attach on that finds something in it, and not before |
| `Attach.WriteAllCounts` | internal/runtime/io.go:262-268 | a client attached k times is sent every output k times |
| `Attach.LossExactly` | internal/runtime/io.go:257-267 | an output is lost exactly when it came while nobody was attached after the replay; any other was received by somebody or waits in the buffer |
| `Attach.FirstClientGetsAll` | internal/runtime/io.go:241-316 | the first client to attach, if it stays, receives everything, whoever else comes and goes |
| `Attach.FirstTerminalGetsStream` | internal/runtime/io.go:241-316 | on a TTY the first client that stays has received exactly the bytes of the container, from the first one on, and no frame header |
| `Attach.FirstClientReadsStreams` | internal/runtime/io.go:198-268 | without a TTY and with lines shorter than 2^32 bytes, decoding what that client received gives exactly the stdout lines and the stderr lines, and put together the two byte streams |
| `RotatingLog.Driver.Log` | internal/log/jsonfile/jsonfile.go:84-112 | new files and error of a Log call, whichever system call fails, ignored failures included |
| `RotatingLog.Driver.RotateIfNeeded` | internal/log/jsonfile/jsonfile.go:221-267 | where each file goes in the descending renames, when the removal or any rename fails and is passed over, and what a failed close, rename or open leaves |
| `RotatingLog.Driver.ReadLogs` | internal/log/jsonfile/jsonfile.go:142-171 | lists the files and opens them one by one, oldest first, while the disk may change; of all entries that pass it gives the last k for a tail k >= 0, or all that there are when fewer or when the tail is negative |
| `RotatingLog.ReadsAtRest` | internal/log/jsonfile/jsonfile.go:148-161 | with no Log call in between that is the files from the highest number down to the primary one |
| `ConcurrentReads.ConcurrentReadExactly` | internal/log/jsonfile/jsonfile.go:142-161 | with any system calls of the writer between the steps of the reader, inside a rotation too, and none of them failing: nothing is read twice or out of order, and the files give every entry from the first one read up to the last one logged exactly when, between the openings of two files, no entry is in a file between them or moves from the next one into the one above it |
| `ConcurrentReads.ListingOpens` | internal/log/jsonfile/jsonfile.go:269-293 | whatever the listing finds while files move is a list this holds for |
| `ConcurrentReads.RunIsCalls` | internal/log/jsonfile/jsonfile.go:221-267 | the system calls of a run one by one lead to its disk, append what it accepts, and no rename replaces a file |
| `ConcurrentReads.AlwaysInPlace` | internal/log/jsonfile/jsonfile.go:238-264 | between any two of them, in the middle of a rotation too, the files hold what was logged last, in order |
| `ConcurrentReads.ReadsOpened` | internal/log/jsonfile/jsonfile.go:173-219 | what is handed out of the files opened: the entries that pass, when no line is over-long |
| `RotatingLog.ReadLogFile` | internal/log/jsonfile/jsonfile.go:173-219 | the entries that pass, up to the first line over 64 KiB |
| `RotatingRuns.FilterExactly` | internal/log/jsonfile/jsonfile.go:196-210 | the filter takes entries one by one and keeps exactly those not before since, not after until and on a stream that is asked for |
| `RotatingLog.RotatedFiles` | internal/log/jsonfile/jsonfile.go:270-293 | the numbers of the rotated files there are, highest first |
| `RotatingLog.ExistingExactly` | internal/log/jsonfile/jsonfile.go:270-293 | that list is the only descending one of exactly these numbers |
| `RotatingRuns.UnbrokenSuffix` | internal/log/jsonfile/jsonfile.go:84-112 | after any Log calls and restarts, whichever calls fail, the files oldest first hold an unbroken suffix of the entries accepted, as long as in every rotation the entries of a file go only if those of all older files go |
| `RotatingRuns.SuffixStepExactly` | internal/log/jsonfile/jsonfile.go:221-267 | and exactly so: the first rotation in which they do not breaks the suffix, when the entries accepted are all different |
| `RotatingRuns.TearsExactly` | internal/log/jsonfile/jsonfile.go:238-251 | on rotated files without gaps, none of them empty, this is when no ignored rename fails but that of the highest file renamed, and not that one either when the removal above it fails |
| `RotatingRuns.FailedRemovalAlone` | internal/log/jsonfile/jsonfile.go:238-243 | a removal that fails alone does no harm |
| `RotatingRuns.StuckRenameTears` | internal/log/jsonfile/jsonfile.go:245-251 | for example: of the entries a, b, c in three files, a failed rename of the middle one loses b and keeps a, and the call returns no error |
| `RotatingRuns.AlwaysInOrder` | internal/log/jsonfile/jsonfile.go:84-112 | whatever fails, the files hold the entries accepted in their order with some left out: none twice, none out of order |
| `RotatingRuns.FilesAreLastGroups` | internal/log/jsonfile/jsonfile.go:221-267 | without failures every call is accepted and file n holds exactly the n-th group from the end when entries are cut greedily by the size limit, for n up to the limit on files |
| `RotatingRuns.RotationBounds` | internal/log/jsonfile/jsonfile.go:221-267 | then there is a file for each group, up to max-file rotated ones beside the primary one, at least one; files are within the size limit or hold a single entry, and each was begun because its first entry did not fit |
| `RotatingRuns.GroupsCover` | internal/log/jsonfile/jsonfile.go:221-267 | the groups put together are the entries logged |
| `RotatingLog.SizeAdds` | internal/log/jsonfile/jsonfile.go:221-229 | the size of a file is the sum of the sizes of its entries |
| `RotatingRuns.ClosedExactly` | internal/log/jsonfile/jsonfile.go:221-267 | the driver is closed exactly when, since it was last created, a rotation was due and failed to close, rename or reopen the file |
| `RotatingRuns.AcceptsExactly` | internal/log/jsonfile/jsonfile.go:84-112 | a Log call whose own system calls succeed is accepted exactly when no such failure has happened |
| `RotatingRuns.LogReports` | internal/log/jsonfile/jsonfile.go:84-112 | on an open driver the error of a Log call names exactly the first of its system calls that fails and is not ignored, among those it comes to |
| `RotatingRuns.FailedRotationIsFinal` | internal/log/jsonfile/jsonfile.go:231-264 | after it every later Log call fails and changes nothing until the driver is created again |
| `RotatingRuns.ReadsAllExactly` | internal/log/jsonfile/jsonfile.go:173-219 | the reader gives all entries on disk that pass, in order, exactly when in no file an entry that passes stands at or after a line over 64 KiB |
| `RotatingRuns.OverlongLineHidesRest` | internal/log/jsonfile/jsonfile.go:183-186 | for example: a line of 64 KiB is read with the one after it, one byte more and neither is |
| `RotatingRuns.TailOfAllAccepted` | internal/log/jsonfile/jsonfile.go:142-171 | after such a run, for lines within 64 KiB, a tail of k gives the last k of all accepted entries that pass, as long as that many are still on disk, and any other tail all that are |
| `Lifecycle.Manager.Attach` | internal/runtime/container.go:1267-1284 | one round of Attach: the activation, or the channel to wait on, made when there is none |
| `Lifecycle.Manager.Register` | internal/runtime/container.go:602-621 | activation and pid are entered, the waiting channel is closed and forgotten |
| `Lifecycle.Manager.Unregister` | internal/runtime/container.go:648-652 | what a failed crun start takes back |
| `Lifecycle.Manager.TakeExit` | internal/runtime/container.go:994-1006 | the pid is consumed; container and activation are returned |
| `Lifecycle.Manager.HandleExit` | internal/runtime/container.go:994-1063 | on both paths the code is cached before the done channel is closed, once |
| `Lifecycle.Manager.Remove` | internal/runtime/container.go:807-811 | activation and waiting channel are forgotten |
| `Lifecycle.Manager.MarkStopped` | internal/runtime/container.go:691-696 | flags the activation if there is one; what the flag means is StoppedExactly |
| `LifecycleRuns.AttachNeverMissesStart` | internal/runtime/container.go:1267-1300 | in any interleaving a container is waited for only while not active, on an open channel of its own; no channel is closed twice; and an attach waiting on an open channel waits on the current one exactly when no removal made the manager forget that channel |
| `LifecycleRuns.RegisterWakes` | internal/runtime/container.go:615-619 | so the next registration closes the channel of every attach that waits for the container on a channel not forgotten, removed before or not |
| `LifecycleRuns.RemoveStrandsAttach` | internal/runtime/container.go:807-811 | a channel forgotten by Remove is never closed by anything that happens later |
| `LifecycleRuns.CanWakeExactly` | internal/runtime/container.go:1267-1300 | an attach waiting on an open channel can still be woken, by some continuation, exactly when a container is entered with that channel, which is when no removal forgot it |
| `LifecycleRuns.ExitsSignalOnce` | internal/runtime/container.go:994-1063 | in every interleaving where a pid is registered only when it is not registered yet and no other pid is for its container, each done channel is closed at most once and only with its exit code cached, and a registered pid leads to the activation with that pid |
| `LifecycleRuns.ExitTakenOnce` | internal/runtime/container.go:997-1006 | an exit goes to the activation with its pid, and no second one is taken for it |
| `LifecycleRuns.ExitCodeIsFinal` | internal/runtime/container.go:1023-1063 | once the done channel is closed the cached exit code never changes |
| `LifecycleRuns.AgreementExactly` | internal/runtime/container.go:602-613 | registering a pid keeps pids and activations in agreement exactly when no other pid leads to the container |
| `LifecycleRuns.TwoPidsCloseTwice` | internal/runtime/container.go:994-1063 | as soon as two pids lead to one active container, their exits close the same channel twice |
| `LifecycleRuns.SecondPid` | internal/runtime/container.go:602-613 | a second pid registered for a running container: the first activation is never signalled, whatever happens afterwards, and the second one twice |
| `LifecycleRuns.CanSignalExactly` | internal/runtime/container.go:994-1063 | whoever waits for an activation not signalled yet can still be woken, by some continuation, exactly when a registered pid leads to it or its exit is being handled |
| `LifecycleRuns.DroppedNeverSignals` | internal/runtime/container.go:645-652 | after a failed start, a removal before the exit, or another registration of the container, nothing ever closes the done channel of the activation dropped |
| `LifecycleRuns.StoppedExactly` | internal/runtime/container.go:691-696 | over every run an activation is flagged exactly when its container was stopped while it was the active one |
| `LifecycleRuns.StoppedNeverRestarts` | internal/runtime/container.go:1081-1104 | so a container stopped by hand is not restarted, whatever policy, count and exit code, and under always and unless-stopped it is restarted exactly when it was not |
| `LifecycleRuns.FailedStartForgotten` | internal/runtime/container.go:645-652 | a start that fails leaves neither an activation nor a pid, and what there was for others stays |
| `LifecycleRuns.RemovalLeavesPids` | internal/runtime/container.go:807-811 | a removal forgets activation and channel but no pid: an exit that comes later is taken for no activation |
| `RestartPolicy.HandleRestartPolicy` | internal/runtime/container.go:1085-1124 | whether a restart is scheduled, after which delay, and the record it leaves |
| `RestartPolicy.ComputeBackoff` | internal/runtime/container.go:1116-1124 | the doubling loop gives min(100 ms * 2^(n-1), 60 s) in at most ten rounds |
| `RestartPolicy.HandleExits` | internal/runtime/container.go:1085-1124 | called for each exit in turn, the method schedules the delays of the specification |
| `RestartPolicy.RestartsExactly` | internal/runtime/container.go:1094-1104 | a run schedules the first k restarts its failing exits ask for under on-failure with k > 0, and all of them under any other policy |
| `RestartPolicy.AtMostMaximumRetries` | internal/runtime/container.go:1097-1099 | so never more than k, counted from a new container |
| `RestartPolicy.DelaysDouble` | internal/runtime/defaults.go:16-23 | the n-th restart waits exactly min(100 ms * 2^n, 60 s), counting from 0, and delays never decrease |
| `EventBus.Bus.Publish` | internal/events/bus.go:56-83 | every matching subscriber gets the stamped message unless 256 are waiting; others get nothing |
| `EventBus.Bus.Subscribe` | internal/events/bus.go:87-97 | a new open channel under an unused id |
| `EventBus.Bus.Close` | internal/events/bus.go:100-109 | closes the channel of this subscription alone; a second close does nothing |
| `EventBus.NeverPanics` | internal/events/bus.go:56-109 | in every interleaving of publishers, subscribers and closers nothing is sent on a closed channel and no channel is closed twice |
| `EventBus.PublishVisitsAll` | internal/events/bus.go:70-82 | a Publish that ends has visited every registered subscriber exactly once |
| `EventBus.LossExactly` | internal/events/bus.go:73-82 | what a subscriber received and what waits for it is exactly the matching messages sent to it, in send order, without those sent while 256 were waiting |
| `EventBus.CutSplits` | internal/events/bus.go:221-233 | a label filter is cut at its first equals sign and nothing is lost |
| `EventBus.CategoriesApart` | internal/events/bus.go:143-161 | a message passes exactly when it passes each category of filters alone |
| `EventBus.TypesAndActions` | internal/events/bus.go:143-150 | types and actions admit what they list, an empty list everything |
| `EventBus.ActorsOfTheirKind` | internal/events/bus.go:164-218 | a list of containers, images, networks or volumes admits of the messages of that kind those whose ID starts with a listed text or whose name is listed, and every message of another kind |
| `EventBus.LabelsMet` | internal/events/bus.go:221-236 | a label without = admits messages that carry it, with a value those that carry that value, and all labels have to be met |
| `EventBus.StampFillsIn` | internal/events/bus.go:56-68 | a time or scope that is set stays, one that is missing is filled in |
| `Binds.ParseBind` | internal/runtime/mounts.go:115-192 | the option loop: last of ro and rw, last propagation, every error case |
| `Binds.ParsedFields` | internal/runtime/mounts.go:115-192 | what a bind with options parses to: the host path or the mountpoint of the volume named, the destination cleaned, rbind, propagation and mode as the options say |
| `Binds.ParsedDefaults` | internal/runtime/mounts.go:115-192 | without options a bind is writable and rprivate; without a colon it is refused |
| `Binds.WritableExactly` | internal/runtime/mounts.go:129-138 | writable exactly when each ro is followed by an rw |
| `Binds.PropagationExactly` | internal/runtime/mounts.go:129-138 | the last propagation mode counts, rprivate when there is none |
| `Binds.ForceReadOnly` | internal/runtime/mounts.go:329-358 | the rewritten string, in each of its three cases |
| `Binds.ForcedParsesReadOnly` | internal/runtime/mounts.go:329-358 | for every string, parsing the forced one gives the same mount read-only, with the same source, destination and propagation, or the same error |
| `Binds.ForcedKeepsOptions` | internal/runtime/mounts.go:329-358 | forcing turns each rw into ro, adds ro at the end when there was neither, and keeps every other option in its place |
| `Binds.ForcedIdempotent` | internal/runtime/mounts.go:329-358 | forcing twice is forcing once |
| `Binds.ResolveVolumesFrom` | internal/runtime/mounts.go:294-321 | the binds of each container named, in order, with the mode written after its name |
| `Binds.ResolvesExactly` | internal/runtime/mounts.go:303-306 | it succeeds exactly when every container named exists |
| `Binds.CutModeExactly` | internal/runtime/mounts.go:301-301 | what is before the first colon is the name and what is after it the mode, empty without a colon |
| `Binds.InheritsExactly` | internal/runtime/mounts.go:294-321 | when every container named exists the result has all their binds in order: parsing read-only, but otherwise the same, for those written with :ro, and unchanged for all others |
| `Binds.InheritedReadOnly` | internal/runtime/mounts.go:309-316 | every bind inherited with mode ro parses as read-only |
| `Binds.ThreeParts` | internal/runtime/mounts.go:115-116 | a bind put together from source, destination and options is split into them again |

## Left out

- NetworkManager.Manager.RunCleanups: a port rule that is on the stack twice is refused both times or neither.
- NetworkManager.Manager.DisconnectLocked: of a release that fails, only the failure to store the bitmap is distinguished from a panic, not the failure to load it.
- NetworkRestart.Restart: creating a predefined network again that a first start did not get to; PredefinedStay shows it is not needed later.
- RotatingRuns.FilesAreLastGroups: which group each file holds after a call that failed; AlwaysInOrder and UnbrokenSuffix say what they hold together.
- RotatingRuns.SuffixStepExactly: entries that occur twice, for which a torn sequence can by chance be a suffix.
- ConcurrentReads.ConcurrentReadExactly: opening a file and reading it to its end is one step, and no system call of the writer fails.
- Kernel rule handles, nftables expression encodings, netlink, network namespaces, veth pairs and bridges: foreign calls, kept as success or failure.
- DNS sockets and listeners, the cache and upstream forwarding: foreign calls.
- The zero prefix of the host and none networks: those networks have no subnet here.
- bbolt transactions and JSON encoding: buckets are ordered sequences of records, an update happens whole or not at all, and text that is not valid UTF-8 is not altered on its way through a record.
- The indirection from the allocator to its bucket in the store: the allocator holds the bitmaps itself.
- DnsLookup.LookupPTR: a name whose reversed labels spell an IPv6 address is taken as unreadable; no record has such an address, so the answer is the same.
- Lines.Reader.ReadBytes: reads that return nothing and no error, which make the library give up after a hundred, do not occur on pipes.
- Lines.ProgressWriter.Write: trimming is a parameter, so what counts as white space is not modelled.
- Attach.ContainerIO.FanOutOrBuffer: writers that fail or write short are not modelled; the program ignores both.
- RotatingLog.Driver.Log: a write that fails has no effect, so half-written lines do not occur; the encoded size of an entry is given, not computed; sizes are not bounded by int64.
- RotatingLog.ReadLogFile: lines that are not JSON or have no valid time do not occur, as only the driver writes the files.
- Lifecycle.Manager.Attach: the wait between two rounds, the store lookup and the cancelled context are steps of the interleaving, not part of the method.
- RestartPolicy.HandleExits: a handled exit and its store updates are one step, and the record is not changed by others in between; the started goroutine is its delay.
- EventBus.Bus.Subscribe: identifiers do not wrap around at 2^64. The interleavings have publishers that hold the read lock one visit at a time.
- buildVolumeMounts, parseMount and the anonymous volumes: the order of the result is that of a Go map, and the rest is a reading of the code.
- Binds.ParseBind: path cleaning and the volume store are parameters without state.
- Pausing, exec sessions, OOM watching, stopping with signals and timeouts, cgroups, PTY and inotify: I/O around the state modelled here.
- HTTP handlers, image pull, push, load and export, registry authentication, name and ID generation, validation and error mapping: easy members or foreign calls.
- Listing filters of containers and event filters parsed from JSON: predicates read off the code.
