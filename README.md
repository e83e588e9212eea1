# Replication and RPC core of a Godot networking layer

This project is a Dafny model of the replication bookkeeping of a small
multiplayer layer for Godot. The layer is written in C# on top of the
Riptide transport. The model covers four parts.

- **The network manager** (`Manager.NetworkManager`). It holds the registry
  of replicated objects keyed by object id, and the host's id counter.
  - On the host, it spawns and destroys objects and tells every remote
    client about them.
  - It brings a newly connected client up to date with a full-state sync.
  - It sends RPCs to the server, to all clients or to one client, and it
    bounces RPCs through the host.
  - It dispatches received messages by kind: a bounced RPC is relayed, and
    spawn, destroy and sync messages each go to their own reader.
    Everything else is handled as an RPC, which fails on a reliable
    message whose target is missing and is dropped on any other.
  - Every message handed to the transport is appended to `outbox` as a
    packet with its destination.
- **The network node** (`Replication.NetworkNode`). It is the per-object
  handler table, keyed by `path + ":" + name`, together with the authority
  predicate.
- **The networked variable** (`Replication.NetworkedVariable`). It holds a
  replicated value, and its behaviour is a small state machine:
  - it rate-limits sends;
  - it routes each update according to its authority;
  - every message it builds takes the next send index;
  - it rejects updates whose index is not newer than the last one
    received.

  Each method of the class is proved equal to a step function on a
  `VarState` value (`SendStep`, `ReceiveStep`, `SetStep`), and the
  protocol properties are proved as lemmas about those functions.
- **The asset registry** (`Assets.AssetRegistry`). It is a string-keyed
  table that fails on a duplicate or missing id. Its directory walk
  registers each file under its name, with a trailing `.remap` removed and
  then the extension removed.

Messages are modelled as bit sequences with a read cursor (`Wire.Message`).
The payloads are lists of typed fields (module `Payload`): the spawn
record, the sync payload, the RPC header and the variable update. Each
payload has a round-trip lemma showing that a reader gets back exactly what
the writer wrote.

The model depends on four things outside the core, and each is passed in as
a parameter:

- **The session:** `Session` says whether the peer hosts, gives its own
  client id and lists its server's connections. `Peer` is the same
  information for a variable.
- **The scene tree:** it is reduced to three inputs:
  - the network node found above a node, or null;
  - the path of a node relative to its object;
  - the set of `(object id, path)` pairs that exist.
- **The clock:** it is the `now` argument.
- **The directory listing:** it is a tree of `Entry` values.

In three places the code behaves differently from what its names suggest,
and the model follows the code:

- **Missing handler.** A key missing from the handler table fails whatever
  the send mode. A missing object or node on a message that is not
  reliable is only logged (networking/NetworkManager.cs:494-520), but the
  handler lookup indexes the dictionary (networking/NetworkNode.cs:32-34),
  which throws.
- **Setter on an unregistered variable.** The `Value` setter calls
  `SendUpdate` before it stores the new value
  (networking/NetworkedVariable.cs:15-22). When that send throws on an
  unregistered variable, the new value is not stored.
- **Synced flag.** `SendUpdate` never sets `Synced`; the setter and an
  accepted update do. On the host, though, a server-authority variable's
  send is also handled locally at once: `SendRpcToClients` hands a copy of
  the message to `HandleMessage` (networking/NetworkManager.cs:293-297),
  which calls the same variable's `ReceiveUpdate`. That copy carries the
  index just sent, so it is accepted and sets `Synced`. The lemmas
  `HostSendLoopback` and `BounceLoopback` state this.

## Model

| member | source | states |
|---|---|---|
| Replication.HandlerKey | networking/NetworkNode.cs:15 | the key is the local path, then one colon, then the handler name, at those exact positions |
| Replication.HandlerKeyInjective | networking/NetworkNode.cs:15 | for paths without a colon, two keys are equal exactly when both their paths and their names are equal |
| Replication.AuthorityExclusive | networking/NetworkNode.cs:28-30 | the host and a remote client never both own an object, and two remote clients never both own one; the host owns owner 0 and, by operator precedence, also the owner equal to its own client id |
| Replication.HasAuthority | networking/NetworkNode.cs:28-30 | a client owns exactly the objects whose owner is its own client id; the host owns exactly those whose owner is 0 or its own client id, because `&&` binds tighter than `\|\|` |
| Replication.NetworkNode.constructor | networking/NetworkManager.cs:114-118 | a new node has the given id, owner, asset and placement, and an empty handler table |
| Replication.NetworkNode.Register | networking/NetworkNode.cs:14-18 | a taken key fails with DuplicateKey and leaves the table as it was; otherwise the table gains exactly that key, bound to the callback |
| Replication.NetworkNode.RegisterVariable | networking/NetworkNode.cs:20-26 | binds the variable to this node, its path and its name, even when the key is taken; then the same duplicate rule applies, with the variable's receiver as the handler; the variable's state is unchanged |
| Replication.NetworkNode.Lookup | networking/NetworkNode.cs:32-34 | succeeds exactly when the key is in the table and returns the handler stored under it; otherwise fails with UnknownHandler for that key, whatever the send mode |
| Replication.Initial | networking/NetworkedVariable.cs:26-34 | a new variable is not synced, its last send tick is 0, both indices are -1 and the value is the default |
| Replication.Next32 | networking/NetworkedVariable.cs:115 | the index moves on by one and wraps from the largest int to the smallest |
| Replication.Elapsed | networking/NetworkedVariable.cs:71 | the unsigned tick difference equals `now - last` when the clock has not gone back; in every case it is `now - last` modulo 2^64, as `ulong` subtraction wraps |
| Replication.Build | networking/NetworkedVariable.cs:109-121 | the builder takes the next send index, and the update it writes carries that index, the bounce flag and the value held at that moment |
| Replication.SendStep | networking/NetworkedVariable.cs:57-84 | an unregistered variable fails with NotRegistered and changes nothing, and that is the only failure; a sent update carries the next index and the current value; when nothing is sent, the index is unchanged; the step itself never touches the value, the synced flag or the received index (the host's local copy of the update is composed in `HostSendLoopback`) |
| Replication.ReceiveStep | networking/NetworkedVariable.cs:86-107 | the received index never decreases, and an update sent on goes to the clients with the bounce flag cleared, the new send index and the value now held |
| Replication.SetStep | networking/NetworkedVariable.cs:10-23 | the setter always marks the variable synced; it sends only in automatic mode and when the new value is not `Equals` the old one, and it fails, with NotRegistered and the old value kept, exactly when such a send is attempted on an unregistered variable; on success the new value is stored |
| Replication.SetStepCorrected | networking/NetworkedVariable.cs:10-23 | the corrected setter always marks the variable synced and stores the new value; it sends only in automatic mode and when the new value is not `Equals` the old one, and fails with NotRegistered exactly when such a send is attempted on an unregistered variable |
| Replication.SetValueQuiet | networking/NetworkedVariable.cs:15-22 | in manual mode, or when the new value `Equals` the old one, nothing is sent, the value is stored and the variable is marked synced, by the setter as written and as corrected |
| Replication.NetworkedVariable.constructor | networking/NetworkedVariable.cs:41-48 | the variable starts in the initial state, unbound, with the given settings |
| Replication.NetworkedVariable.WithDefaults | networking/NetworkedVariable.cs:41 | the default arguments: a delay of 50 ms, owner authority, manual sync and unreliable sends |
| Replication.NetworkedVariable.Register | networking/NetworkedVariable.cs:50-55 | binds the node path, network node and name, and leaves the state unchanged |
| Replication.NetworkedVariable.SendUpdate | networking/NetworkedVariable.cs:57-84 | the new state and the result are exactly `SendStep` applied to the old state |
| Replication.NetworkedVariable.BuildUpdate | networking/NetworkedVariable.cs:109-121 | the new state and the update are exactly `Build` applied to the old state |
| Replication.NetworkedVariable.ReceiveUpdate | networking/NetworkedVariable.cs:86-107 | the new state and the result are exactly `ReceiveStep` applied to the old state and the unread bits |
| Replication.NetworkedVariable.SetValue | networking/NetworkedVariable.cs:10-23 | the new state and the result are exactly `SetStep` applied to the old state (the setter as written) |
| Replication.NetworkedVariable.SetValueCorrected | networking/NetworkedVariable.cs:10-23 | the new state and the result are exactly `SetStepCorrected` applied to the old state |
| Replication.SendRateLimit | networking/NetworkedVariable.cs:69-73 | within the minimum delay nothing changes and nothing is sent; past it, the send time becomes `now` even when no route applies |
| Replication.SendRouting | networking/NetworkedVariable.cs:75-83 | a server-authority variable on the host sends to the clients without bounce; an owner-authority variable on the owning peer sends to the server with bounce; in every other case nothing is sent (each case holds if and only if its condition does) |
| Replication.ReceiveEffects | networking/NetworkedVariable.cs:91-106 | a stale or repeated index changes nothing; an accepted one records the index, raises the sent index to at least it, marks the variable synced, keeps the value on an owning peer, and sends on exactly when bounce is set |
| Replication.ReceiveIdempotent | networking/NetworkedVariable.cs:91 | delivering the same update a second time changes nothing |
| Replication.UpdateDelivered | networking/NetworkedVariable.cs:86-121 | an update built by one peer and read by a non-owning peer that has not seen its index sets that peer's value to the value sent |
| Replication.SendAllIncreasing | networking/NetworkedVariable.cs:113-117 | across any sequence of send attempts, the updates sent carry consecutive, strictly increasing indices that continue from the starting index (while no wrap occurs) |
| Replication.ReceiveAllMonotone | networking/NetworkedVariable.cs:91-94 | over any sequence of deliveries, the received index never goes down, and it ends at least at the index of every readable update delivered |
| Replication.LoopbackAccepted | networking/NetworkManager.cs:293-297 | a non-bounce update carrying the variable's own latest send index and its current value, handed back to that variable, is accepted: it is marked synced, the index is recorded, and nothing else changes |
| Replication.HostSendLoopback | networking/NetworkedVariable.cs:75-78 | on the host, a server-authority send past the delay goes to the clients with the next index and the current value, and the local copy handled by the same variable is accepted and marks it synced |
| Replication.BounceLoopback | networking/NetworkedVariable.cs:103-106 | when an accepted update is bounced on by the host, the local copy of the relayed update is accepted by the same variable and marks it synced |
| Replication.SetValueSendsPrevious | networking/NetworkedVariable.cs:15-22 | in automatic mode, a change that is sent carries the replaced value and never the new one, while the new value is still stored |
| Replication.SetValueCounterexample | networking/NetworkedVariable.cs:15-22 | on the host, a server-owned int changed from 0 to 1 sends the value 0 |
| Replication.SetValueCorrectedSendsNew | networking/NetworkedVariable.cs:15-22 | with the store moved before the send, the update sent carries the new value |
| Wire.DecFieldsEnc | networking/NetworkManager.cs:104-110 | fields written with the typed add calls read back with the matching get calls, in the same order, using exactly the bits written |
| Wire.PeekBits | networking/NetworkManager.cs:250 | the byte peeked holds exactly the `count` bits at the position, and the cursor does not move |
| Wire.GetBits | networking/NetworkManager.cs:537 | the byte read holds exactly the next `count` unread bits, and the cursor moves past them |
| Payload.ReadSpawnRecordEnc | networking/NetworkManager.cs:137-147 | the spawn record's fields read back as the record written: asset id, relative flag, parent id only when relative, parent path, authority and id |
| Payload.ReadRpcHeaderEnc | networking/NetworkManager.cs:488-490 | the RPC header (object id, path, name) reads back as written, and the builder's bits follow it |
| Payload.ReadSyncEnc | networking/NetworkManager.cs:630-644 | the sync payload (a count, then that many spawn records) reads back as the list of records written, in order |
| Payload.ReadRecordsPrefixComplete | networking/NetworkManager.cs:632-644 | reading records one by one completes exactly when reading the whole list succeeds, and then yields the same list |
| Payload.ReadSyncPrefixComplete | networking/NetworkManager.cs:630-644 | when the whole sync payload reads, the records read one by one before any failure are exactly the payload's records |
| Payload.ValueEqualsNotBits | networking/NetworkedVariable.cs:17 | the setter's `Equals` is not bit equality: +0 and -0 floats are equal, two NaN floats are equal, and a vector holding a NaN is not equal to itself, because vector components compare with `==` |
| Payload.ValueEqualsPlain | networking/NetworkedVariable.cs:17 | for two values of one type with no NaN and no zero among their floats, `Equals` holds exactly when the values are equal |
| Payload.DecValueEnc | networking/NetworkedVariableTypes.cs:35-77 | a value written by its type's encoder reads back as itself with that type's decoder |
| Payload.ReadUpdateEnc | networking/NetworkedVariable.cs:88-89 | the bounce flag and index the builder writes read back as written, and the value's bits follow them |
| Manager.WithoutMembers | networking/NetworkManager.cs:81-86 | skipping one id leaves exactly the other ids |
| Manager.WriteSync | networking/NetworkManager.cs:591-613 | the connection handler's loop writes the count and then each record in turn, which is exactly the sync payload of those records |
| Manager.ReadSyncMessage | networking/NetworkManager.cs:589-613 | the sync message a new client receives reads back as exactly the records sent, in order |
| Manager.ReadSpawnMessage | networking/NetworkManager.cs:104-110 | the spawn message reads back as the record written |
| Manager.ReadDestroyMessage | networking/NetworkManager.cs:176-177 | the destroy message reads back as the id written |
| Manager.CloneMessage | networking/NetworkManager.cs:238-259 | the clone holds exactly the bits from `initialBits` to the end, in order, with no header; the copy loop terminates |
| Manager.Relay | networking/NetworkManager.cs:529-540 | the relay message holds exactly the unread bits of the received message, with its send mode, as a one-way RPC; the received message ends fully read |
| Manager.RelayOfBounce | networking/NetworkManager.cs:527-544 | a bounced RPC relayed by the host is the same message as the one-way RPC with the same mode, header and body |
| Manager.Target | networking/NetworkManager.cs:486-520 | an RPC that reaches a target names a registered object and a path that exists under it; an error is either a truncated header or a reliable message |
| Manager.MissingTargetPolicy | networking/NetworkManager.cs:494-520 | when the object or the path is missing, the RPC fails if and only if it is reliable, and is otherwise dropped |
| Manager.TargetOfRpc | networking/NetworkManager.cs:486-492 | an RPC as sent reaches the object and path in its header, with the builder's bits left to read |
| Manager.HandleMessage | networking/NetworkManager.cs:486-523 | a target error is returned as is, a dropped target delivers nothing, and an existing target delivers the handler stored under path and name or fails as the lookup does |
| Manager.RpcReachesHandler | networking/NetworkManager.cs:486-523 | an RPC for a registered object, an existing path and a registered handler invokes exactly that handler, with the builder's bits |
| Manager.Attached | networking/NetworkManager.cs:142 | a received object is placed under its parent object exactly when that parent is registered here, and otherwise at the same path from the session root |
| Manager.PlacementOf | networking/NetworkManager.cs:93-100 | the placement is relative to an object exactly when a network node was found above the parent |
| Manager.NextId | networking/NetworkManager.cs:122 | the counter moves on by one and wraps to 0 after the largest unsigned value |
| Manager.NetworkManager.constructor | networking/NetworkManager.cs:35-36 | the registry starts empty and the counter starts at 0 |
| Manager.NetworkManager.GetNetworkNode | networking/NetworkManager.cs:226-231 | returns null exactly when the id is not registered, and otherwise the node registered under it, whose own id is that id |
| Manager.NetworkManager.SyncRecords | networking/NetworkManager.cs:593-612 | one spawn record per registered object, in enumeration order, each with the object's asset, placement, owner and key |
| Manager.NetworkManager.SendExcept | networking/NetworkManager.cs:548-553 | one packet to each connection except the one named, in order; the registry and counter are unchanged |
| Manager.NetworkManager.SendToAllRemoteClients | networking/NetworkManager.cs:79-87 | on the host, one packet to every connection except the peer's own client; without a server, it fails with nothing sent |
| Manager.NetworkManager.Spawn | networking/NetworkManager.cs:89-131 | a non-host fails with nothing changed; a missing scene or a taken id fails with nothing changed; otherwise the new object gets the counter's value, is registered under it, the counter moves on by one, and every remote client gets the spawn record; ids stay below the counter, so an id is never reused |
| Manager.NetworkManager.Instantiate | networking/NetworkManager.cs:151-165 | the outcome is the record's admission; a missing scene or a taken id fails with nothing changed; otherwise exactly the record's id is added, for a fresh node with that record and an empty handler table |
| Manager.NetworkManager.InstantiateNext | networking/NetworkManager.cs:641-661 | one turn of the sync loop: the record's outcome is its admission given the ids registered so far, a refusal changes nothing, and an acceptance extends the instantiated prefix by that record |
| Manager.KeysBeforeNext | networking/NetworkManager.cs:641-661 | the ids registered after one more record are those before it plus its id |
| Manager.AcceptedFrom | networking/NetworkManager.cs:641-661 | counting from records already accepted, every record before the count is accepted and the one at the count, if any, is refused |
| Manager.Accepted | networking/NetworkManager.cs:641-661 | every record before the count is accepted, given the ids registered before it, and the one at the count, if any, is refused |
| Manager.AcceptedExactly | networking/NetworkManager.cs:641-661 | a count up to which every record is accepted and at which one is refused, or the list ends, is the accepted count |
| Manager.AcceptedDistinct | networking/NetworkManager.cs:589-661 | records with distinct ids, none already registered and all naming scenes, such as the sync records of a host's registry, are all accepted |
| Manager.InstantiatedNext | networking/NetworkManager.cs:641-661 | registering the object an accepted record describes under its id extends the instantiated prefix by one |
| Manager.Admission | networking/NetworkManager.cs:151-165 | a record is accepted exactly when its asset is a scene and its id is free; otherwise it is refused with the scene's error, or with DuplicateKey |
| Manager.NetworkManager.SpawnRemote | networking/NetworkManager.cs:133-166 | fails on the host and on a truncated record; otherwise succeeds if and only if the scene exists and the id is free, and then registers exactly the record read |
| Manager.NetworkManager.Destroy | networking/NetworkManager.cs:168-186 | a non-host fails with nothing changed or sent; otherwise exactly the object's id is removed, every remote client is told, and the counter is untouched |
| Manager.NetworkManager.DestroyRemote | networking/NetworkManager.cs:188-201 | an id that is not registered fails with nothing changed; a registered one is removed, and only that one |
| Manager.NetworkManager.OnClientConnected | networking/NetworkManager.cs:583-619 | a remote client gets exactly one sync message listing every registered object once, in enumeration order; the peer's own client gets nothing |
| Manager.NetworkManager.SyncClient | networking/NetworkManager.cs:628-664 | of the records that can be read, exactly the first `Accepted` are registered, each as its record describes given the ids registered before it, and nothing registered before changes; the message passes exactly when it reads in full and every record is accepted; otherwise the error is the refused record's, or `Truncated` when every record read was accepted |
| Manager.NetworkManager.InstantiateAll | networking/NetworkManager.cs:632-663 | exactly the first `Accepted` records are registered, in order, each as its record describes given the ids registered before it, and nothing registered before changes; it passes exactly when every record is accepted, and otherwise fails with the first refusal |
| Manager.NetworkManager.SendRpcToServer | networking/NetworkManager.cs:261-275 | one one-way RPC with the node's header and the builder's bits goes to the server; without a network node it fails with nothing sent |
| Manager.NetworkManager.SendRpcToClients | networking/NetworkManager.cs:277-298 | on the host, the RPC goes to every remote client, and the local delivery is the handling of a clone with the same header and body; a client has no server and fails |
| Manager.NetworkManager.SendRpcToClient | networking/NetworkManager.cs:300-321 | the RPC is handled locally, with nothing sent, exactly when the target is the peer's own client; otherwise it is sent to that client only |
| Manager.NetworkManager.BounceRpcToClients | networking/NetworkManager.cs:323-337 | one bounce RPC goes to the server |
| Manager.NetworkManager.BounceRpcToClientsFast | networking/NetworkManager.cs:339-360 | one fast-bounce RPC goes to the server, and the local delivery is the handling of a clone with the same header and body |
| Manager.NetworkManager.OnMessageReceived | networking/NetworkManager.cs:525-581 | kind 1 is relayed to every connection; kind 2 is relayed to every connection but the sender; kinds 10, 11 and 12 go to the spawn, destroy and sync readers and send nothing; every other kind is handled as an RPC with no state change |
| Manager.NetworkManager.Leave | networking/NetworkManager.cs:476 | the registry ends empty, and the counter is kept |
| Assets.StripRemap | AssetManager.cs:35 | a name ending in `.remap` loses exactly that suffix; any other name is kept |
| Assets.FileNameWithoutExtension | AssetManager.cs:42 | the result holds no directory separator and is no longer than the path |
| Assets.FileNameWithoutExtensionJoin | AssetManager.cs:42 | `stem.ext` loses exactly its extension |
| Assets.AssetId | AssetManager.cs:35-42 | the id is a file name, never a path, and no longer than the entry's name |
| Assets.AssetIdOfFile | AssetManager.cs:35-42 | a file `stem.ext` is registered as `stem` |
| Assets.AssetIdOfExport | AssetManager.cs:35-42 | the exported form `stem.ext.remap` is registered under the same id as `stem.ext` |
| Assets.LoadAll | AssetManager.cs:26-47 | a walk only adds ids, and it can fail only on a duplicate id |
| Assets.LoadAllKeys | AssetManager.cs:26-47 | a walk that completes adds exactly the ids of its files, none of which was present before |
| Assets.LoadEntryKeys | AssetManager.cs:39-43 | a file adds its own id, and a directory adds the ids of the files under it |
| Assets.AssetRegistry.constructor | AssetManager.cs:6 | the table starts empty |
| Assets.AssetRegistry.Register | AssetManager.cs:8-12 | an id already present fails with nothing changed; otherwise exactly that id is added with its value |
| Assets.AssetRegistry.Get | AssetManager.cs:14-18 | succeeds exactly when the id is present and returns its value; an absent id fails |
| Assets.AssetRegistry.GetScene | AssetManager.cs:20-24 | succeeds exactly when the id is present and holds a scene; an absent id or an asset that is not a scene fails |
| Assets.AssetRegistry.Load | AssetManager.cs:26-47 | the table and the outcome are exactly `LoadAll` applied to the old table |
| Assets.AssetRegistry.LoadOne | AssetManager.cs:34-45 | the table and the outcome are exactly `LoadEntry` applied to the old table |

## Left out

- Riptide's own bit layout is not reproduced. Fields use the model's own
  encoding: least significant bit first, with a string written as its
  length followed by 21 bits per character. Only the order of fields and
  the round trips matter to the model.
- A read past the written bits is the error `Truncated`. Riptide would log
  the problem and return a default value.
- Transport and session setup are I/O and are not modelled. This covers
  `Host`, `Join`, the `Disconnect` and `Stop` calls of `Leave`,
  `_PhysicsProcess`, `OnClientDisconnected` and the Steam lobby callbacks.
  Connections are the `clients` list of `Session`.
- Scene-tree operations are not modelled: `AddChild`, `RemoveChild`,
  `QueueFree`, path computation, instancing, and the upward search of
  `GetNetworkNode(Node)`. The found network node, the local path and the
  set of existing paths are parameters, and an object's placement is
  recorded on its node.
- `Leave` does not model freeing the objects that are not already queued
  for deletion; only the clearing of the registry is modelled.
- Handlers are not run. `HandleMessage` returns the handler to invoke and
  the message positioned after the header, as a `Delivery`.
- Thrown exceptions are `Err` or `Fail` results, and so are null
  dereferences: of a missing network node, of the server on a client, and
  of an unregistered variable's node. Logging and warnings are left out.
- The case where the local client is null, after `Leave`, is not
  modelled. Every operation takes the session as it is.
- networking/NetworkedVariableTypes.cs is not part of this model as a
  registry of codecs. Its built-in codecs are the fixed `Value` sum type.
  A float is carried as its 32-bit pattern. The double codec is left out,
  because its encoder casts a boxed double to float and always throws.
- Manager.NetworkManager.OnClientConnected: the registry's enumeration
  order is the parameter `order`, which lists every registered id once.
- Replication.SendStep: the step returns the update it sends instead of
  calling the manager, so the host's synchronous local handling of that
  update (networking/NetworkManager.cs:293-297) is not part of it, nor of
  `NetworkedVariable.SendUpdate`. Its effect on the same variable is
  composed in `HostSendLoopback`.
- Replication.ReceiveStep: likewise, the local handling of the update a
  host bounces on is not part of the step, nor of
  `NetworkedVariable.ReceiveUpdate`; it is composed in `BounceLoopback`.
- Payload.ValueEquals: a float's `Equals` is modelled on its 32-bit
  pattern (IEEE equality, with +0 equal to -0 and every NaN equal to every
  NaN), and a vector's as `==` on each component. Float arithmetic is
  left out.
- Manager.NetworkManager.OnMessageReceived: for kinds 10 to 12 the
  contract states the registry's keys. The full effect of each kind is
  stated by `SpawnRemote`, `DestroyRemote` and `SyncClient`.
- Manager.NetworkManager.SendRpcToClients: the header-less clone takes the
  send mode its pooled message last had. That mode is the parameter
  `pooledMode`, and it decides the local missing-target policy.
- `AssetManager.Load`'s directory walk and `ResourceLoader.Load` are not
  modelled. The listing is a tree of `Entry` values with the loaded
  resources, and a directory that cannot be opened is an empty listing.
  `DebugAssets` only logs.
- Assets.AssetRegistry.Get: the cast to the caller's type parameter is not
  modelled, because the model has a single `Asset` type.
- Assets.FileNameWithoutExtension: only `/` separates directories; the
  Windows separator is not modelled.
- The static `Register` overloads of the manager
  (networking/NetworkManager.cs:61-77) are not modelled on their own. They
  find the network node by the upward scene-tree search and then call the
  node's `Register`, which `Replication.NetworkNode.Register` and
  `RegisterVariable` model.
- Replication.SendAllIncreasing: stated only while the index does not wrap
  at the largest int (2^31 - 1). `Next32` models the wrap itself.

## Findings

| source | as written | input that shows it | evidently intended | confidence | as-written member | corrected member |
|---|---|---|---|---|---|---|
| networking/NetworkedVariable.cs:15-22 | the `Value` setter calls `SendUpdate` before it assigns `_value`, so in automatic mode the update it sends carries the value being replaced | a server-authority int variable in automatic mode on the host, set from 0 to 1, sends 0 | store the new value first, so that the update announces it | not executed | Replication.SetValueCounterexample | Replication.SetValueCorrectedSendsNew |
