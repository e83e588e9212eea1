/** The session-wide side of replication: the registry of replicated
    objects and the host's id counter, spawning and destroying objects on
    every peer, bringing a newly connected client up to date, routing RPC
    messages to handlers, and relaying bounced RPCs.  The transport is
    modelled by an outbox of the packets handed to it; the scene tree by
    what the caller passes in (the network node found above a node, the
    paths that exist under each object). */
module Manager {
  import opened Errors
  import opened Wire
  import opened Payload
  import opened Replication
  import opened Assets

  // ---------------------------------------------------------------------------
  // Message kinds, recipients and packets

  const ONE_WAY_RPC: uint16 := 0
  const BOUNCE_RPC: uint16 := 1
  const BOUNCE_FAST_RPC: uint16 := 2
  const SPAWN_NETWORK_OBJECT: uint16 := 10
  const DESTROY_NETWORK_OBJECT: uint16 := 11
  const SYNC_CLIENT: uint16 := 12

  const MAX_UINT32: uint32 := 0xffff_ffff

  /** What the networking layer sees of the session on one peer: whether
      it hosts, the id of its own client, and the ids of the connections of
      its server (all clients, its own included; none on a client). */
  datatype Session = Session(isHost: bool, localId: uint16, clients: seq<uint16>)

  datatype Destination = ToServer | ToClient(id: uint16)

  /** A message handed to the transport, with where it goes. */
  datatype Packet = Packet(to: Destination, message: Message)

  /** `ids` without `id`, in order. */
  function Without(ids: seq<uint16>, id: uint16): (r: seq<uint16>)
    ensures |r| <= |ids|
    decreases |ids|
  {
    if ids == [] then []
    else Without(ids[..|ids| - 1], id) + (if ids[|ids| - 1] != id then [ids[|ids| - 1]] else [])
  }

  /** Exactly the ids other than `id` remain. */
  lemma {:induction false} WithoutMembers(ids: seq<uint16>, id: uint16)
    ensures forall c :: c in Without(ids, id) <==> c in ids && c != id
    decreases |ids|
  {
    if ids != [] {
      var init := ids[..|ids| - 1];
      WithoutMembers(init, id);
      assert ids == init + [ids[|ids| - 1]];
    }
  }

  /** One packet of `m` per client id, in order. */
  function PacketsTo(ids: seq<uint16>, m: Message): (ps: seq<Packet>)
    ensures |ps| == |ids|
    ensures forall i :: 0 <= i < |ids| ==> ps[i].to == ToClient(ids[i]) && ps[i].message == m
  {
    seq(|ids|, i requires 0 <= i < |ids| => Packet(ToClient(ids[i]), m))
  }

  lemma PacketsToSnoc(ids: seq<uint16>, c: uint16, m: Message)
    ensures PacketsTo(ids + [c], m) == PacketsTo(ids, m) + [Packet(ToClient(c), m)]
  {
    var ps, qs := PacketsTo(ids + [c], m), PacketsTo(ids, m) + [Packet(ToClient(c), m)];
    assert |ps| == |qs|;
    forall i | 0 <= i < |ps|
      ensures ps[i] == qs[i]
    {
      if i < |ids| {
        assert (ids + [c])[i] == ids[i];
      }
    }
  }

  /** An RPC message: the header naming the object, node and handler, then
      what the caller's builder writes. */
  function RpcMessage(mode: SendMode, kind: uint16, h: RpcHeader, body: Bits): (m: Message)
    ensures m.mode == mode && m.kind == kind && m.readPos == 0
  {
    Create(mode, kind).Append(EncRpcHeader(h) + body)
  }

  function SpawnMessage(r: SpawnRecord): Message
  {
    Create(Reliable, SPAWN_NETWORK_OBJECT).Append(EncSpawnRecord(r))
  }

  function DestroyMessage(id: uint32): Message
  {
    Create(Reliable, DESTROY_NETWORK_OBJECT).Append(EncFields([UIntF(id)]))
  }

  function SyncMessage(rs: seq<SpawnRecord>): Message
    requires |rs| <= MAX_INT32
  {
    Create(Reliable, SYNC_CLIENT).Append(EncSync(rs))
  }

  /** Writes the count and then each record in turn, as the connection
      handler's loop does. */
  method WriteSync(records: seq<SpawnRecord>) returns (bits: Bits)
    requires |records| <= MAX_INT32
    ensures bits == EncSync(records)
  {
    bits := EncInt(|records|);
    var i := 0;
    while i < |records|
      invariant 0 <= i <= |records|
      invariant bits == EncInt(|records|) + EncRecords(records[..i])
    {
      assert records[..i + 1] == records[..i] + [records[i]];
      EncRecordsSnoc(records[..i], records[i]);
      Assoc(EncInt(|records|), EncRecords(records[..i]), EncSpawnRecord(records[i]));
      bits := bits + EncSpawnRecord(records[i]);
      i := i + 1;
    }
    assert records[..i] == records;
  }

  /** The sync message reads back as exactly the records it was built
      from, in order. */
  lemma {:induction false} ReadSyncMessage(rs: seq<SpawnRecord>)
    requires |rs| <= MAX_INT32
    ensures ReadSync(Received(SyncMessage(rs)).Unread()) == Some(rs)
  {
    assert Received(SyncMessage(rs)).Unread() == EncSync(rs) + [];
    ReadSyncEnc(rs, []);
  }

  /** The id a destroy message carries. */
  function ReadObjectId(b: Bits): (r: Option<uint32>)
  {
    var f := DecField(UIntField, b);
    if f.None? then None else Some(AsUInt(f.value.0))
  }

  lemma {:induction false} ReadDestroyMessage(id: uint32)
    ensures ReadObjectId(Received(DestroyMessage(id)).Unread()) == Some(id)
  {
    var b := EncFields([UIntF(id)]);
    assert Received(DestroyMessage(id)).Unread() == b;
    assert b == EncUInt(id) + [] by {
      assert [UIntF(id)][1..] == [];
      assert b == EncField(UIntF(id)) + EncFields([]);
    }
    DecUIntEnc(id, []);
  }

  lemma {:induction false} ReadSpawnMessage(r: SpawnRecord)
    ensures ReadSpawnRecord(Received(SpawnMessage(r)).Unread()) == Some((r, |EncSpawnRecord(r)|))
  {
    var b := EncSpawnRecord(r);
    assert Received(SpawnMessage(r)).Unread() == b + [];
    ReadSpawnRecordEnc(r, []);
  }

  // ---------------------------------------------------------------------------
  // Bit copies

  /** `CloneMessage`: a message without header holding the bits of `m`
      from `initialBits` on, copied a byte at a time.  A message created
      without a header keeps the send mode its pooled instance last had,
      which is passed in as `pooledMode`. */
  method CloneMessage(m: Message, initialBits: nat, pooledMode: SendMode) returns (clone: Message)
    ensures clone.bits == if initialBits <= |m.bits| then m.bits[initialBits..] else []
    ensures clone.mode == pooledMode && clone.kind == ONE_WAY_RPC && clone.readPos == 0
  {
    clone := Message(pooledMode, 0, [], 0);
    var bitsToRead: int := |m.bits| - initialBits;
    var readPosition := initialBits;
    while bitsToRead > 0
      invariant bitsToRead > 0 ==> readPosition + bitsToRead == |m.bits| && initialBits <= readPosition
      invariant bitsToRead > 0 ==> clone.bits == m.bits[initialBits..readPosition]
      invariant bitsToRead <= 0 ==> clone.bits == if initialBits <= |m.bits| then m.bits[initialBits..] else []
      invariant clone.mode == pooledMode && clone.kind == ONE_WAY_RPC && clone.readPos == 0
      decreases bitsToRead
    {
      var bitsToWrite := if bitsToRead < 8 then bitsToRead else 8;
      var bits := PeekBits(m, bitsToWrite, readPosition);
      assert m.bits[initialBits..readPosition] + m.bits[readPosition..readPosition + bitsToWrite]
          == m.bits[initialBits..readPosition + bitsToWrite];
      clone := AddBits(clone, bits, bitsToWrite);
      readPosition := readPosition + 8;
      bitsToRead := bitsToRead - bitsToWrite;
    }
  }

  /** The relay copy in `OnMessageRecieved`: a one-way RPC with the send
      mode of the received message and every bit it has left unread, read
      off a byte at a time; the received message ends fully read. */
  method Relay(received: Message) returns (relay: Message, drained: Message)
    ensures relay.bits == received.Unread() && relay.mode == received.mode
    ensures relay.kind == ONE_WAY_RPC && relay.readPos == 0
    ensures drained.UnreadBits() == 0 && drained.bits == received.bits
  {
    relay := Create(received.mode, ONE_WAY_RPC);
    drained := received;
    while drained.UnreadBits() > 0
      invariant received.Unread() == relay.bits + drained.Unread()
      invariant drained.bits == received.bits
      invariant relay.mode == received.mode && relay.kind == ONE_WAY_RPC && relay.readPos == 0
      decreases drained.UnreadBits()
    {
      var bitsToWrite := if drained.UnreadBits() < 8 then drained.UnreadBits() else 8;
      var got := GetBits(drained, bitsToWrite);
      DrainStep(drained, bitsToWrite);
      Assoc(relay.bits, ToBits(got.0, bitsToWrite), got.1.Unread());
      relay := AddBits(relay, got.0, bitsToWrite);
      drained := got.1;
    }
  }

  /** The next `n` unread bits, then the rest. */
  lemma DrainStep(m: Message, n: nat)
    requires n <= m.UnreadBits()
    ensures m.Unread() == m.Unread()[..n] + m.Skip(n).Unread()
  {
  }

  // ---------------------------------------------------------------------------
  // RPC dispatch

  /** Which object and node an RPC is for, and the message with its cursor
      after the header.  An object id that is not registered, or a path
      that does not exist under the object, is an error for a reliable
      message and is dropped otherwise. */
  function Target(m: Message, objects: set<uint32>, scene: set<(uint32, string)>)
    : (r: Result<Option<(RpcHeader, Message)>>)
    ensures r.Ok? && r.value.Some? ==>
              r.value.value.0.objectId in objects && (r.value.value.0.objectId, r.value.value.0.path) in scene
    ensures r.Err? ==> r.error == Truncated || m.mode == Reliable
  {
    var header := ReadRpcHeader(m.Unread());
    if header.None? then Err(Truncated)
    else
      var (h, used) := header.value;
      if h.objectId !in objects then (if m.mode == Reliable then Err(UnknownObject(h.objectId)) else Ok(None))
      else if (h.objectId, h.path) !in scene then (if m.mode == Reliable then Err(MissingNode(h.path)) else Ok(None))
      else Ok(Some((h, m.Skip(used))))
  }

  /** A missing target fails exactly when the message is reliable, and
      otherwise reaches no handler. */
  lemma {:induction false} MissingTargetPolicy(m: Message, objects: set<uint32>, scene: set<(uint32, string)>)
    requires ReadRpcHeader(m.Unread()).Some?
    requires var h := ReadRpcHeader(m.Unread()).value.0; h.objectId !in objects || (h.objectId, h.path) !in scene
    ensures Target(m, objects, scene).Err? <==> m.mode == Reliable
    ensures Target(m, objects, scene).Ok? ==> Target(m, objects, scene).value.None?
  {
  }

  /** An RPC message as sent reaches the object and node in its header,
      with the builder's bits left to read. */
  lemma {:induction false} TargetOfRpc(mode: SendMode, kind: uint16, h: RpcHeader, body: Bits,
                                       objects: set<uint32>, scene: set<(uint32, string)>)
    requires h.objectId in objects && (h.objectId, h.path) in scene
    ensures var r := Target(Received(RpcMessage(mode, kind, h, body)), objects, scene);
            r.Ok? && r.value.Some? && r.value.value.0 == h && r.value.value.1.Unread() == body
  {
    var m := Received(RpcMessage(mode, kind, h, body));
    assert m.Unread() == EncRpcHeader(h) + body;
    ReadRpcHeaderEnc(h, body);
    Drop(EncRpcHeader(h), body);
  }

  /** What handling an RPC leads to: a handler to invoke with the message,
      or nothing after a warning. */
  datatype Delivery = Invoke(handler: Handler, message: Message) | Dropped

  /** `HandleMessage`: resolves the target, then looks the handler up in
      the object's table; an unknown handler fails whatever the send mode. */
  function HandleMessage(registry: map<uint32, NetworkNode>, m: Message, scene: set<(uint32, string)>): (r: Result<Delivery>)
    reads registry.Values
    ensures var t := Target(m, registry.Keys, scene);
            && (t.Err? ==> r == Err(t.error))
            && (t.Ok? && t.value.None? ==> r == Ok(Dropped))
            && (t.Ok? && t.value.Some? ==>
                  var (h, rest) := t.value.value;
                  var found := registry[h.objectId].Lookup(h.path, h.name);
                  && (found.Ok? ==> r == Ok(Invoke(found.value, rest)))
                  && (found.Err? ==> r == Err(found.error)))
  {
    var t := Target(m, registry.Keys, scene);
    if t.Err? then Err(t.error)
    else if t.value.None? then Ok(Dropped)
    else
      var (h, rest) := t.value.value;
      var found := registry[h.objectId].Lookup(h.path, h.name);
      if found.Err? then Err(found.error) else Ok(Invoke(found.value, rest))
  }

  /** An RPC sent to a registered object, for a node that exists and a
      handler registered under its path and name, invokes exactly that
      handler with the builder's bits. */
  lemma {:induction false} RpcReachesHandler(registry: map<uint32, NetworkNode>, scene: set<(uint32, string)>,
                                             mode: SendMode, h: RpcHeader, body: Bits)
    requires h.objectId in registry && (h.objectId, h.path) in scene
    requires HandlerKey(h.path, h.name) in registry[h.objectId].handlers
    ensures var r := HandleMessage(registry, Received(RpcMessage(mode, ONE_WAY_RPC, h, body)), scene);
            && r.Ok? && r.value.Invoke?
            && r.value.handler == registry[h.objectId].handlers[HandlerKey(h.path, h.name)]
            && r.value.message.Unread() == body
  {
    TargetOfRpc(mode, ONE_WAY_RPC, h, body, registry.Keys, scene);
  }

  /** A delivery as the result of an operation that may also have sent
      the message elsewhere instead. */
  function Lift(r: Result<Delivery>): (l: Result<Option<Delivery>>)
    ensures l.Ok? <==> r.Ok?
    ensures l.Ok? ==> l.value == Some(r.value)
    ensures l.Err? ==> l.error == r.error
  {
    if r.Ok? then Ok(Some(r.value)) else Err(r.error)
  }

  /** What the host relays for a bounced RPC: a one-way RPC with the
      bounced message's send mode and unread bits. */
  function RelayOf(m: Message): (relay: Message)
    ensures relay.mode == m.mode && relay.kind == ONE_WAY_RPC && relay.readPos == 0
  {
    Create(m.mode, ONE_WAY_RPC).Append(m.Unread())
  }

  /** A bounced RPC, relayed by the host, reaches the clients as the
      one-way RPC it would have been if sent directly: same send mode,
      header and builder bits. */
  lemma {:induction false} RelayOfBounce(mode: SendMode, kind: uint16, h: RpcHeader, body: Bits)
    ensures RelayOf(Received(RpcMessage(mode, kind, h, body))) == RpcMessage(mode, ONE_WAY_RPC, h, body)
  {
  }

  // ---------------------------------------------------------------------------
  // Spawn records on the receiving side

  /** Where a received object is attached: under its parent object when
      that object is registered here, and otherwise at the path taken from
      the session root. */
  function Attached(r: SpawnRecord, objects: set<uint32>): (a: SpawnRecord)
    ensures a.id == r.id && a.assetId == r.assetId && a.authority == r.authority && a.placement.path == r.placement.path
    ensures a.placement.UnderObject? <==> r.placement.UnderObject? && r.placement.parentId in objects
  {
    if r.placement.UnderObject? && r.placement.parentId in objects then r
    else r.(placement := UnderRoot(r.placement.path))
  }

  /** What instantiating a spawn record comes to when the ids in `objects`
      are registered: its asset must be a scene, and then its id must be
      free. */
  function Admission(table: map<string, Asset>, objects: set<uint32>, r: SpawnRecord): (o: Outcome)
    ensures o.Pass? <==> SceneIn(table, r.assetId).Ok? && r.id !in objects
    ensures SceneIn(table, r.assetId).Err? ==> o == Fail(SceneIn(table, r.assetId).error)
    ensures SceneIn(table, r.assetId).Ok? && r.id in objects ==> o == Fail(DuplicateKey)
  {
    var scene := SceneIn(table, r.assetId);
    if scene.Err? then Fail(scene.error)
    else if r.id in objects then Fail(DuplicateKey)
    else Pass
  }

  /** Where a spawned object goes, given the network node found above its
      parent node (if any) and the parent's path. */
  function PlacementOf(parent: NetworkNode?, path: Text): (p: Placement)
    ensures p.path == path && (p.UnderObject? <==> parent != null)
  {
    if parent != null then UnderObject(parent.id, path) else UnderRoot(path)
  }

  /** The host's counter after handing out `n`: `uint` arithmetic wraps. */
  function NextId(n: uint32): (m: uint32)
    ensures n < MAX_UINT32 ==> m == n + 1
    ensures n == MAX_UINT32 ==> m == 0
  {
    if n == MAX_UINT32 then 0 else n + 1
  }

  // ---------------------------------------------------------------------------
  // The manager

  class NetworkManager {
    var registry: map<uint32, NetworkNode>
    var nextId: uint32
    var outbox: seq<Packet>

    /** Every object is registered under its own id. */
    predicate Valid()
      reads this
    {
      forall id :: id in registry ==> registry[id].id == id
    }

    /** On the host: every registered id was handed out before the
      counter's current value. */
    predicate IssuedBelow()
      reads this
    {
      forall id :: id in registry ==> id < nextId
    }

    constructor ()
      ensures registry == map[] && nextId == 0 && outbox == []
      ensures Valid() && IssuedBelow()
    {
      registry := map[];
      nextId := 0;
      outbox := [];
    }

    /** `GetNetworkNode(id)`: the registered object, or null exactly when
      the id is not registered; in a valid registry the object found has
      the id asked for. */
    function GetNetworkNode(id: uint32): (n: NetworkNode?)
      reads this
      ensures n == null <==> id !in registry
      ensures n != null ==> n == registry[id]
      ensures Valid() && n != null ==> n.id == id
    {
      if id in registry then registry[id] else null
    }

    /** The spawn records of the registered objects, in the order given. */
    function SyncRecords(order: seq<uint32>): (rs: seq<SpawnRecord>)
      requires forall i :: 0 <= i < |order| ==> order[i] in registry
      reads this
      ensures |rs| == |order|
      ensures forall i :: 0 <= i < |order| ==> rs[i] == registry[order[i]].Record(order[i])
    {
      var objects := registry;
      seq(|order|, i requires 0 <= i < |order| && order[i] in objects => objects[order[i]].Record(order[i]))
    }

    /** One packet of `m` to each of `clients` except `except`, in order. */
    method SendExcept(clients: seq<uint16>, except: uint16, m: Message)
      modifies this
      ensures registry == old(registry) && nextId == old(nextId)
      ensures outbox == old(outbox) + PacketsTo(Without(clients, except), m)
    {
      var i := 0;
      while i < |clients|
        invariant 0 <= i <= |clients|
        invariant registry == old(registry) && nextId == old(nextId)
        invariant outbox == old(outbox) + PacketsTo(Without(clients[..i], except), m)
      {
        var c := clients[i];
        assert clients[..i + 1][..i] == clients[..i] && clients[..i + 1][i] == c;
        if c != except {
          PacketsToSnoc(Without(clients[..i], except), c, m);
          outbox := outbox + [Packet(ToClient(c), m)];
        }
        i := i + 1;
      }
      assert clients[..i] == clients;
    }

    /** `SendToAllRemoteClients`: one packet to every connection but the
      peer's own client; a peer without a server has no connections to
      enumerate and fails. */
    method SendToAllRemoteClients(s: Session, m: Message) returns (o: Outcome)
      modifies this
      ensures registry == old(registry) && nextId == old(nextId)
      ensures !s.isHost ==> o == Fail(NoServer) && outbox == old(outbox)
      ensures s.isHost ==> o == Pass && outbox == old(outbox) + PacketsTo(Without(s.clients, s.localId), m)
    {
      if !s.isHost {
        return Fail(NoServer);
      }
      SendExcept(s.clients, s.localId, m);
      return Pass;
    }

    /** `Spawn`: on the host only.  The new object gets the counter's
      value as its id, is registered under it, the counter moves on by
      one, and every remote client is sent the spawn record.  A missing
      scene or a taken id fails before anything changes. */
    method Spawn(s: Session, assets: AssetRegistry, assetId: Text, parent: NetworkNode?, parentPath: Text, authority: uint32)
      returns (r: Result<NetworkNode>)
      requires Valid()
      modifies this
      ensures Valid()
      ensures !s.isHost ==> r == Err(NotHost) && unchanged(this)
      ensures s.isHost && assets.GetScene(assetId).Err? ==> r == Err(assets.GetScene(assetId).error) && unchanged(this)
      ensures s.isHost && assets.GetScene(assetId).Ok? && old(nextId) in old(registry) ==>
                r == Err(DuplicateKey) && unchanged(this)
      ensures s.isHost && assets.GetScene(assetId).Ok? && old(nextId) !in old(registry) ==> r.Ok?
      ensures r.Ok? ==>
                var rec := SpawnRecord(assetId, PlacementOf(parent, parentPath), authority, old(nextId));
                && fresh(r.value) && r.value.Record(old(nextId)) == rec && r.value.handlers == map[]
                && registry == old(registry)[old(nextId) := r.value]
                && nextId == NextId(old(nextId))
                && outbox == old(outbox) + PacketsTo(Without(s.clients, s.localId), SpawnMessage(rec))
      ensures old(IssuedBelow()) && old(nextId) < MAX_UINT32 ==> IssuedBelow()
      ensures old(IssuedBelow()) && s.isHost && assets.GetScene(assetId).Ok? ==> r.Ok?
    {
      if !s.isHost {
        return Err(NotHost);
      }
      var rec := SpawnRecord(assetId, PlacementOf(parent, parentPath), authority, nextId);
      var message := SpawnMessage(rec);
      var scene := assets.GetScene(assetId);
      if scene.Err? {
        return Err(scene.error);
      }
      var node := new NetworkNode(nextId, authority, assetId, rec.placement);
      if nextId in registry {
        return Err(DuplicateKey);
      }
      registry := registry[nextId := node];
      nextId := NextId(nextId);
      var _ := SendToAllRemoteClients(s, message);
      return Ok(node);
    }

    /** Creates the object a spawn record describes and registers it; a
      missing scene or a taken id fails before anything changes. */
    method Instantiate(assets: AssetRegistry, rec: SpawnRecord) returns (o: Outcome)
      requires Valid()
      modifies this
      ensures Valid() && nextId == old(nextId) && outbox == old(outbox)
      ensures o == Admission(assets.assets, old(registry).Keys, rec)
      ensures assets.GetScene(rec.assetId).Err? ==> o == Fail(assets.GetScene(rec.assetId).error) && registry == old(registry)
      ensures assets.GetScene(rec.assetId).Ok? && rec.id in old(registry) ==> o == Fail(DuplicateKey) && registry == old(registry)
      ensures assets.GetScene(rec.assetId).Ok? && rec.id !in old(registry) ==>
                && o == Pass && rec.id in registry && fresh(registry[rec.id])
                && registry == old(registry)[rec.id := registry[rec.id]]
                && registry[rec.id].Record(rec.id) == Attached(rec, old(registry).Keys)
                && registry[rec.id].handlers == map[]
    {
      var scene := assets.GetScene(rec.assetId);
      if scene.Err? {
        return Fail(scene.error);
      }
      var attached := Attached(rec, registry.Keys);
      var node := new NetworkNode(rec.id, rec.authority, rec.assetId, attached.placement);
      if rec.id in registry {
        return Fail(DuplicateKey);
      }
      registry := registry[rec.id := node];
      return Pass;
    }

    /** `SpawnRemote`: on a client only, reads one spawn record and
      creates and registers that object. */
    method SpawnRemote(s: Session, assets: AssetRegistry, m: Message) returns (o: Outcome)
      requires Valid()
      modifies this
      ensures Valid() && nextId == old(nextId) && outbox == old(outbox)
      ensures s.isHost ==> o == Fail(SpawnedOnHost) && registry == old(registry)
      ensures !s.isHost && ReadSpawnRecord(m.Unread()).None? ==> o == Fail(Truncated) && registry == old(registry)
      ensures !s.isHost && ReadSpawnRecord(m.Unread()).Some? ==>
                var rec := ReadSpawnRecord(m.Unread()).value.0;
                && (o.Pass? <==> assets.GetScene(rec.assetId).Ok? && rec.id !in old(registry))
                && (o.Pass? ==> rec.id in registry && registry == old(registry)[rec.id := registry[rec.id]]
                                && fresh(registry[rec.id])
                                && registry[rec.id].Record(rec.id) == Attached(rec, old(registry).Keys))
                && (o.Fail? ==> registry == old(registry))
    {
      if s.isHost {
        return Fail(SpawnedOnHost);
      }
      var read := ReadSpawnRecord(m.Unread());
      if read.None? {
        return Fail(Truncated);
      }
      o := Instantiate(assets, read.value.0);
    }

    /** `Destroy`: on the host only, for the object whose network node was
      found above the node; removes exactly that id and tells every
      remote client.  The counter is untouched. */
    method Destroy(s: Session, source: NetworkNode?) returns (o: Outcome)
      requires Valid()
      modifies this
      ensures Valid() && nextId == old(nextId)
      ensures !s.isHost ==> o == Fail(NotHost) && unchanged(this)
      ensures s.isHost && source == null ==> o == Fail(NoNetworkNode) && unchanged(this)
      ensures s.isHost && source != null ==>
                && o == Pass && registry == old(registry) - {source.id}
                && outbox == old(outbox) + PacketsTo(Without(s.clients, s.localId), DestroyMessage(source.id))
      ensures old(IssuedBelow()) ==> IssuedBelow()
    {
      if !s.isHost {
        return Fail(NotHost);
      }
      if source == null {
        return Fail(NoNetworkNode);
      }
      var message := DestroyMessage(source.id);
      registry := registry - {source.id};
      var _ := SendToAllRemoteClients(s, message);
      return Pass;
    }

    /** `DestroyRemote`: removes the id the message carries, which must be
      registered. */
    method DestroyRemote(m: Message) returns (o: Outcome)
      requires Valid()
      modifies this
      ensures Valid() && nextId == old(nextId) && outbox == old(outbox)
      ensures ReadObjectId(m.Unread()).None? ==> o == Fail(Truncated) && registry == old(registry)
      ensures ReadObjectId(m.Unread()).Some? ==>
                var id := ReadObjectId(m.Unread()).value;
                && (id !in old(registry) ==> o == Fail(MissingKey) && registry == old(registry))
                && (id in old(registry) ==> o == Pass && registry == old(registry) - {id})
    {
      var id := ReadObjectId(m.Unread());
      if id.None? {
        return Fail(Truncated);
      }
      if id.value !in registry {
        return Fail(MissingKey);
      }
      registry := registry - {id.value};
      return Pass;
    }

    /** `OnClientConnected`: a remote client that connects is sent the
      count of registered objects and then one spawn record per object,
      in the registry's enumeration order `order`. */
    method OnClientConnected(s: Session, client: uint16, order: seq<uint32>)
      requires Valid()
      requires forall i :: 0 <= i < |order| ==> order[i] in registry
      requires forall id :: id in registry ==> id in order
      requires forall i, j :: 0 <= i < j < |order| ==> order[i] != order[j]
      requires |order| <= MAX_INT32
      modifies this
      ensures registry == old(registry) && nextId == old(nextId)
      ensures client == s.localId ==> outbox == old(outbox)
      ensures client != s.localId ==> outbox == old(outbox) + [Packet(ToClient(client), SyncMessage(SyncRecords(order)))]
    {
      if client == s.localId {
        return;
      }
      var bits := WriteSync(SyncRecords(order));
      var message := Create(Reliable, SYNC_CLIENT).Append(bits);
      outbox := outbox + [Packet(ToClient(client), message)];
    }

    /** `SyncClient`: reads the count and then that many spawn records,
      creating and registering each object as soon as its record is read;
      the first failure stops the loop with the objects before it kept.
      With `rs` the records that could be read and `n` how many of them
      are accepted in order: exactly the first `n` are registered, each as
      its record describes, the message passes exactly when it reads in
      full and all are accepted, and otherwise the error is the refused
      record's or, when every record read was accepted, `Truncated`. */
    method SyncClient(assets: AssetRegistry, m: Message) returns (o: Outcome)
      requires Valid()
      modifies this
      ensures Valid() && nextId == old(nextId) && outbox == old(outbox)
      ensures ReadSync(m.Unread()).Some? ==> ReadSyncPrefix(m.Unread()) == ReadSync(m.Unread()).value
      ensures var rs := ReadSyncPrefix(m.Unread());
              var n := Accepted(assets.assets, old(registry).Keys, rs);
              && registry.Keys == KeysBefore(old(registry).Keys, rs, n)
              && (forall id :: id in old(registry) ==> registry[id] == old(registry)[id])
              && (forall k :: 0 <= k < n ==> HoldsRecord(registry, old(registry).Keys, rs, k))
              && (o.Pass? <==> ReadSync(m.Unread()).Some? && n == |rs|)
              && (o.Fail? && n < |rs| ==> o == Admission(assets.assets, KeysBefore(old(registry).Keys, rs, n), rs[n]))
              && (o.Fail? && n == |rs| ==> o == Fail(Truncated))
      ensures o.Pass? ==>
                && ReadSync(m.Unread()).Some?
                && registry.Keys == old(registry).Keys + RecordIds(ReadSync(m.Unread()).value)
    {
      var b := m.Unread();
      ReadSyncPrefixComplete(b);
      var count := DecField(IntField, b);
      if count.None? {
        assert KeysBefore(registry.Keys, [], 0) == registry.Keys;
        return Fail(Truncated);
      }
      var read := ReadRecordsPrefix(b[count.value.1..], AsInt(count.value.0));
      ReadRecordsPrefixComplete(b[count.value.1..], AsInt(count.value.0));
      o := InstantiateAll(assets, read.0);
      if o.Pass? && !read.1 {
        o := Fail(Truncated);
      }
    }

    /** Creates and registers the objects of `records` in order, stopping
      at the first that fails: exactly the first `Accepted` of them are
      registered, each as its record describes given the objects
      registered before it, nothing registered before changes, and the
      outcome is the first refusal, if any. */
    method InstantiateAll(assets: AssetRegistry, records: seq<SpawnRecord>) returns (o: Outcome)
      requires Valid()
      modifies this
      ensures Valid() && nextId == old(nextId) && outbox == old(outbox)
      ensures var n := Accepted(assets.assets, old(registry).Keys, records);
              && InstantiatedPrefix(assets.assets, old(registry), registry, records, n)
              && (o.Pass? <==> n == |records|)
              && (o.Fail? ==> o == Admission(assets.assets, KeysBefore(old(registry).Keys, records, n), records[n]))
      ensures o.Pass? ==> registry.Keys == old(registry).Keys + RecordIds(records)
    {
      ghost var start := registry;
      var index := 0;
      while index < |records|
        invariant index <= |records|
        invariant Valid() && nextId == old(nextId) && outbox == old(outbox)
        invariant InstantiatedPrefix(assets.assets, start, registry, records, index)
      {
        o := InstantiateNext(assets, start, records, index);
        if o.Fail? {
          AcceptedExactly(assets.assets, start.Keys, records, index);
          return;
        }
        index := index + 1;
      }
      AcceptedExactly(assets.assets, start.Keys, records, index);
      assert records[..index] == records;
      return Pass;
    }

    /** One round of `InstantiateAll`: record `index` is instantiated after
      the ones before it, which stay registered as they were. */
    method InstantiateNext(assets: AssetRegistry, ghost start: map<uint32, NetworkNode>, records: seq<SpawnRecord>, index: nat)
      returns (o: Outcome)
      requires Valid() && index < |records|
      requires InstantiatedPrefix(assets.assets, start, registry, records, index)
      modifies this
      ensures Valid() && nextId == old(nextId) && outbox == old(outbox)
      ensures o == Admission(assets.assets, KeysBefore(start.Keys, records, index), records[index])
      ensures o.Fail? ==> registry == old(registry)
      ensures o.Pass? ==> InstantiatedPrefix(assets.assets, start, registry, records, index + 1)
    {
      ghost var previous := registry;
      o := Instantiate(assets, records[index]);
      if o.Pass? {
        InstantiatedNext(assets.assets, start, previous, records, index, registry[records[index].id]);
      }
    }

    /** `SendRpcToServer`: a one-way RPC handed to the peer's own client,
      which sends it to the server. */
    method SendRpcToServer(source: NetworkNode?, localPath: Text, name: Text, body: Bits, mode: SendMode)
      returns (o: Outcome)
      modifies this
      ensures registry == old(registry) && nextId == old(nextId)
      ensures source == null ==> o == Fail(NoNetworkNode) && outbox == old(outbox)
      ensures source != null ==>
                && o == Pass
                && outbox == old(outbox) + [Packet(Destination.ToServer, RpcMessage(mode, ONE_WAY_RPC, RpcHeader(source.id, localPath, name), body))]
    {
      if source == null {
        return Fail(NoNetworkNode);
      }
      var message := RpcMessage(mode, ONE_WAY_RPC, RpcHeader(source.id, localPath, name), body);
      outbox := outbox + [Packet(Destination.ToServer, message)];
      return Pass;
    }

    /** `SendRpcToClients`: on the host, the RPC goes to every remote
      client and a header-less copy of it is handled here at once.  The
      copy is a pooled message, so whether a missing target is an error
      depends on `pooledMode`, not on `mode`. */
    method SendRpcToClients(s: Session, source: NetworkNode?, localPath: Text, name: Text, body: Bits,
                            mode: SendMode, pooledMode: SendMode, scene: set<(uint32, string)>)
      returns (r: Result<Delivery>)
      modifies this
      ensures registry == old(registry) && nextId == old(nextId)
      ensures source == null ==> r == Err(NoNetworkNode) && outbox == old(outbox)
      ensures source != null && !s.isHost ==> r == Err(NoServer) && outbox == old(outbox)
      ensures source != null && s.isHost ==>
                var h := RpcHeader(source.id, localPath, name);
                && outbox == old(outbox) + PacketsTo(Without(s.clients, s.localId), RpcMessage(mode, ONE_WAY_RPC, h, body))
                && r == HandleMessage(registry, Received(RpcMessage(pooledMode, ONE_WAY_RPC, h, body)), scene)
    {
      if source == null {
        return Err(NoNetworkNode);
      }
      var h := RpcHeader(source.id, localPath, name);
      var message := RpcMessage(mode, ONE_WAY_RPC, h, body);
      var local := CloneMessage(message, 0, pooledMode);
      assert message.bits[0..] == message.bits;
      var o := SendToAllRemoteClients(s, message);
      if o.Fail? {
        return Err(o.error);
      }
      assert local == Received(RpcMessage(pooledMode, ONE_WAY_RPC, h, body));
      r := HandleMessage(registry, local, scene);
    }

    /** `SendRpcToClient`: an RPC for the peer's own client is handled here
      and sent nowhere; one for another client needs the server and goes
      to that client only. */
    method SendRpcToClient(s: Session, client: uint16, source: NetworkNode?, localPath: Text, name: Text, body: Bits,
                           mode: SendMode, scene: set<(uint32, string)>)
      returns (r: Result<Option<Delivery>>)
      modifies this
      ensures registry == old(registry) && nextId == old(nextId)
      ensures source == null ==> r == Err(NoNetworkNode) && outbox == old(outbox)
      ensures source != null && client == s.localId ==>
                var m := RpcMessage(mode, ONE_WAY_RPC, RpcHeader(source.id, localPath, name), body);
                && outbox == old(outbox)
                && r == Lift(HandleMessage(registry, m, scene))
      ensures source != null && client != s.localId && !s.isHost ==> r == Err(NoServer) && outbox == old(outbox)
      ensures source != null && client != s.localId && s.isHost ==>
                var m := RpcMessage(mode, ONE_WAY_RPC, RpcHeader(source.id, localPath, name), body);
                r == Ok(None) && outbox == old(outbox) + [Packet(ToClient(client), m)]
    {
      if source == null {
        return Err(NoNetworkNode);
      }
      var message := RpcMessage(mode, ONE_WAY_RPC, RpcHeader(source.id, localPath, name), body);
      if client == s.localId {
        return Lift(HandleMessage(registry, message, scene));
      }
      if !s.isHost {
        return Err(NoServer);
      }
      outbox := outbox + [Packet(ToClient(client), message)];
      return Ok(None);
    }

    /** `BounceRpcToClients`: the RPC goes to the server marked for relay
      to every client, the sender's own included. */
    method BounceRpcToClients(source: NetworkNode?, localPath: Text, name: Text, body: Bits, mode: SendMode)
      returns (o: Outcome)
      modifies this
      ensures registry == old(registry) && nextId == old(nextId)
      ensures source == null ==> o == Fail(NoNetworkNode) && outbox == old(outbox)
      ensures source != null ==>
                && o == Pass
                && outbox == old(outbox) + [Packet(Destination.ToServer, RpcMessage(mode, BOUNCE_RPC, RpcHeader(source.id, localPath, name), body))]
    {
      if source == null {
        return Fail(NoNetworkNode);
      }
      var message := RpcMessage(mode, BOUNCE_RPC, RpcHeader(source.id, localPath, name), body);
      outbox := outbox + [Packet(Destination.ToServer, message)];
      return Pass;
    }

    /** `BounceRpcToClientsFast`: the RPC goes to the server marked for
      relay to every client but the sender, and a header-less copy of it
      is handled here at once. */
    method BounceRpcToClientsFast(source: NetworkNode?, localPath: Text, name: Text, body: Bits,
                                  mode: SendMode, pooledMode: SendMode, scene: set<(uint32, string)>)
      returns (r: Result<Delivery>)
      modifies this
      ensures registry == old(registry) && nextId == old(nextId)
      ensures source == null ==> r == Err(NoNetworkNode) && outbox == old(outbox)
      ensures source != null ==>
                var h := RpcHeader(source.id, localPath, name);
                && outbox == old(outbox) + [Packet(Destination.ToServer, RpcMessage(mode, BOUNCE_FAST_RPC, h, body))]
                && r == HandleMessage(registry, Received(RpcMessage(pooledMode, ONE_WAY_RPC, h, body)), scene)
    {
      if source == null {
        return Err(NoNetworkNode);
      }
      var h := RpcHeader(source.id, localPath, name);
      var message := RpcMessage(mode, BOUNCE_FAST_RPC, h, body);
      var local := CloneMessage(message, 0, pooledMode);
      assert message.bits[0..] == message.bits;
      outbox := outbox + [Packet(Destination.ToServer, message)];
      assert local == Received(RpcMessage(pooledMode, ONE_WAY_RPC, h, body));
      r := HandleMessage(registry, local, scene);
    }

    /** `OnMessageRecieved`: a bounced RPC is relayed by the host as a
      one-way RPC, to every client for a plain bounce and to every client
      but the sender for a fast one; spawn, destroy and sync messages go to
      their handlers; anything else is an RPC handled here. */
    method OnMessageReceived(s: Session, assets: AssetRegistry, scene: set<(uint32, string)>,
                             kind: uint16, from: uint16, m: Message)
      returns (r: Result<Option<Delivery>>)
      requires Valid()
      modifies this
      ensures Valid() && nextId == old(nextId)
      ensures (kind == BOUNCE_RPC || kind == BOUNCE_FAST_RPC) && !s.isHost ==>
                r == Err(NoServer) && unchanged(this)
      ensures kind == BOUNCE_RPC && s.isHost ==>
                && r == Ok(None) && registry == old(registry)
                && outbox == old(outbox) + PacketsTo(s.clients, RelayOf(m))
      ensures kind == BOUNCE_FAST_RPC && s.isHost ==>
                && r == Ok(None) && registry == old(registry)
                && outbox == old(outbox) + PacketsTo(Without(s.clients, from), RelayOf(m))
      ensures kind in {SPAWN_NETWORK_OBJECT, DESTROY_NETWORK_OBJECT, SYNC_CLIENT} ==>
                outbox == old(outbox) && (r.Ok? ==> r.value.None?)
      ensures kind == SPAWN_NETWORK_OBJECT ==>
                && (s.isHost ==> r == Err(SpawnedOnHost))
                && (r.Ok? ==> ReadSpawnRecord(m.Unread()).Some?
                              && registry.Keys == old(registry).Keys + {ReadSpawnRecord(m.Unread()).value.0.id})
      ensures kind == DESTROY_NETWORK_OBJECT ==>
                && (r.Ok? <==> ReadObjectId(m.Unread()).Some? && ReadObjectId(m.Unread()).value in old(registry))
                && (r.Ok? ==> registry == old(registry) - {ReadObjectId(m.Unread()).value})
      ensures kind == SYNC_CLIENT ==>
                r.Ok? ==> ReadSync(m.Unread()).Some?
                          && registry.Keys == old(registry).Keys + RecordIds(ReadSync(m.Unread()).value)
      ensures kind !in {BOUNCE_RPC, BOUNCE_FAST_RPC, SPAWN_NETWORK_OBJECT, DESTROY_NETWORK_OBJECT, SYNC_CLIENT} ==>
                && registry == old(registry) && outbox == old(outbox)
                && r == Lift(HandleMessage(registry, m, scene))
    {
      if kind == BOUNCE_RPC || kind == BOUNCE_FAST_RPC {
        var relay, _ := Relay(m);
        assert relay == RelayOf(m) by {
          assert [] + m.Unread() == m.Unread();
        }
        if !s.isHost {
          return Err(NoServer);
        }
        if kind == BOUNCE_RPC {
          outbox := outbox + PacketsTo(s.clients, relay);
        } else {
          SendExcept(s.clients, from, relay);
        }
        return Ok(None);
      }
      var o: Outcome;
      if kind == SPAWN_NETWORK_OBJECT {
        o := SpawnRemote(s, assets, m);
      } else if kind == DESTROY_NETWORK_OBJECT {
        o := DestroyRemote(m);
      } else if kind == SYNC_CLIENT {
        o := SyncClient(assets, m);
      } else {
        return Lift(HandleMessage(registry, m, scene));
      }
      return if o.Pass? then Ok(None) else Err(o.error);
    }

    /** `Leave`: forgets every object; the id counter is kept. */
    method Leave()
      modifies this
      ensures registry == map[] && nextId == old(nextId) && outbox == old(outbox)
      ensures Valid()
    {
      registry := map[];
    }
  }

  /** The ids of a list of spawn records. */
  function RecordIds(rs: seq<SpawnRecord>): set<uint32>
  {
    set r | r in rs :: r.id
  }

  lemma RecordIdsSnoc(rs: seq<SpawnRecord>, r: SpawnRecord)
    ensures RecordIds(rs + [r]) == RecordIds(rs) + {r.id}
  {
    assert forall x :: x in rs + [r] <==> x in rs || x == r;
  }

  /** The ids registered once the first `k` of `records` are
      instantiated on top of the ids `objects`. */
  function KeysBefore(objects: set<uint32>, records: seq<SpawnRecord>, k: nat): set<uint32>
    requires k <= |records|
  {
    objects + RecordIds(records[..k])
  }

  lemma KeysBeforeNext(objects: set<uint32>, records: seq<SpawnRecord>, k: nat)
    requires k < |records|
    ensures KeysBefore(objects, records, k + 1) == KeysBefore(objects, records, k) + {records[k].id}
  {
    assert records[..k + 1] == records[..k] + [records[k]];
    RecordIdsSnoc(records[..k], records[k]);
  }

  /** Record `k` is accepted when the ones before it were. */
  predicate AdmittedAt(table: map<string, Asset>, objects: set<uint32>, records: seq<SpawnRecord>, k: nat)
    requires k < |records|
  {
    Admission(table, KeysBefore(objects, records, k), records[k]).Pass?
  }

  /** In `registry`, the object under the id of `records[k]` is the one
      that record describes, attached as it is when instantiated in order
      on top of the ids `objects`, and no handler is registered on it yet. */
  predicate HoldsRecord(registry: map<uint32, NetworkNode>, objects: set<uint32>, records: seq<SpawnRecord>, k: nat)
    requires k < |records|
    reads registry.Values
  {
    var r := records[k];
    && r.id in registry
    && registry[r.id].Record(r.id) == Attached(r, KeysBefore(objects, records, k))
    && registry[r.id].handlers == map[]
  }

  /** `registry` is `start` with the first `n` of `records` instantiated
      on top of it in order: those ids are added and no other, what was
      registered stays as it was, each of the `n` records was accepted
      when its turn came, and each is held as it describes. */
  predicate InstantiatedPrefix(table: map<string, Asset>, start: map<uint32, NetworkNode>,
                               registry: map<uint32, NetworkNode>, records: seq<SpawnRecord>, n: nat)
    requires n <= |records|
    reads registry.Values
  {
    && registry.Keys == KeysBefore(start.Keys, records, n)
    && (forall id :: id in start ==> registry[id] == start[id])
    && (forall k :: 0 <= k < n ==> AdmittedAt(table, start.Keys, records, k))
    && (forall k :: 0 <= k < n ==> HoldsRecord(registry, start.Keys, records, k))
  }

  /** Registering the object the next record describes, when that record
      is accepted, extends the prefix by one. */
  lemma InstantiatedNext(table: map<string, Asset>, start: map<uint32, NetworkNode>,
                         registry: map<uint32, NetworkNode>, records: seq<SpawnRecord>, n: nat, node: NetworkNode)
    requires n < |records| && InstantiatedPrefix(table, start, registry, records, n)
    requires AdmittedAt(table, start.Keys, records, n)
    requires node.Record(records[n].id) == Attached(records[n], KeysBefore(start.Keys, records, n))
    requires node.handlers == map[]
    ensures InstantiatedPrefix(table, start, registry[records[n].id := node], records, n + 1)
  {
    KeysBeforeNext(start.Keys, records, n);
    var next := registry[records[n].id := node];
    forall k | 0 <= k <= n
      ensures HoldsRecord(next, start.Keys, records, k)
    {
      if k < n {
        assert HoldsRecord(registry, start.Keys, records, k);
      }
    }
  }

  /** How many of `records`, instantiated in order on top of the ids
      `objects`, are accepted before the first refusal, counting on from
      `i` records already accepted. */
  function AcceptedFrom(table: map<string, Asset>, objects: set<uint32>, records: seq<SpawnRecord>, i: nat): (n: nat)
    requires i <= |records|
    requires forall k :: 0 <= k < i ==> AdmittedAt(table, objects, records, k)
    ensures i <= n <= |records|
    ensures forall k :: 0 <= k < n ==> AdmittedAt(table, objects, records, k)
    ensures n < |records| ==> !AdmittedAt(table, objects, records, n)
    decreases |records| - i
  {
    if i == |records| || !AdmittedAt(table, objects, records, i) then i
    else AcceptedFrom(table, objects, records, i + 1)
  }

  /** How many of `records`, instantiated in order on top of the ids
      `objects`, are accepted before the first refusal: every record before
      that point is accepted, and the one at it (if any) is refused. */
  function Accepted(table: map<string, Asset>, objects: set<uint32>, records: seq<SpawnRecord>): (n: nat)
    ensures n <= |records|
    ensures forall k :: 0 <= k < n ==> AdmittedAt(table, objects, records, k)
    ensures n < |records| ==> !AdmittedAt(table, objects, records, n)
  {
    AcceptedFrom(table, objects, records, 0)
  }

  /** A count whose records are all accepted and which stops at a refusal
      (or the end) is the accepted count. */
  lemma AcceptedExactly(table: map<string, Asset>, objects: set<uint32>, records: seq<SpawnRecord>, i: nat)
    requires i <= |records|
    requires forall k :: 0 <= k < i ==> AdmittedAt(table, objects, records, k)
    requires i < |records| ==> !AdmittedAt(table, objects, records, i)
    ensures Accepted(table, objects, records) == i
  {
  }

  /** Records with distinct ids, none of them registered and all of them
      naming scenes, are all accepted. */
  lemma AcceptedDistinct(table: map<string, Asset>, objects: set<uint32>, records: seq<SpawnRecord>)
    requires forall k :: 0 <= k < |records| ==> SceneIn(table, records[k].assetId).Ok? && records[k].id !in objects
    requires forall j, k :: 0 <= j < k < |records| ==> records[j].id != records[k].id
    ensures Accepted(table, objects, records) == |records|
  {
  }
}
