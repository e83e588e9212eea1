/** The per-object side of replication: the network node that every
    replicated object carries (its id, owner and RPC handler table) and the
    networked variable, a value that is kept in step across peers by
    numbered update messages.  Whether the local peer hosts and its client
    id are passed in as a `Peer`; the clock is passed in as `now`. */
module Replication {
  import opened Errors
  import opened Wire
  import opened Payload

  /** What a peer knows about itself: whether it runs the server, and the
      id of its own client connection. */
  datatype Peer = Peer(isHost: bool, localId: uint16)

  // ---------------------------------------------------------------------------
  // Handler keys and authority

  /** The key a handler is stored under: the handler's node, as a path
      relative to the object root, then a colon, then the handler name. */
  function HandlerKey(localPath: string, name: string): (key: string)
    ensures |key| == |localPath| + 1 + |name|
    ensures key[..|localPath|] == localPath && key[|localPath|] == ':' && key[|localPath| + 1..] == name
  {
    localPath + ":" + name
  }

  /** Node names cannot contain a colon, so a key names exactly one node
      path and one handler name. */
  lemma {:induction false} HandlerKeyInjective(p1: string, n1: string, p2: string, n2: string)
    requires ':' !in p1 && ':' !in p2
    ensures HandlerKey(p1, n1) == HandlerKey(p2, n2) <==> p1 == p2 && n1 == n2
  {
    var k1, k2 := HandlerKey(p1, n1), HandlerKey(p2, n2);
    if k1 == k2 && |p1| != |p2| {
      assert false;
    }
  }

  /** `HasAuthority`: the host owns the objects with owner 0, and every peer
      owns the objects whose owner is its own client id.  The conjunction
      binds tighter than the disjunction, so a host also owns the objects
      whose owner is its own client id. */
  function HasAuthority(isHost: bool, authority: uint32, localId: uint16): (owns: bool)
    ensures !isHost ==> (owns <==> authority == localId as uint32)
    ensures isHost ==> (owns <==> authority == 0 || authority == localId as uint32)
  {
    (isHost && authority == 0) || authority == localId
  }

  /** A remote client (never id 0) and the host never both own an object,
      and two different remote clients never both own one. */
  lemma AuthorityExclusive(authority: uint32, host: uint16, client: uint16, other: uint16)
    requires client != 0 && client != host
    ensures !(HasAuthority(true, authority, host) && HasAuthority(false, authority, client))
    ensures HasAuthority(false, authority, client) && HasAuthority(false, authority, other) ==> client == other
    ensures HasAuthority(true, 0, host) && HasAuthority(true, host as uint32, host)
  {
  }

  // ---------------------------------------------------------------------------
  // Network nodes

  /** A registered message handler: a callback of game code, identified by
      a tag, or the receiving end of a networked variable. */
  datatype Handler = Callback(tag: nat) | Receiver(variable: NetworkedVariable)

  /** The node that marks the root of a replicated object.  Its id, owner,
      asset and placement are set when the object is spawned and never
      change; its handler table grows as handlers are registered. */
  class NetworkNode {
    const id: uint32
    const authority: uint32
    const assetId: Text
    const placement: Placement
    var handlers: map<string, Handler>

    constructor (id: uint32, authority: uint32, assetId: Text, placement: Placement)
      ensures this.id == id && this.authority == authority
      ensures this.assetId == assetId && this.placement == placement
      ensures handlers == map[]
    {
      this.id := id;
      this.authority := authority;
      this.assetId := assetId;
      this.placement := placement;
      handlers := map[];
    }

    predicate OwnedBy(p: Peer)
    {
      HasAuthority(p.isHost, authority, p.localId)
    }

    /** The spawn record that recreates this object under `id`. */
    function Record(key: uint32): (r: SpawnRecord)
      ensures r.id == key && r.assetId == assetId && r.placement == placement && r.authority == authority
    {
      SpawnRecord(assetId, placement, authority, key)
    }

    /** `HandleMessage`'s lookup: the handler stored under the key of
      `localPath` and `name`; a missing key fails whatever the send mode. */
    function Lookup(localPath: string, name: string): (r: Result<Handler>)
      reads this
      ensures r.Ok? <==> HandlerKey(localPath, name) in handlers
      ensures r.Ok? ==> r.value == handlers[HandlerKey(localPath, name)]
      ensures r.Err? ==> r.error == UnknownHandler(HandlerKey(localPath, name))
    {
      var key := HandlerKey(localPath, name);
      if key in handlers then Ok(handlers[key]) else Err(UnknownHandler(key))
    }

    /** `Register(node, name, handler)`: adds a callback; a key that is
      already taken fails and leaves the table as it was. */
    method Register(localPath: Text, name: Text, tag: nat) returns (o: Outcome)
      modifies this
      ensures HandlerKey(localPath, name) in old(handlers) ==> o == Fail(DuplicateKey) && handlers == old(handlers)
      ensures HandlerKey(localPath, name) !in old(handlers) ==>
                o == Pass && handlers == old(handlers)[HandlerKey(localPath, name) := Callback(tag)]
    {
      var key := HandlerKey(localPath, name);
      if key in handlers {
        return Fail(DuplicateKey);
      }
      handlers := handlers[key := Callback(tag)];
      return Pass;
    }

    /** `Register(node, name, variable)`: binds the variable to this node
      first, then adds its receiver; the binding stays even when the key
      is already taken. */
    method RegisterVariable(localPath: Text, name: Text, v: NetworkedVariable) returns (o: Outcome)
      requires v.Valid()
      modifies this, v
      ensures v.Valid() && v.State() == old(v.State())
      ensures v.source == this && v.node == localPath && v.name == name
      ensures HandlerKey(localPath, name) in old(handlers) ==> o == Fail(DuplicateKey) && handlers == old(handlers)
      ensures HandlerKey(localPath, name) !in old(handlers) ==>
                o == Pass && handlers == old(handlers)[HandlerKey(localPath, name) := Receiver(v)]
    {
      v.Register(localPath, this, name);
      var key := HandlerKey(localPath, name);
      if key in handlers {
        return Fail(DuplicateKey);
      }
      handlers := handlers[key := Receiver(v)];
      return Pass;
    }
  }

  // ---------------------------------------------------------------------------
  // Networked variables: the state machine

  datatype VariableAuthority = NodeOwner | Server
  datatype SyncMode = Manual | Auto

  const DEFAULT_MIN_SEND_DELAY: uint32 := 50

  /** The settings a variable is created with. */
  datatype VarConfig = VarConfig(
    valueType: ValueType, minSendDelay: uint32, authority: VariableAuthority, syncMode: SyncMode, sendMode: SendMode)

  /** The fields of a variable that its operations change. */
  datatype VarState = VarState(
    value: Value, synced: bool, lastSentTick: uint64, lastSentIndex: int32, lastReceivedIndex: int32)

  /** An update as the message builder writes it. */
  datatype Update = Update(bounce: bool, index: int32, value: Value)

  /** Where an update goes: to every client through the host, or to the
      server only. */
  datatype Route = ToClients | ToServer
  datatype Outgoing = Outgoing(route: Route, update: Update)

  /** The state of a variable that has never sent nor received. */
  function Initial(v: Value): (st: VarState)
    ensures !st.synced && st.lastSentIndex == -1 && st.lastReceivedIndex == -1 && st.value == v
    ensures st.lastSentTick == 0
  {
    VarState(v, false, 0, -1, -1)
  }

  /** `++` on a C# `int` outside a checked context: wraps at the top. */
  function Next32(i: int32): (j: int32)
    ensures i < MAX_INT32 ==> j == i + 1
    ensures i == MAX_INT32 ==> j == MIN_INT32
  {
    if i == MAX_INT32 then MIN_INT32 else i + 1
  }

  /** `now - last` on C# `ulong`: wraps below zero. */
  function Elapsed(now: uint64, last: uint64): (d: uint64)
    ensures now >= last ==> d == now - last
    ensures now < last ==> d > now
    ensures d as int == (now as int - last as int) % 0x1_0000_0000_0000_0000
  {
    if now >= last then now - last else now + 0x1_0000_0000_0000_0000 - last
  }

  function Max(a: int32, b: int32): (m: int32)
    ensures m >= a && m >= b && (m == a || m == b)
  {
    if a >= b then a else b
  }

  /** The message builder: it takes the next sent index and writes the
      value the variable holds at that moment. */
  function Build(st: VarState, bounce: bool): (r: (VarState, Update))
    ensures r.0 == st.(lastSentIndex := Next32(st.lastSentIndex))
    ensures r.1.index == r.0.lastSentIndex && r.1.value == st.value && r.1.bounce == bounce
  {
    var next := Next32(st.lastSentIndex);
    (st.(lastSentIndex := next), Update(bounce, next, st.value))
  }

  /** `SendUpdate`, with `owns` the authority of the bound network node
      (`None` before `Register`). */
  function SendStep(st: VarState, c: VarConfig, isHost: bool, owns: Option<bool>, now: uint64)
    : (r: (VarState, Result<Option<Outgoing>>))
    ensures r.1.Ok? && r.1.value.Some? ==>
              r.0.lastSentIndex == Next32(st.lastSentIndex) && r.1.value.value.update.index == r.0.lastSentIndex
              && r.1.value.value.update.value == st.value
    ensures !(r.1.Ok? && r.1.value.Some?) ==> r.0.lastSentIndex == st.lastSentIndex
    ensures r.0.value == st.value && r.0.synced == st.synced && r.0.lastReceivedIndex == st.lastReceivedIndex
    ensures r.1.Err? <==> owns.None?
    ensures owns.None? ==> r == (st, Err(NotRegistered))
  {
    if owns.None? then (st, Err(NotRegistered))
    else if Elapsed(now, st.lastSentTick) < c.minSendDelay then (st, Ok(None))
    else
      var stamped := st.(lastSentTick := now);
      if c.authority == Server && isHost then
        var (next, u) := Build(stamped, false);
        (next, Ok(Some(Outgoing(ToClients, u))))
      else if c.authority == NodeOwner && owns.value then
        var (next, u) := Build(stamped, true);
        (next, Ok(Some(Outgoing(ToServer, u))))
      else (stamped, Ok(None))
  }

  /** `ReceiveUpdate` on the bits after the RPC header: the bounce flag and
      the index, then, only on a peer without authority, the value. */
  function ReceiveStep(st: VarState, t: ValueType, owns: Option<bool>, b: Bits): (r: (VarState, Result<Option<Outgoing>>))
    ensures r.0.lastReceivedIndex >= st.lastReceivedIndex
    ensures r.1.Ok? && r.1.value.Some? ==>
              r.1.value.value == Outgoing(ToClients, Update(false, r.0.lastSentIndex, r.0.value))
  {
    var header := ReadUpdateHeader(b);
    if header.None? then (st, Err(Truncated))
    else
      var (bounce, index, used) := header.value;
      if index <= st.lastReceivedIndex then (st, Ok(None))
      else
        var accepted := st.(lastReceivedIndex := index, lastSentIndex := Max(st.lastSentIndex, index), synced := true);
        if owns.None? then (accepted, Err(NotRegistered))
        else
          var decoded := if owns.value then Some((st.value, 0)) else DecValue(t, b[used..]);
          if decoded.None? then (accepted, Err(Truncated))
          else
            var updated := accepted.(value := decoded.value.0);
            if bounce then
              var (next, u) := Build(updated, false);
              (next, Ok(Some(Outgoing(ToClients, u))))
            else (updated, Ok(None))
  }

  /** The `Value` setter as written: it marks the variable synced, sends
      (in automatic mode, when the new value is not `Equals` to the current
      one) and only then stores the new value, so the update it sends
      carries the previous value. */
  function SetStep(st: VarState, c: VarConfig, isHost: bool, owns: Option<bool>, now: uint64, v: Value)
    : (r: (VarState, Result<Option<Outgoing>>))
    ensures r.0.synced
    ensures r.1.Ok? ==> r.0.value == v
    ensures r.1.Err? ==> r.1.error == NotRegistered && r.0.value == st.value
    ensures r.1.Err? <==> owns.None? && c.syncMode == Auto && !ValueEquals(st.value, v)
    ensures !(c.syncMode == Auto && !ValueEquals(st.value, v)) ==> r.1 == Ok(None)
  {
    var marked := st.(synced := true);
    if c.syncMode == Auto && !ValueEquals(st.value, v) then
      var (sent, out) := SendStep(marked, c, isHost, owns, now);
      if out.Err? then (sent, out) else (sent.(value := v), out)
    else (marked.(value := v), Ok(None))
  }

  /** The setter as evidently intended: the new value is stored before the
      update that announces it is built. */
  function SetStepCorrected(st: VarState, c: VarConfig, isHost: bool, owns: Option<bool>, now: uint64, v: Value)
    : (r: (VarState, Result<Option<Outgoing>>))
    ensures r.0.synced && r.0.value == v
    ensures r.1.Err? ==> r.1.error == NotRegistered
    ensures r.1.Err? <==> owns.None? && c.syncMode == Auto && !ValueEquals(st.value, v)
    ensures !(c.syncMode == Auto && !ValueEquals(st.value, v)) ==> r.1 == Ok(None)
  {
    var marked := st.(synced := true, value := v);
    if c.syncMode == Auto && !ValueEquals(st.value, v) then SendStep(marked, c, isHost, owns, now)
    else (marked, Ok(None))
  }

  // ---------------------------------------------------------------------------
  // Networked variables: the class

  /** A networked variable of one value type.  `node` is the path of the
      node it belongs to, relative to the object root, and `source` the
      object's network node; both are bound by `Register`. */
  class NetworkedVariable {
    var value: Value
    var synced: bool
    var node: Text
    var source: NetworkNode?
    var name: Text
    var lastSentTick: uint64
    var lastSentIndex: int32
    var lastReceivedIndex: int32
    const valueType: ValueType
    const minSendDelay: uint32
    const authority: VariableAuthority
    const syncMode: SyncMode
    const sendMode: SendMode

    /** The value always has the variable's declared type. */
    predicate Valid()
      reads this
    {
      TypeOf(value) == valueType
    }

    function State(): VarState
      reads this
    {
      VarState(value, synced, lastSentTick, lastSentIndex, lastReceivedIndex)
    }

    function Config(): VarConfig
    {
      VarConfig(valueType, minSendDelay, authority, syncMode, sendMode)
    }

    /** The authority of the bound network node on peer `p`. */
    function Owns(p: Peer): Option<bool>
      reads this
    {
      if source == null then None else Some(source.OwnedBy(p))
    }

    /** The RPC header its updates are sent under. */
    function Header(): RpcHeader
      reads this
    {
      RpcHeader(if source == null then 0 else source.id, node, name)
    }

    constructor (defaultValue: Value, minSendDelay: uint32, authority: VariableAuthority, syncMode: SyncMode, sendMode: SendMode)
      ensures Valid() && State() == Initial(defaultValue) && source == null
      ensures Config() == VarConfig(TypeOf(defaultValue), minSendDelay, authority, syncMode, sendMode)
    {
      value := defaultValue;
      synced := false;
      node := "";
      source := null;
      name := "";
      lastSentTick := 0;
      lastSentIndex := -1;
      lastReceivedIndex := -1;
      valueType := TypeOf(defaultValue);
      this.minSendDelay := minSendDelay;
      this.authority := authority;
      this.syncMode := syncMode;
      this.sendMode := sendMode;
    }

    /** The constructor with its default arguments. */
    constructor WithDefaults(defaultValue: Value)
      ensures Valid() && State() == Initial(defaultValue) && source == null
      ensures Config() == VarConfig(TypeOf(defaultValue), DEFAULT_MIN_SEND_DELAY, NodeOwner, Manual, Unreliable)
    {
      value := defaultValue;
      synced := false;
      node := "";
      source := null;
      name := "";
      lastSentTick := 0;
      lastSentIndex := -1;
      lastReceivedIndex := -1;
      valueType := TypeOf(defaultValue);
      minSendDelay := DEFAULT_MIN_SEND_DELAY;
      authority := NodeOwner;
      syncMode := Manual;
      sendMode := Unreliable;
    }

    method Register(node: Text, source: NetworkNode, name: Text)
      modifies this
      ensures this.node == node && this.source == source && this.name == name
      ensures State() == old(State())
    {
      this.node := node;
      this.source := source;
      this.name := name;
    }

    /** `SendUpdate` (and `Sync`, which only calls it). */
    method SendUpdate(p: Peer, now: uint64) returns (r: Result<Option<Outgoing>>)
      requires Valid()
      modifies this
      ensures Valid() && source == old(source) && node == old(node) && name == old(name)
      ensures (State(), r) == SendStep(old(State()), Config(), p.isHost, old(Owns(p)), now)
    {
      if source == null {
        return Err(NotRegistered);
      }
      if Elapsed(now, lastSentTick) < minSendDelay {
        return Ok(None);
      }
      lastSentTick := now;
      if authority == Server && p.isHost {
        var u := BuildUpdate(false);
        return Ok(Some(Outgoing(ToClients, u)));
      }
      if authority == NodeOwner && source.OwnedBy(p) {
        var u := BuildUpdate(true);
        return Ok(Some(Outgoing(ToServer, u)));
      }
      return Ok(None);
    }

    /** The message builder's effect: the next index, and the update it
      writes. */
    method BuildUpdate(bounce: bool) returns (u: Update)
      modifies this
      ensures (State(), u) == Build(old(State()), bounce)
      ensures source == old(source) && node == old(node) && name == old(name)
    {
      lastSentIndex := Next32(lastSentIndex);
      u := Update(bounce, lastSentIndex, value);
    }

    /** `ReceiveUpdate`, given the message with its cursor after the RPC
      header. */
    method ReceiveUpdate(p: Peer, msg: Message) returns (r: Result<Option<Outgoing>>)
      requires Valid()
      modifies this
      ensures Valid() && source == old(source) && node == old(node) && name == old(name)
      ensures (State(), r) == ReceiveStep(old(State()), valueType, old(Owns(p)), msg.Unread())
    {
      var b := msg.Unread();
      var header := ReadUpdateHeader(b);
      if header.None? {
        return Err(Truncated);
      }
      var (bounce, index, used) := header.value;
      if index <= lastReceivedIndex {
        return Ok(None);
      }
      lastReceivedIndex := index;
      lastSentIndex := Max(lastSentIndex, lastReceivedIndex);
      synced := true;
      if source == null {
        return Err(NotRegistered);
      }
      if !source.OwnedBy(p) {
        var decoded := DecValue(valueType, b[used..]);
        if decoded.None? {
          return Err(Truncated);
        }
        value := decoded.value.0;
      }
      if bounce {
        var u := BuildUpdate(false);
        return Ok(Some(Outgoing(ToClients, u)));
      }
      return Ok(None);
    }

    /** The `Value` setter, as written. */
    method SetValue(p: Peer, now: uint64, v: Value) returns (r: Result<Option<Outgoing>>)
      requires Valid() && TypeOf(v) == valueType
      modifies this
      ensures Valid() && source == old(source)
      ensures (State(), r) == SetStep(old(State()), Config(), p.isHost, old(Owns(p)), now, v)
    {
      synced := true;
      r := Ok(None);
      if syncMode == Auto && !ValueEquals(value, v) {
        r := SendUpdate(p, now);
        if r.Err? {
          return;
        }
      }
      value := v;
    }

    /** The `Value` setter as evidently intended. */
    method SetValueCorrected(p: Peer, now: uint64, v: Value) returns (r: Result<Option<Outgoing>>)
      requires Valid() && TypeOf(v) == valueType
      modifies this
      ensures Valid() && source == old(source)
      ensures (State(), r) == SetStepCorrected(old(State()), Config(), p.isHost, old(Owns(p)), now, v)
    {
      var changed := !ValueEquals(value, v);
      synced := true;
      value := v;
      r := Ok(None);
      if syncMode == Auto && changed {
        r := SendUpdate(p, now);
      }
    }
  }

  // ---------------------------------------------------------------------------
  // Properties of the state machine

  /** Sending is rate-limited: within `minSendDelay` of the last send
      nothing changes, and past it the send time is recorded even when no
      route applies. */
  lemma {:induction false} SendRateLimit(st: VarState, c: VarConfig, isHost: bool, owns: bool, now: uint64)
    ensures Elapsed(now, st.lastSentTick) < c.minSendDelay ==> SendStep(st, c, isHost, Some(owns), now) == (st, Ok(None))
    ensures Elapsed(now, st.lastSentTick) >= c.minSendDelay ==> SendStep(st, c, isHost, Some(owns), now).0.lastSentTick == now
  {
  }

  /** The route of an update: a server-owned variable on the host goes to
      the clients without a bounce; a node-owned variable whose node the
      peer owns goes to the server with a bounce; nothing else is sent. */
  lemma {:induction false} SendRouting(st: VarState, c: VarConfig, isHost: bool, owns: bool, now: uint64)
    requires Elapsed(now, st.lastSentTick) >= c.minSendDelay
    ensures var out := SendStep(st, c, isHost, Some(owns), now).1;
            && out.Ok?
            && (out.value == Some(Outgoing(ToClients, Update(false, Next32(st.lastSentIndex), st.value)))
                <==> c.authority == Server && isHost)
            && (out.value == Some(Outgoing(ToServer, Update(true, Next32(st.lastSentIndex), st.value)))
                <==> c.authority == NodeOwner && owns)
            && (out.value.None? <==> !(c.authority == Server && isHost) && !(c.authority == NodeOwner && owns))
  {
  }

  /** A stale or repeated update changes nothing; an accepted one records
      its index, keeps the sent index at least as large, marks the
      variable synced, and overwrites the value only on a peer without
      authority. */
  lemma {:induction false} ReceiveEffects(st: VarState, t: ValueType, owns: bool, b: Bits)
    requires ReadUpdateHeader(b).Some?
    ensures var (bounce, index, used) := ReadUpdateHeader(b).value;
            var r := ReceiveStep(st, t, Some(owns), b);
            && (index <= st.lastReceivedIndex ==> r == (st, Ok(None)))
            && (index > st.lastReceivedIndex ==>
                  && r.0.lastReceivedIndex == index && r.0.synced
                  && (owns ==> r.0.value == st.value)
                  && (r.1.Ok? ==> (r.1.value.Some? <==> bounce))
                  && (!bounce ==> r.0.lastSentIndex == Max(st.lastSentIndex, index))
                  && (bounce && r.1.Ok? ==> r.0.lastSentIndex == Next32(Max(st.lastSentIndex, index))))
  {
  }

  /** Delivering the same update twice has the effect of delivering it once. */
  lemma {:induction false} ReceiveIdempotent(st: VarState, t: ValueType, owns: Option<bool>, b: Bits)
    ensures var once := ReceiveStep(st, t, owns, b).0;
            ReceiveStep(once, t, owns, b) == (once, if ReadUpdateHeader(b).None? then Err(Truncated) else Ok(None))
  {
    var header := ReadUpdateHeader(b);
    if header.Some? {
      var once := ReceiveStep(st, t, owns, b).0;
      assert once.lastReceivedIndex >= header.value.1;
    }
  }

  /** An update written by one peer and read by a peer without authority
      that has not seen its index sets that peer's value to the value sent. */
  lemma {:induction false} UpdateDelivered(st: VarState, u: Update, rest: Bits)
    requires u.index > st.lastReceivedIndex
    ensures var r := ReceiveStep(st, TypeOf(u.value), Some(false), EncUpdate(u.bounce, u.index, u.value) + rest);
            && r.0.value == u.value && r.0.lastReceivedIndex == u.index
            && r.1.Ok? && (r.1.value.Some? <==> u.bounce)
  {
    var b := EncUpdate(u.bounce, u.index, u.value) + rest;
    ReadUpdateEnc(u.bounce, u.index, u.value, rest);
    var used := |EncFields(UpdateHead(u.bounce, u.index))|;
    assert DecValue(TypeOf(u.value), b[used..]).Some? && DecValue(TypeOf(u.value), b[used..]).value.0 == u.value by {
      DecValueEnc(u.value, rest);
    }
  }

  // ---------------------------------------------------------------------------
  // Loopback on the host

  /** On the host, `SendRpcToClients` hands a copy of every update it sends
      to the clients straight to the local handler registered under the
      variable's key, which is the variable's own `ReceiveUpdate`.  An update
      built from a state that has received no later index is accepted there:
      the variable becomes synced, records the sent index as received and
      keeps its value, and nothing more is sent. */
  lemma {:induction false} LoopbackAccepted(next: VarState, u: Update, owns: bool, rest: Bits)
    requires !u.bounce && u.index == next.lastSentIndex && u.value == next.value
    requires next.lastReceivedIndex < u.index
    ensures ReceiveStep(next, TypeOf(u.value), Some(owns), EncUpdate(false, u.index, u.value) + rest)
              == (next.(synced := true, lastReceivedIndex := u.index), Ok(None))
  {
    ReadUpdateEnc(false, u.index, u.value, rest);
    DecValueEnc(u.value, rest);
  }

  /** A server-authority variable that sends on the host gets its own
      update back at once: afterwards it is synced and has received the
      index it sent. */
  lemma {:induction false} HostSendLoopback(st: VarState, c: VarConfig, owns: bool, now: uint64, rest: Bits)
    requires c.authority == Server && Elapsed(now, st.lastSentTick) >= c.minSendDelay
    requires st.lastReceivedIndex <= st.lastSentIndex < MAX_INT32
    ensures var (sent, out) := SendStep(st, c, true, Some(owns), now);
            && out == Ok(Some(Outgoing(ToClients, Update(false, st.lastSentIndex + 1, st.value))))
            && ReceiveStep(sent, TypeOf(st.value), Some(owns), EncUpdate(false, st.lastSentIndex + 1, st.value) + rest)
                 == (sent.(synced := true, lastReceivedIndex := st.lastSentIndex + 1), Ok(None))
  {
    var (sent, out) := SendStep(st, c, true, Some(owns), now);
    LoopbackAccepted(sent, out.value.value.update, owns, rest);
  }

  /** The host that relays a bounced update to the clients gets the relay
      back at once as well: afterwards it has received the index it relayed,
      one above the bounced one when no index was sent since. */
  lemma {:induction false} BounceLoopback(st: VarState, t: ValueType, owns: bool, b: Bits, rest: Bits)
    requires TypeOf(st.value) == t
    requires st.lastSentIndex < MAX_INT32
    requires ReadUpdateHeader(b).Some? && ReadUpdateHeader(b).value.1 < MAX_INT32
    requires ReceiveStep(st, t, Some(owns), b).1.Ok? && ReceiveStep(st, t, Some(owns), b).1.value.Some?
    ensures var (next, out) := ReceiveStep(st, t, Some(owns), b);
            var u := out.value.value.update;
            && u.index == next.lastSentIndex && next.lastReceivedIndex < u.index
            && ReceiveStep(next, t, Some(owns), EncUpdate(false, u.index, u.value) + rest)
                 == (next.(synced := true, lastReceivedIndex := u.index), Ok(None))
  {
    var (next, out) := ReceiveStep(st, t, Some(owns), b);
    LoopbackAccepted(next, out.value.value.update, owns, rest);
  }

  /** Sends a variable attempts at the times `nows`, in order: the final
      state and the updates actually built. */
  function SendAll(st: VarState, c: VarConfig, isHost: bool, owns: bool, nows: seq<uint64>): (r: (VarState, seq<Update>))
    ensures |r.1| <= |nows|
    decreases |nows|
  {
    if nows == [] then (st, [])
    else
      var (next, out) := SendStep(st, c, isHost, Some(owns), nows[0]);
      var (last, later) := SendAll(next, c, isHost, owns, nows[1..]);
      (last, (if out.Ok? && out.value.Some? then [out.value.value.update] else []) + later)
  }

  /** Every update a variable sends carries the next index: while the
      counter does not wrap, the indices it sends are strictly increasing,
      all above the index it started from and none above where it ends. */
  lemma {:induction false} SendAllIncreasing(st: VarState, c: VarConfig, isHost: bool, owns: bool, nows: seq<uint64>)
    requires st.lastSentIndex + |nows| <= MAX_INT32
    ensures var (last, us) := SendAll(st, c, isHost, owns, nows);
            && last.lastSentIndex == st.lastSentIndex + |us|
            && (forall i :: 0 <= i < |us| ==> us[i].index == st.lastSentIndex + 1 + i)
    decreases |nows|
  {
    if nows != [] {
      var (next, out) := SendStep(st, c, isHost, Some(owns), nows[0]);
      SendAllIncreasing(next, c, isHost, owns, nows[1..]);
      var (last, later) := SendAll(next, c, isHost, owns, nows[1..]);
      var first := if out.Ok? && out.value.Some? then [out.value.value.update] else [];
      var us := first + later;
      assert SendAll(st, c, isHost, owns, nows) == (last, us);
      forall i | 0 <= i < |us|
        ensures us[i].index == st.lastSentIndex + 1 + i
      {
        if i >= |first| {
          assert us[i] == later[i - |first|];
        }
      }
    }
  }

  /** Delivers the updates `bs` in order to a variable. */
  function ReceiveAll(st: VarState, t: ValueType, owns: Option<bool>, bs: seq<Bits>): VarState
    decreases |bs|
  {
    if bs == [] then st else ReceiveAll(ReceiveStep(st, t, owns, bs[0]).0, t, owns, bs[1..])
  }

  /** The received index never goes down, and after a run of deliveries it
      is at least the index of every update whose header could be read. */
  lemma {:induction false} ReceiveAllMonotone(st: VarState, t: ValueType, owns: Option<bool>, bs: seq<Bits>)
    ensures ReceiveAll(st, t, owns, bs).lastReceivedIndex >= st.lastReceivedIndex
    ensures forall i :: 0 <= i < |bs| && ReadUpdateHeader(bs[i]).Some? ==>
              ReceiveAll(st, t, owns, bs).lastReceivedIndex >= ReadUpdateHeader(bs[i]).value.1
    decreases |bs|
  {
    if bs != [] {
      var next := ReceiveStep(st, t, owns, bs[0]).0;
      ReceiveAllMonotone(next, t, owns, bs[1..]);
      forall i | 0 <= i < |bs| && ReadUpdateHeader(bs[i]).Some?
        ensures ReceiveAll(st, t, owns, bs).lastReceivedIndex >= ReadUpdateHeader(bs[i]).value.1
      {
        if i > 0 {
          assert bs[i] == bs[1..][i - 1];
        }
      }
    }
  }

  /** The setter as written: in automatic mode, a change that gets sent
      carries the value being replaced, which is not `Equals` to the new
      one; the new value is still stored when the send does not fail. */
  lemma {:induction false} SetValueSendsPrevious(st: VarState, c: VarConfig, isHost: bool, owns: Option<bool>, now: uint64, v: Value)
    requires c.syncMode == Auto && !ValueEquals(st.value, v)
    ensures var r := SetStep(st, c, isHost, owns, now, v);
            r.1.Ok? && r.1.value.Some? ==> r.1.value.value.update.value == st.value && !ValueEquals(r.1.value.value.update.value, v)
    ensures SetStep(st, c, isHost, owns, now, v).1.Ok? ==> SetStep(st, c, isHost, owns, now, v).0.value == v
  {
  }

  /** In manual mode, or for a value `Equals` to the current one, the
      setter sends nothing and stores the value; only the synced flag and
      the value change. */
  lemma SetValueQuiet(st: VarState, c: VarConfig, isHost: bool, owns: Option<bool>, now: uint64, v: Value)
    requires c.syncMode == Manual || ValueEquals(st.value, v)
    ensures SetStep(st, c, isHost, owns, now, v) == (st.(synced := true, value := v), Ok(None))
    ensures SetStepCorrected(st, c, isHost, owns, now, v) == (st.(synced := true, value := v), Ok(None))
  {
  }

  /** A case where that happens: a server-owned integer on the host set
      from 0 to 1 announces 0. */
  lemma SetValueCounterexample()
    ensures var c := VarConfig(IntType, DEFAULT_MIN_SEND_DELAY, Server, Auto, Unreliable);
            SetStep(Initial(IntValue(0)), c, true, Some(true), 100, IntValue(1)).1
              == Ok(Some(Outgoing(ToClients, Update(false, 0, IntValue(0)))))
  {
  }

  /** The corrected setter: a change that gets sent carries the new value. */
  lemma {:induction false} SetValueCorrectedSendsNew(st: VarState, c: VarConfig, isHost: bool, owns: Option<bool>, now: uint64, v: Value)
    requires c.syncMode == Auto && !ValueEquals(st.value, v)
    ensures var r := SetStepCorrected(st, c, isHost, owns, now, v);
            && (r.1.Ok? && r.1.value.Some? ==> r.1.value.value.update.value == v)
            && r.0.value == v
  {
  }
}
