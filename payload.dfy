/** The field layouts the networking layer puts in its messages: the spawn
    record (written by Spawn and by the full-state sync, read by SpawnRemote
    and SyncClient), the full-state sync payload, the RPC header, and the
    networked-variable update.  Each layout is a list of typed fields in the
    order the source writes them; a reader decodes them in the order the
    source reads them, and a round-trip lemma ties the two together. */
module Payload {
  import opened Errors
  import opened Wire

  /** Field accessors that are total: a reader applies them only to fields
      whose kind the decoder has already checked. */
  function AsBool(f: Field): bool { if f.BoolF? then f.b else false }
  function AsUInt(f: Field): uint32 { if f.UIntF? then f.u else 0 }
  function AsInt(f: Field): int32 { if f.IntF? then f.i else 0 }
  function AsText(f: Field): Text { if f.StringF? then f.s else "" }

  // ---------------------------------------------------------------------------
  // Spawn records

  /** Where an object's root node sits in the scene: under the node at
      `path` relative to another replicated object's network node, or at
      `path` from the session root. */
  datatype Placement =
    | UnderObject(parentId: uint32, path: Text)
    | UnderRoot(path: Text)

  datatype SpawnRecord = SpawnRecord(assetId: Text, placement: Placement, authority: uint32, id: uint32)

  /** asset id, relative flag */
  function SpawnHead(r: SpawnRecord): seq<Field>
  {
    [StringF(r.assetId), BoolF(r.placement.UnderObject?)]
  }

  /** parent id (only when relative), parent path, authority, object id */
  function SpawnTail(r: SpawnRecord): seq<Field>
  {
    (if r.placement.UnderObject? then [UIntF(r.placement.parentId)] else [])
    + [StringF(r.placement.path), UIntF(r.authority), UIntF(r.id)]
  }

  const HEAD_KINDS: seq<FieldKind> := [StringField, BoolField]

  /** What the reader expects once it has read the relative flag. */
  function TailKinds(relative: bool): (ks: seq<FieldKind>)
    ensures |ks| == if relative then 4 else 3
  {
    (if relative then [UIntField] else []) + [StringField, UIntField, UIntField]
  }

  function EncSpawnRecord(r: SpawnRecord): Bits
  {
    EncFields(SpawnHead(r) + SpawnTail(r))
  }

  /** Builds the record from the fields read, `relative` being the flag. */
  function SpawnFromFields(head: seq<Field>, tail: seq<Field>): SpawnRecord
    requires |head| == 2 && |tail| == |TailKinds(AsBool(head[1]))|
  {
    if AsBool(head[1]) then
      SpawnRecord(AsText(head[0]), UnderObject(AsUInt(tail[0]), AsText(tail[1])), AsUInt(tail[2]), AsUInt(tail[3]))
    else
      SpawnRecord(AsText(head[0]), UnderRoot(AsText(tail[0])), AsUInt(tail[1]), AsUInt(tail[2]))
  }

  function ReadSpawnRecord(b: Bits): (r: Option<(SpawnRecord, nat)>)
    ensures r.Some? ==> r.value.1 <= |b|
  {
    var head := DecFields(HEAD_KINDS, b);
    if head.None? then None else
    var tail := DecFields(TailKinds(AsBool(head.value.0[1])), b[head.value.1..]);
    if tail.None? then None else
    Some((SpawnFromFields(head.value.0, tail.value.0), head.value.1 + tail.value.1))
  }

  lemma {:induction false} SpawnKinds(r: SpawnRecord)
    ensures Kinds(SpawnHead(r)) == HEAD_KINDS
    ensures Kinds(SpawnTail(r)) == TailKinds(r.placement.UnderObject?)
    ensures SpawnFromFields(SpawnHead(r), SpawnTail(r)) == r
  {
    var h := SpawnHead(r);
    assert Kinds(h) == [KindOf(h[0])] + Kinds(h[1..]);
    assert Kinds(h[1..]) == [KindOf(h[1])] + Kinds(h[2..]);
    var t := SpawnTail(r);
    var k := if r.placement.UnderObject? then 1 else 0;
    assert Kinds(t[k..]) == [StringField, UIntField, UIntField] by {
      assert Kinds(t[k..]) == [KindOf(t[k])] + Kinds(t[k + 1..]);
      assert Kinds(t[k + 1..]) == [KindOf(t[k + 1])] + Kinds(t[k + 2..]);
      assert Kinds(t[k + 2..]) == [KindOf(t[k + 2])] + Kinds(t[k + 3..]);
    }
    if k == 1 {
      assert Kinds(t) == [KindOf(t[0])] + Kinds(t[1..]);
    }
  }

  /** A spawn record reads back as itself, whatever follows it. */
  lemma {:induction false} ReadSpawnRecordEnc(r: SpawnRecord, rest: Bits)
    ensures ReadSpawnRecord(EncSpawnRecord(r) + rest) == Some((r, |EncSpawnRecord(r)|))
  {
    var h := SpawnHead(r);
    var t := SpawnTail(r);
    var b := EncSpawnRecord(r) + rest;
    SpawnKinds(r);
    EncFieldsAppend(h, t);
    assert b == EncFields(h) + (EncFields(t) + rest) by {
      Assoc(EncFields(h), EncFields(t), rest);
    }
    assert DecFields(HEAD_KINDS, b) == Some((h, |EncFields(h)|)) by {
      DecFieldsEnc(h, EncFields(t) + rest);
    }
    assert DecFields(TailKinds(AsBool(h[1])), b[|EncFields(h)|..]) == Some((t, |EncFields(t)|)) by {
      Drop(EncFields(h), EncFields(t) + rest);
      DecFieldsEnc(t, rest);
    }
  }

  // ---------------------------------------------------------------------------
  // Full-state sync: a count followed by that many spawn records

  function EncRecords(rs: seq<SpawnRecord>): Bits
  {
    if rs == [] then [] else EncSpawnRecord(rs[0]) + EncRecords(rs[1..])
  }

  /** Writing one more record appends its bits. */
  lemma {:induction false} EncRecordsSnoc(rs: seq<SpawnRecord>, r: SpawnRecord)
    ensures EncRecords(rs + [r]) == EncRecords(rs) + EncSpawnRecord(r)
    decreases |rs|
  {
    if rs == [] {
      assert rs + [r] == [r];
      assert EncRecords([r]) == EncSpawnRecord(r) + EncRecords([]);
    } else {
      assert (rs + [r])[0] == rs[0] && (rs + [r])[1..] == rs[1..] + [r];
      EncRecordsSnoc(rs[1..], r);
      Assoc(EncSpawnRecord(rs[0]), EncRecords(rs[1..]), EncSpawnRecord(r));
    }
  }

  function EncSync(rs: seq<SpawnRecord>): Bits
    requires |rs| <= MAX_INT32
  {
    EncInt(|rs|) + EncRecords(rs)
  }

  /** Reads `n` records one after the other; a count of zero or less reads
      none, as the source's counted loop does. */
  function ReadRecords(b: Bits, n: int): (r: Option<seq<SpawnRecord>>)
    ensures r.Some? ==> |r.value| == if n > 0 then n else 0
    decreases if n > 0 then n else 0
  {
    if n <= 0 then Some([]) else
    var first := ReadSpawnRecord(b);
    if first.None? then None else
    var others := ReadRecords(b[first.value.1..], n - 1);
    if others.None? then None else
    Some([first.value.0] + others.value)
  }

  function ReadSync(b: Bits): Option<seq<SpawnRecord>>
  {
    var count := DecField(IntField, b);
    if count.None? then None else ReadRecords(b[count.value.1..], AsInt(count.value.0))
  }

  lemma {:induction false} ReadRecordsCons(b: Bits, n: int, rec: SpawnRecord, k: nat, rs: seq<SpawnRecord>)
    requires n > 0 && ReadSpawnRecord(b) == Some((rec, k))
    requires ReadRecords(b[k..], n - 1) == Some(rs)
    ensures ReadRecords(b, n) == Some([rec] + rs)
  {
  }

  lemma {:induction false} ReadRecordsEnc(rs: seq<SpawnRecord>, rest: Bits)
    ensures ReadRecords(EncRecords(rs) + rest, |rs|) == Some(rs)
  {
    if rs != [] {
      var e := EncSpawnRecord(rs[0]);
      var tail := EncRecords(rs[1..]) + rest;
      var b := EncRecords(rs) + rest;
      assert b == e + tail by { Assoc(e, EncRecords(rs[1..]), rest); }
      assert ReadSpawnRecord(b) == Some((rs[0], |e|)) by { ReadSpawnRecordEnc(rs[0], tail); }
      assert ReadRecords(b[|e|..], |rs| - 1) == Some(rs[1..]) by {
        Drop(e, tail);
        ReadRecordsEnc(rs[1..], rest);
      }
      ReadRecordsCons(b, |rs|, rs[0], |e|, rs[1..]);
      assert [rs[0]] + rs[1..] == rs;
    }
  }

  /** The records a reader gets through, at most `n` of them, before the
      first one it cannot read; and whether it read all `n`. */
  function ReadRecordsPrefix(b: Bits, n: int): (r: (seq<SpawnRecord>, bool))
    ensures |r.0| <= if n > 0 then n else 0
    decreases if n > 0 then n else 0
  {
    if n <= 0 then ([], true) else
    var first := ReadSpawnRecord(b);
    if first.None? then ([], false) else
    var others := ReadRecordsPrefix(b[first.value.1..], n - 1);
    ([first.value.0] + others.0, others.1)
  }

  /** The prefix reader gets through all `n` records exactly when the
      whole reader succeeds, and then it has read the same records. */
  lemma {:induction false} ReadRecordsPrefixComplete(b: Bits, n: int)
    ensures ReadRecordsPrefix(b, n).1 <==> ReadRecords(b, n).Some?
    ensures ReadRecords(b, n).Some? ==> ReadRecords(b, n).value == ReadRecordsPrefix(b, n).0
    decreases if n > 0 then n else 0
  {
    if n > 0 {
      var first := ReadSpawnRecord(b);
      if first.Some? {
        ReadRecordsPrefixComplete(b[first.value.1..], n - 1);
      }
    }
  }

  /** The records the sync reader gets through, in order, before the first
      one it cannot read (none when the count itself cannot be read). */
  function ReadSyncPrefix(b: Bits): (rs: seq<SpawnRecord>)
  {
    var count := DecField(IntField, b);
    if count.None? then [] else ReadRecordsPrefix(b[count.value.1..], AsInt(count.value.0)).0
  }

  /** When the whole sync payload can be read, the record-by-record reader
      gets through exactly its records. */
  lemma {:induction false} ReadSyncPrefixComplete(b: Bits)
    ensures ReadSync(b).Some? ==> ReadSyncPrefix(b) == ReadSync(b).value
  {
    var count := DecField(IntField, b);
    if count.Some? {
      ReadRecordsPrefixComplete(b[count.value.1..], AsInt(count.value.0));
    }
  }

  /** The sync payload reads back as exactly the records written, in order. */
  lemma {:induction false} ReadSyncEnc(rs: seq<SpawnRecord>, rest: Bits)
    requires |rs| <= MAX_INT32
    ensures ReadSync(EncSync(rs) + rest) == Some(rs)
  {
    var b := EncSync(rs) + rest;
    assert b == EncInt(|rs|) + (EncRecords(rs) + rest) by { Assoc(EncInt(|rs|), EncRecords(rs), rest); }
    assert DecField(IntField, b) == Some((IntF(|rs|), 32)) by { DecIntEnc(|rs|, EncRecords(rs) + rest); }
    assert ReadRecords(b[32..], |rs|) == Some(rs) by {
      Drop(EncInt(|rs|), EncRecords(rs) + rest);
      ReadRecordsEnc(rs, rest);
    }
  }

  // ---------------------------------------------------------------------------
  // RPC header: source object id, local path of the target node, handler name

  datatype RpcHeader = RpcHeader(objectId: uint32, path: Text, name: Text)

  function RpcFields(h: RpcHeader): seq<Field>
  {
    [UIntF(h.objectId), StringF(h.path), StringF(h.name)]
  }

  const RPC_KINDS: seq<FieldKind> := [UIntField, StringField, StringField]

  function EncRpcHeader(h: RpcHeader): Bits
  {
    EncFields(RpcFields(h))
  }

  function ReadRpcHeader(b: Bits): (r: Option<(RpcHeader, nat)>)
    ensures r.Some? ==> r.value.1 <= |b|
  {
    var fs := DecFields(RPC_KINDS, b);
    if fs.None? then None else
    var f := fs.value.0;
    Some((RpcHeader(AsUInt(f[0]), AsText(f[1]), AsText(f[2])), fs.value.1))
  }

  lemma {:induction false} ReadRpcHeaderEnc(h: RpcHeader, rest: Bits)
    ensures ReadRpcHeader(EncRpcHeader(h) + rest) == Some((h, |EncRpcHeader(h)|))
  {
    var f := RpcFields(h);
    assert Kinds(f) == RPC_KINDS by {
      assert Kinds(f) == [KindOf(f[0])] + Kinds(f[1..]);
      assert Kinds(f[1..]) == [KindOf(f[1])] + Kinds(f[2..]);
      assert Kinds(f[2..]) == [KindOf(f[2])] + Kinds(f[3..]);
    }
    DecFieldsEnc(f, rest);
  }

  // ---------------------------------------------------------------------------
  // Networked-variable values and updates

  /** The value types with a built-in codec.  Floats are carried as their
      32-bit IEEE pattern. */
  datatype ValueType = IntType | FloatType | BoolType | Vector2Type | Vector3Type

  datatype Value =
    | IntValue(i: int32)
    | FloatValue(f: uint32)
    | BoolValue(b: bool)
    | Vector2Value(x: uint32, y: uint32)
    | Vector3Value(x: uint32, y: uint32, z: uint32)

  function TypeOf(v: Value): ValueType
  {
    match v
    case IntValue(_) => IntType
    case FloatValue(_) => FloatType
    case BoolValue(_) => BoolType
    case Vector2Value(_, _) => Vector2Type
    case Vector3Value(_, _, _) => Vector3Type
  }

  /** The bit pattern of a 32-bit float is a NaN: all exponent bits set
      and a mantissa that is not zero. */
  predicate IsNaN(f: uint32)
  {
    (f / 0x80_0000) % 0x100 == 0xff && f % 0x80_0000 != 0
  }

  /** `==` on two floats: a NaN equals nothing, and the two zeros are equal. */
  predicate FloatEq(a: uint32, b: uint32)
  {
    (a == b && !IsNaN(a)) || (a % 0x8000_0000 == 0 && b % 0x8000_0000 == 0)
  }

  /** `Equals` of the value's own type: `float.Equals` also holds between
      two NaNs, while the vector types compare their components with `==`. */
  predicate ValueEquals(a: Value, b: Value)
  {
    match (a, b)
    case (IntValue(x), IntValue(y)) => x == y
    case (FloatValue(x), FloatValue(y)) => FloatEq(x, y) || (IsNaN(x) && IsNaN(y))
    case (BoolValue(x), BoolValue(y)) => x == y
    case (Vector2Value(x1, y1), Vector2Value(x2, y2)) => FloatEq(x1, x2) && FloatEq(y1, y2)
    case (Vector3Value(x1, y1, z1), Vector3Value(x2, y2, z2)) => FloatEq(x1, x2) && FloatEq(y1, y2) && FloatEq(z1, z2)
    case _ => false
  }

  /** `Equals` is not equality of bit patterns: the two float zeros are
      equal, and a vector holding a NaN is not equal to itself. */
  lemma ValueEqualsNotBits()
    ensures ValueEquals(FloatValue(0), FloatValue(0x8000_0000))
    ensures ValueEquals(FloatValue(0x7fc0_0000), FloatValue(0x7fc0_0001))
    ensures !ValueEquals(Vector2Value(0x7fc0_0000, 0), Vector2Value(0x7fc0_0000, 0))
  {
  }

  /** A float that is neither a NaN nor one of the two zeros. */
  predicate PlainFloat(f: uint32)
  {
    !IsNaN(f) && f % 0x8000_0000 != 0
  }

  /** Every float component of the value is plain. */
  predicate PlainFloats(v: Value)
  {
    match v
    case FloatValue(f) => PlainFloat(f)
    case Vector2Value(x, y) => PlainFloat(x) && PlainFloat(y)
    case Vector3Value(x, y, z) => PlainFloat(x) && PlainFloat(y) && PlainFloat(z)
    case _ => true
  }

  /** Values of one type whose float components are neither NaN nor zero
      are `Equals` exactly when they are the same value. */
  lemma ValueEqualsPlain(a: Value, b: Value)
    requires TypeOf(a) == TypeOf(b) && PlainFloats(a) && PlainFloats(b)
    ensures ValueEquals(a, b) <==> a == b
  {
  }

  /** The fields a value is written as: a vector is its components in
      order, a float its bit pattern. */
  function ValueFields(v: Value): seq<Field>
  {
    match v
    case IntValue(i) => [IntF(i)]
    case FloatValue(f) => [UIntF(f)]
    case BoolValue(b) => [BoolF(b)]
    case Vector2Value(x, y) => [UIntF(x), UIntF(y)]
    case Vector3Value(x, y, z) => [UIntF(x), UIntF(y), UIntF(z)]
  }

  function ValueKinds(t: ValueType): seq<FieldKind>
  {
    match t
    case IntType => [IntField]
    case FloatType => [UIntField]
    case BoolType => [BoolField]
    case Vector2Type => [UIntField, UIntField]
    case Vector3Type => [UIntField, UIntField, UIntField]
  }

  function EncValue(v: Value): Bits
  {
    EncFields(ValueFields(v))
  }

  function ValueFromFields(t: ValueType, f: seq<Field>): (v: Value)
    requires |f| == |ValueKinds(t)|
    ensures TypeOf(v) == t
  {
    match t
    case IntType => IntValue(AsInt(f[0]))
    case FloatType => FloatValue(AsUInt(f[0]))
    case BoolType => BoolValue(AsBool(f[0]))
    case Vector2Type => Vector2Value(AsUInt(f[0]), AsUInt(f[1]))
    case Vector3Type => Vector3Value(AsUInt(f[0]), AsUInt(f[1]), AsUInt(f[2]))
  }

  /** Decodes a value of the variable's declared type. */
  function DecValue(t: ValueType, b: Bits): (r: Option<(Value, nat)>)
    ensures r.Some? ==> TypeOf(r.value.0) == t && r.value.1 <= |b|
  {
    var fs := DecFields(ValueKinds(t), b);
    if fs.None? then None else Some((ValueFromFields(t, fs.value.0), fs.value.1))
  }

  lemma {:induction false} ValueKindsOf(v: Value)
    ensures Kinds(ValueFields(v)) == ValueKinds(TypeOf(v))
    ensures ValueFromFields(TypeOf(v), ValueFields(v)) == v
  {
    var f := ValueFields(v);
    assert Kinds(f) == [KindOf(f[0])] + Kinds(f[1..]);
    if |f| > 1 {
      assert Kinds(f[1..]) == [KindOf(f[1])] + Kinds(f[2..]);
    }
    if |f| > 2 {
      assert Kinds(f[2..]) == [KindOf(f[2])] + Kinds(f[3..]);
    }
  }

  /** A value reads back as itself when read as its own type. */
  lemma {:induction false} DecValueEnc(v: Value, rest: Bits)
    ensures DecValue(TypeOf(v), EncValue(v) + rest) == Some((v, |EncValue(v)|))
  {
    ValueKindsOf(v);
    DecFieldsEnc(ValueFields(v), rest);
  }

  /** A variable update: bounce flag, sequence index, value. */
  function UpdateHead(bounce: bool, index: int32): seq<Field>
  {
    [BoolF(bounce), IntF(index)]
  }

  const UPDATE_KINDS: seq<FieldKind> := [BoolField, IntField]

  function EncUpdate(bounce: bool, index: int32, v: Value): Bits
  {
    EncFields(UpdateHead(bounce, index)) + EncValue(v)
  }

  /** The bounce flag and the index, and how many bits they took; the value
      that follows is decoded only by a receiver without authority. */
  function ReadUpdateHeader(b: Bits): (r: Option<(bool, int32, nat)>)
    ensures r.Some? ==> r.value.2 <= |b|
  {
    var fs := DecFields(UPDATE_KINDS, b);
    if fs.None? then None else Some((AsBool(fs.value.0[0]), AsInt(fs.value.0[1]), fs.value.1))
  }

  lemma {:induction false} ReadUpdateEnc(bounce: bool, index: int32, v: Value, rest: Bits)
    ensures var n := |EncFields(UpdateHead(bounce, index))|;
            && ReadUpdateHeader(EncUpdate(bounce, index, v) + rest) == Some((bounce, index, n))
            && (EncUpdate(bounce, index, v) + rest)[n..] == EncValue(v) + rest
  {
    var h := UpdateHead(bounce, index);
    assert Kinds(h) == UPDATE_KINDS by {
      assert Kinds(h) == [KindOf(h[0])] + Kinds(h[1..]);
      assert Kinds(h[1..]) == [KindOf(h[1])] + Kinds(h[2..]);
    }
    Assoc(EncFields(h), EncValue(v), rest);
    DecFieldsEnc(h, EncValue(v) + rest);
    Drop(EncFields(h), EncValue(v) + rest);
  }
}
