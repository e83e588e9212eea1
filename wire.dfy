/** The message buffer that the networking layer writes and reads: an
    append-only sequence of bits with an independent read cursor, tagged
    with the message kind and the send mode.  Typed fields are written as
    fixed bit patterns (least significant bit first) and read back by
    decoders that report how many bits they consumed. */
module Wire {
  import opened Errors

  type uint8 = n: nat | n < 0x100
  type uint16 = n: nat | n < 0x1_0000
  type uint32 = n: nat | n < 0x1_0000_0000
  type uint64 = n: nat | n < 0x1_0000_0000_0000_0000
  type int32 = n: int | -0x8000_0000 <= n < 0x8000_0000
  type Bits = seq<bool>

  const MAX_INT32: int32 := 0x7fff_ffff
  const MIN_INT32: int32 := -0x8000_0000

  function Pow2(w: nat): (p: nat)
    ensures p > 0
  {
    if w == 0 then 1 else 2 * Pow2(w - 1)
  }

  lemma {:induction false} Pow2Monotone(a: nat, b: nat)
    requires a <= b
    ensures Pow2(a) <= Pow2(b)
  {
    if a < b {
      Pow2Monotone(a, b - 1);
    }
  }

  lemma Pow2Widths()
    ensures Pow2(8) == 0x100 && Pow2(21) == 0x20_0000 && Pow2(32) == 0x1_0000_0000
  {
    assert Pow2(4) == 0x10;
    assert Pow2(8) == 0x100;
    assert Pow2(12) == 0x1000;
    assert Pow2(16) == 0x1_0000;
    assert Pow2(21) == 0x20_0000;
    assert Pow2(26) == 0x400_0000;
  }

  /** The `w` low bits of `n`, least significant first. */
  function ToBits(n: nat, w: nat): (r: Bits)
    ensures |r| == w
  {
    if w == 0 then [] else [n % 2 == 1] + ToBits(n / 2, w - 1)
  }

  /** The number whose bits, least significant first, are `b`. */
  function FromBits(b: Bits): (n: nat)
    ensures n < Pow2(|b|)
  {
    if b == [] then 0 else (if b[0] then 1 else 0) + 2 * FromBits(b[1..])
  }

  lemma {:induction false} FromToBits(n: nat, w: nat)
    requires n < Pow2(w)
    ensures FromBits(ToBits(n, w)) == n
  {
    if w > 0 {
      FromToBits(n / 2, w - 1);
      assert ToBits(n, w)[1..] == ToBits(n / 2, w - 1);
    }
  }

  lemma {:induction false} ToFromBits(b: Bits)
    ensures ToBits(FromBits(b), |b|) == b
  {
    if b != [] {
      ToFromBits(b[1..]);
      var n := FromBits(b);
      assert n % 2 == 1 <==> b[0];
      assert n / 2 == FromBits(b[1..]);
    }
  }

  lemma Assoc(x: Bits, y: Bits, z: Bits)
    ensures (x + y) + z == x + (y + z)
  {
  }

  lemma Drop(x: Bits, y: Bits)
    ensures (x + y)[|x|..] == y
  {
  }

  // ---------------------------------------------------------------------------
  // Typed fields

  /** Unicode scalar values: what a `char` can hold. */
  predicate IsScalar(n: nat)
  {
    n < 0xD800 || 0xE000 <= n < 0x11_0000
  }

  /** A .NET string: its length is an `int`. */
  type Text = s: string | |s| <= MAX_INT32

  /** The kinds of field a message carries.  A character is its 21-bit
      scalar value; a string is its length, as an unsigned field, followed
      by its characters. */
  datatype FieldKind = BoolField | UIntField | IntField | CharField | StringField

  datatype Field =
    | BoolF(b: bool)
    | UIntF(u: uint32)
    | IntF(i: int32)
    | CharF(c: char)
    | StringF(s: Text)

  function KindOf(f: Field): FieldKind
  {
    match f
    case BoolF(_) => BoolField
    case UIntF(_) => UIntField
    case IntF(_) => IntField
    case CharF(_) => CharField
    case StringF(_) => StringField
  }

  function Kinds(fs: seq<Field>): (ks: seq<FieldKind>)
    ensures |ks| == |fs|
  {
    if fs == [] then [] else [KindOf(fs[0])] + Kinds(fs[1..])
  }

  // ---------------------------------------------------------------------------
  // Encoders

  function EncBool(b: bool): Bits { [b] }

  function EncUInt(n: uint32): (r: Bits)
    ensures |r| == 32
  {
    ToBits(n, 32)
  }

  /** Two's complement over 32 bits. */
  function EncInt(i: int32): (r: Bits)
    ensures |r| == 32
  {
    ToBits(if i < 0 then i + 0x1_0000_0000 else i, 32)
  }

  function EncChar(c: char): (r: Bits)
    ensures |r| == 21
  {
    ToBits(c as int, 21)
  }

  function EncChars(s: string): (r: Bits)
    ensures |r| == 21 * |s|
  {
    if s == [] then [] else EncChar(s[0]) + EncChars(s[1..])
  }

  function EncString(s: Text): (r: Bits)
    ensures |r| == 32 + 21 * |s|
  {
    EncUInt(|s|) + EncChars(s)
  }

  function EncField(f: Field): Bits
  {
    match f
    case BoolF(b) => EncBool(b)
    case UIntF(u) => EncUInt(u)
    case IntF(i) => EncInt(i)
    case CharF(c) => EncChar(c)
    case StringF(s) => EncString(s)
  }

  /** The fields written one after the other, in order. */
  function EncFields(fs: seq<Field>): Bits
  {
    if fs == [] then [] else EncField(fs[0]) + EncFields(fs[1..])
  }

  // ---------------------------------------------------------------------------
  // Decoders: each returns what it read and the number of bits it used, or
  // `None` when the bits run out or do not hold a field of that kind

  function CharKinds(n: nat): (ks: seq<FieldKind>)
    ensures |ks| == n
  {
    seq(n, _ => CharField)
  }

  function AsChar(f: Field): char { if f.CharF? then f.c else ' ' }

  /** The unsigned number in the first 32 bits. */
  function UIntAt(b: Bits): uint32
    requires |b| >= 32
  {
    Pow2Widths();
    FromBits(b[..32])
  }

  /** The first 32 bits read as two's complement. */
  function IntAt(b: Bits): int32
    requires |b| >= 32
  {
    var v := UIntAt(b);
    if v >= 0x8000_0000 then v - 0x1_0000_0000 else v
  }

  /** The number in the first 21 bits: a character's scalar value when it
      is one. */
  function ScalarAt(b: Bits): nat
    requires |b| >= 21
  {
    FromBits(b[..21])
  }

  /** Reads one field of each kind in `ks`, in order. */
  function DecFields(ks: seq<FieldKind>, b: Bits): (r: Option<(seq<Field>, nat)>)
    ensures r.Some? ==> |r.value.0| == |ks| && r.value.1 <= |b|
    decreases |b|, |ks|, 2
  {
    if ks == [] then Some(([], 0)) else
    var first := DecField(ks[0], b);
    if first.None? then None else
    var others := DecFields(ks[1..], b[first.value.1..]);
    if others.None? then None else
    Some(([first.value.0] + others.value.0, first.value.1 + others.value.1))
  }

  function DecField(k: FieldKind, b: Bits): (r: Option<(Field, nat)>)
    ensures r.Some? ==> KindOf(r.value.0) == k && r.value.1 <= |b|
    decreases |b|, 0, 1
  {
    match k
    case BoolField => if |b| < 1 then None else Some((BoolF(b[0]), 1))
    case UIntField => if |b| < 32 then None else Some((UIntF(UIntAt(b)), 32))
    case IntField => if |b| < 32 then None else Some((IntF(IntAt(b)), 32))
    case CharField => if |b| < 21 || !IsScalar(ScalarAt(b)) then None else Some((CharF(ScalarAt(b) as char), 21))
    case StringField => DecString(b)
  }

  /** A length, then that many characters. */
  function DecString(b: Bits): (r: Option<(Field, nat)>)
    ensures r.Some? ==> r.value.0.StringF? && r.value.1 <= |b|
    decreases |b|, 0, 0
  {
    if |b| < 32 then None else
    var n := UIntAt(b);
    if n > MAX_INT32 then None else
    var cs := DecFields(CharKinds(n), b[32..]);
    if cs.None? then None else
    Some((StringF(seq(n, i requires 0 <= i < n => AsChar(cs.value.0[i]))), 32 + cs.value.1))
  }

  // ---------------------------------------------------------------------------
  // Round trips: a decoder reads back what the encoder wrote, whatever follows

  lemma {:induction false} DecFieldsCons(ks: seq<FieldKind>, b: Bits, f: Field, n: nat, fs: seq<Field>, m: nat)
    requires ks != [] && DecField(ks[0], b) == Some((f, n))
    requires DecFields(ks[1..], b[n..]) == Some((fs, m))
    ensures DecFields(ks, b) == Some(([f] + fs, n + m))
  {
  }

  lemma {:induction false} DecBoolEnc(v: bool, rest: Bits)
    ensures DecField(BoolField, EncBool(v) + rest) == Some((BoolF(v), 1))
  {
  }

  lemma {:induction false} DecUIntEnc(v: uint32, rest: Bits)
    ensures DecField(UIntField, EncUInt(v) + rest) == Some((UIntF(v), 32))
  {
    assert UIntAt(EncUInt(v) + rest) == v by {
      assert (EncUInt(v) + rest)[..32] == EncUInt(v);
      Pow2Widths();
      FromToBits(v, 32);
    }
  }

  lemma {:induction false} DecIntEnc(v: int32, rest: Bits)
    ensures DecField(IntField, EncInt(v) + rest) == Some((IntF(v), 32))
  {
    assert UIntAt(EncInt(v) + rest) == if v < 0 then v + 0x1_0000_0000 else v by {
      assert (EncInt(v) + rest)[..32] == EncInt(v);
      Pow2Widths();
      FromToBits(if v < 0 then v + 0x1_0000_0000 else v, 32);
    }
  }

  lemma {:induction false} DecCharEnc(c: char, rest: Bits)
    ensures DecField(CharField, EncChar(c) + rest) == Some((CharF(c), 21))
  {
    assert ScalarAt(EncChar(c) + rest) == c as int by {
      assert (EncChar(c) + rest)[..21] == EncChar(c);
      Pow2Widths();
      FromToBits(c as int, 21);
    }
  }

  function CharFields(s: string): (fs: seq<Field>)
    ensures |fs| == |s|
  {
    seq(|s|, i requires 0 <= i < |s| => CharF(s[i]))
  }

  lemma {:induction false} DecCharsEnc(s: string, rest: Bits)
    ensures DecFields(CharKinds(|s|), EncChars(s) + rest) == Some((CharFields(s), 21 * |s|))
  {
    if s != [] {
      var e := EncChar(s[0]);
      var tail := EncChars(s[1..]) + rest;
      var b := EncChars(s) + rest;
      assert b == e + tail by { Assoc(e, EncChars(s[1..]), rest); }
      assert DecField(CharField, b) == Some((CharF(s[0]), 21)) by { DecCharEnc(s[0], tail); }
      assert CharKinds(|s|)[1..] == CharKinds(|s| - 1);
      assert DecFields(CharKinds(|s| - 1), b[21..]) == Some((CharFields(s[1..]), 21 * (|s| - 1))) by {
        Drop(e, tail);
        DecCharsEnc(s[1..], rest);
      }
      DecFieldsCons(CharKinds(|s|), b, CharF(s[0]), 21, CharFields(s[1..]), 21 * (|s| - 1));
      assert [CharF(s[0])] + CharFields(s[1..]) == CharFields(s);
    }
  }

  lemma {:induction false} DecStringEnc(s: Text, rest: Bits)
    ensures DecField(StringField, EncString(s) + rest) == Some((StringF(s), |EncString(s)|))
  {
    var b := EncString(s) + rest;
    var n := |s|;
    assert b == EncUInt(n) + (EncChars(s) + rest) by { Assoc(EncUInt(n), EncChars(s), rest); }
    assert UIntAt(b) == n by {
      assert b[..32] == EncUInt(n);
      Pow2Widths();
      FromToBits(n, 32);
    }
    assert DecFields(CharKinds(n), b[32..]) == Some((CharFields(s), 21 * n)) by {
      Drop(EncUInt(n), EncChars(s) + rest);
      DecCharsEnc(s, rest);
    }
    assert seq(n, i requires 0 <= i < n => AsChar(CharFields(s)[i])) == s;
  }

  lemma {:induction false} DecFieldEnc(f: Field, rest: Bits)
    ensures DecField(KindOf(f), EncField(f) + rest) == Some((f, |EncField(f)|))
  {
    match f
    case BoolF(b) => DecBoolEnc(b, rest);
    case UIntF(u) => DecUIntEnc(u, rest);
    case IntF(i) => DecIntEnc(i, rest);
    case CharF(c) => DecCharEnc(c, rest);
    case StringF(s) => DecStringEnc(s, rest);
  }

  /** Reading the kinds of the fields written gives back those fields,
      whatever bits follow them. */
  lemma {:induction false} DecFieldsEnc(fs: seq<Field>, rest: Bits)
    ensures DecFields(Kinds(fs), EncFields(fs) + rest) == Some((fs, |EncFields(fs)|))
  {
    if fs != [] {
      var e := EncField(fs[0]);
      var tail := EncFields(fs[1..]) + rest;
      var b := EncFields(fs) + rest;
      assert b == e + tail by { Assoc(e, EncFields(fs[1..]), rest); }
      assert DecField(KindOf(fs[0]), b) == Some((fs[0], |e|)) by { DecFieldEnc(fs[0], tail); }
      assert DecFields(Kinds(fs[1..]), b[|e|..]) == Some((fs[1..], |EncFields(fs[1..])|)) by {
        Drop(e, tail);
        DecFieldsEnc(fs[1..], rest);
      }
      DecFieldsCons(Kinds(fs), b, fs[0], |e|, fs[1..], |EncFields(fs[1..])|);
      assert [fs[0]] + fs[1..] == fs;
    }
  }

  lemma {:induction false} EncFieldsAppend(xs: seq<Field>, ys: seq<Field>)
    ensures EncFields(xs + ys) == EncFields(xs) + EncFields(ys)
    ensures Kinds(xs + ys) == Kinds(xs) + Kinds(ys)
  {
    if xs == [] {
      assert xs + ys == ys;
    } else {
      assert (xs + ys)[1..] == xs[1..] + ys;
      assert (xs + ys)[0] == xs[0];
      EncFieldsAppend(xs[1..], ys);
      Assoc(EncField(xs[0]), EncFields(xs[1..]), EncFields(ys));
      assert [KindOf(xs[0])] + (Kinds(xs[1..]) + Kinds(ys)) == ([KindOf(xs[0])] + Kinds(xs[1..])) + Kinds(ys);
    }
  }

  // ---------------------------------------------------------------------------
  // Messages

  datatype SendMode = Unreliable | Reliable | Notify

  /** `kind` is the message id written in the header; `bits` is what was
      written after the header; `readPos` is the read cursor into `bits`. */
  datatype Message = Message(mode: SendMode, kind: uint16, bits: Bits, readPos: nat)
  {
    function WrittenBits(): nat { |bits| }

    function UnreadBits(): (n: nat)
      ensures n == |Unread()|
    {
      if readPos <= |bits| then |bits| - readPos else 0
    }

    function Unread(): Bits
    {
      if readPos <= |bits| then bits[readPos..] else []
    }

    /** Advances the read cursor past `n` bits that were read. */
    function Skip(n: nat): (r: Message)
      ensures n <= UnreadBits() ==> r.Unread() == Unread()[n..]
      ensures r.bits == bits && r.mode == mode && r.kind == kind
    {
      this.(readPos := readPos + n)
    }

    function Append(b: Bits): (m: Message)
      ensures m.bits == bits + b && m.readPos == readPos && m.mode == mode && m.kind == kind
    {
      this.(bits := bits + b)
    }
  }

  /** `Message.Create(mode, kind)`: a message with only its header. */
  function Create(mode: SendMode, kind: uint16): Message
  {
    Message(mode, kind, [], 0)
  }

  /** How a message arrives at the receiving peer: the bits written after
      the header, with the read cursor at their start. */
  function Received(m: Message): Message
  {
    Message(m.mode, m.kind, m.bits, 0)
  }

  /** `AddBool`, `AddUInt`, `AddInt`, `AddString` for a list of fields. */
  function AddFields(m: Message, fs: seq<Field>): Message { m.Append(EncFields(fs)) }

  /** `AddBits(bits, count)`: appends the `count` low bits of a byte. */
  function AddBits(m: Message, byte: uint8, count: nat): (r: Message)
    requires count <= 8
  {
    m.Append(ToBits(byte, count))
  }

  /** `PeekBits(count, pos, out byte)`: the `count` bits at `pos`, as a byte,
      without moving the read cursor. */
  function PeekBits(m: Message, count: nat, pos: nat): (byte: uint8)
    requires count <= 8 && pos + count <= |m.bits|
    ensures ToBits(byte, count) == m.bits[pos..pos + count]
  {
    var chunk := m.bits[pos..pos + count];
    Pow2Monotone(count, 8);
    Pow2Widths();
    ToFromBits(chunk);
    FromBits(chunk)
  }

  /** `GetBits(count, out byte)`: the next `count` unread bits, as a byte,
      and the message with its cursor moved past them. */
  function GetBits(m: Message, count: nat): (r: (uint8, Message))
    requires count <= 8 && count <= m.UnreadBits()
    ensures ToBits(r.0, count) == m.Unread()[..count]
    ensures r.1 == m.Skip(count)
  {
    var chunk := m.Unread()[..count];
    Pow2Monotone(count, 8);
    Pow2Widths();
    ToFromBits(chunk);
    (FromBits(chunk), m.Skip(count))
  }
}
