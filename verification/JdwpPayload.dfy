/** Reading and writing JDWP packet payloads: integers, strings, IDs of negotiated size,
    tagged values, and the two list-shaped payloads of class redefinition. */
module JdwpPayload {
  import opened Bytes

  datatype ReadError = UnexpectedEnd | NegativeLength | LengthExceedsRemaining | InvalidIdSize | UnknownTag
  datatype Result<+T> = Ok(value: T) | Err(error: ReadError)

  /** The dynamic types that a Go interface{} value may have here; floats are their bits. */
  datatype GoValue =
    | Nil
    | Int8(i8: int8) | UInt8(u8: byte) | Int16(i16: int16) | UInt16(u16: uint16)
    | Int32(i32: int32) | Int64(i64: int64) | Int(n: int64)
    | Float32(bits32: uint32) | Float64(bits64: uint64)
    | Bool(b: bool) | OtherType

  datatype Kind = KByte | KChar | KDouble | KFloat | KInt | KLong | KShort | KBoolean | KId | KUnknown

  /** The JDWP value tags; all object-like tags carry an 8-byte ID. */
  function KindOf(tag: byte): Kind {
    if tag == 'B' as int then KByte
    else if tag == 'C' as int then KChar
    else if tag == 'D' as int then KDouble
    else if tag == 'F' as int then KFloat
    else if tag == 'I' as int then KInt
    else if tag == 'J' as int then KLong
    else if tag == 'S' as int then KShort
    else if tag == 'Z' as int then KBoolean
    else if tag == 's' as int || tag == '[' as int || tag == 'L' as int || tag == 't' as int
            || tag == 'g' as int || tag == 'l' as int || tag == 'c' as int then KId
    else KUnknown
  }

  // ------------------------------------------------- what stands at a position

  function PutInt(v: int32): (s: seq<byte>) ensures |s| == 4 { PutU4(LowU4(v)) }
  function PutLong(v: int64): (s: seq<byte>) ensures |s| == 8 { PutU8(LowU8(v)) }
  function PutShort(v: int16): (s: seq<byte>) ensures |s| == 2 { PutU2(LowU2(v)) }

  function ByteAt(data: seq<byte>, pos: nat): Result<byte> {
    if pos >= |data| then Err(UnexpectedEnd) else Ok(data[pos])
  }

  function IntAt(data: seq<byte>, pos: nat): Result<int32> {
    if pos + 4 > |data| then Err(UnexpectedEnd) else Ok(ToInt32(U4At(data, pos)))
  }

  function LongAt(data: seq<byte>, pos: nat): Result<int64> {
    if pos + 8 > |data| then Err(UnexpectedEnd) else Ok(ToInt64(U8At(data, pos)))
  }

  /** An ID; a 4-byte ID is sign-extended. */
  function IdAt(data: seq<byte>, pos: nat, size: int): Result<int64> {
    if size == 4 then
      match IntAt(data, pos)
      case Ok(v) => Ok(v)
      case Err(e) => Err(e)
    else if size == 8 then LongAt(data, pos)
    else Err(InvalidIdSize)
  }

  /** An ID as written: its low 32 bits for size 4, all 64 bits for any other size. */
  function PutId(id: int64, size: int): (s: seq<byte>)
    ensures |s| == if size == 4 then 4 else 8
  {
    if size == 4 then PutInt(ToInt32(LowU4(id))) else PutLong(id)
  }

  function StringAt(data: seq<byte>, pos: nat): Result<seq<byte>> {
    match IntAt(data, pos)
    case Err(e) => Err(e)
    case Ok(length) =>
      if length < 0 then Err(NegativeLength)
      else if pos + 4 + length > |data| then Err(LengthExceedsRemaining)
      else Ok(data[pos + 4..pos + 4 + length])
  }

  function ValueSize(kind: Kind): nat {
    match kind
    case KByte => 1
    case KBoolean => 1
    case KChar => 2
    case KShort => 2
    case KInt => 4
    case KFloat => 4
    case KLong => 8
    case KDouble => 8
    case KId => 8
    case KUnknown => 0
  }

  function ValueAt(data: seq<byte>, pos: nat, kind: Kind): Result<GoValue> {
    if kind == KUnknown then Err(UnknownTag)
    else if pos + ValueSize(kind) > |data| then Err(UnexpectedEnd)
    else
      match kind
      case KByte => Ok(Int8(ToInt8(data[pos])))
      case KBoolean => Ok(Bool(data[pos] != 0))
      case KChar => Ok(UInt16(U2At(data, pos)))
      case KShort => Ok(Int16(ToInt16(U2At(data, pos))))
      case KInt => Ok(Int32(ToInt32(U4At(data, pos))))
      case KFloat => Ok(Float32(U4At(data, pos)))
      case KLong => Ok(Int64(ToInt64(U8At(data, pos))))
      case KDouble => Ok(Float64(U8At(data, pos)))
      case KId => Ok(Int64(ToInt64(U8At(data, pos))))
  }

  // -------------------------------------------------- the writer's conversions

  /** The one dynamic type the reader delivers for a tag. */
  predicate WellTyped(kind: Kind, v: GoValue) {
    match kind
    case KByte => v.Int8?
    case KBoolean => v.Bool?
    case KChar => v.UInt16?
    case KShort => v.Int16?
    case KInt => v.Int32?
    case KFloat => v.Float32?
    case KLong => v.Int64?
    case KDouble => v.Float64?
    case KId => v.Int64?
    case KUnknown => false
  }

  /** The value that the writer puts on the wire for whatever it is given: some other
      integer types are converted, everything else including nil counts as zero. */
  function Converted(kind: Kind, v: GoValue): (w: GoValue)
    requires kind != KUnknown
    ensures WellTyped(kind, w)
  {
    match kind
    case KByte =>
      Int8(match v case Int8(i) => i case UInt8(u) => ToInt8(u) case Int(n) => ToInt8(LowByte(n)) case _ => 0)
    case KChar =>
      UInt16(match v case UInt16(c) => c case Int32(r) => LowU2(r) case Int(n) => LowU2(n) case _ => 0)
    case KDouble => if v.Float64? then v else Float64(0)
    case KFloat => if v.Float32? then v else Float32(0)
    case KInt => Int32(match v case Int32(i) => i case Int(n) => ToInt32(LowU4(n)) case _ => 0)
    case KLong => Int64(match v case Int64(l) => l case Int(n) => n case _ => 0)
    case KShort =>
      Int16(match v case Int16(i) => i case Int(n) => ToInt16(LowU2(n)) case Int32(s) => ToInt16(LowU2(s)) case _ => 0)
    case KBoolean => Bool(v.Bool? && v.b)
    case KId => Int64(match v case Int64(l) => l case Int(n) => n case _ => 0)
  }

  function PutValue(kind: Kind, v: GoValue): (s: seq<byte>)
    requires WellTyped(kind, v)
    ensures |s| == ValueSize(kind)
  {
    match kind
    case KByte => [LowByte(v.i8)]
    case KBoolean => [if v.b then 1 else 0]
    case KChar => PutU2(v.u16)
    case KShort => PutShort(v.i16)
    case KInt => PutInt(v.i32)
    case KFloat => PutU4(v.bits32)
    case KLong => PutLong(v.i64)
    case KDouble => PutU8(v.bits64)
    case KId => PutLong(v.i64)
  }

  /** What follows the tag byte. For an unknown tag nil is written as four zero bytes and
      anything else as nothing at all. */
  function PutAny(kind: Kind, v: GoValue): seq<byte> {
    if kind == KUnknown then (if v == Nil then [0, 0, 0, 0] else []) else PutValue(kind, Converted(kind, v))
  }

  // ------------------------------------------------------------- round trips

  lemma UnsignedRoundTrips(a: uint32, b: uint64)
    ensures LowU4(ToInt32(a)) == a && LowU8(ToInt64(b)) == b
  {
  }

  lemma IntRoundTrip(data: seq<byte>, pos: nat, v: int32)
    requires Has(data, pos, PutInt(v))
    ensures IntAt(data, pos) == Ok(v)
  {
    hide U4At, PutU4, Has;
    U4RoundTrip(data, pos, LowU4(v));
  }

  lemma LongRoundTrip(data: seq<byte>, pos: nat, v: int64)
    requires Has(data, pos, PutLong(v))
    ensures LongAt(data, pos) == Ok(v)
  {
    hide U8At, PutU8, Has;
    U8RoundTrip(data, pos, LowU8(v));
  }

  lemma StringRoundTrip(data: seq<byte>, pos: nat, s: seq<byte>)
    requires |s| < 0x8000_0000 && Has(data, pos, PutInt(|s|) + s)
    ensures StringAt(data, pos) == Ok(s)
  {
    HasSplit(data, pos, PutInt(|s|), s);
    IntRoundTrip(data, pos, |s|);
  }

  predicate FitsInt32(id: int64) {
    -0x8000_0000 <= id < 0x8000_0000
  }

  /** What comes back of an ID; the same ID exactly if it is 8 bytes wide on the wire or
      fits the 4 bytes. */
  lemma IdRoundTrip(data: seq<byte>, pos: nat, id: int64, size: int)
    requires (size == 4 || size == 8) && Has(data, pos, PutId(id, size))
    ensures IdAt(data, pos, size) == Ok(if size == 4 then ToInt32(LowU4(id)) else id)
    ensures IdAt(data, pos, size) == Ok(id) <==> size == 8 || FitsInt32(id)
  {
    if size == 4 {
      IntRoundTrip(data, pos, ToInt32(LowU4(id)));
    } else {
      LongRoundTrip(data, pos, id);
    }
  }

  /** Byte for byte: an ID that was read is written back as the bytes it was read from. */
  lemma IdBytesExact(data: seq<byte>, pos: nat, size: int)
    requires IdAt(data, pos, size).Ok?
    ensures PutId(IdAt(data, pos, size).value, size) == data[pos..pos + size]
  {
    hide PutU4, U4At, PutU8, U8At;
    if size == 4 {
      U4Canonical(data, pos);
      UnsignedRoundTrips(U4At(data, pos), 0);
    } else {
      U8Canonical(data, pos);
      UnsignedRoundTrips(0, U8At(data, pos));
    }
  }

  /** IDs are cut only for a JVM that asked for 4 bytes: other sizes than 4 and 8 count as 8. */
  lemma OnlyFourCuts(id: int64, size: int)
    ensures var n := EffectiveIdSize(size);
            IdAt(PutId(id, n), 0, n) == Ok(id) <==> size != 4 || FitsInt32(id)
  {
    var n := EffectiveIdSize(size);
    assert Has(PutId(id, n), 0, PutId(id, n));
    hide PutId, IdAt, Has;
    IdRoundTrip(PutId(id, n), 0, id, n);
  }

  lemma ConvertedIsIdentity(kind: Kind, v: GoValue)
    requires kind != KUnknown
    ensures Converted(kind, v) == v <==> WellTyped(kind, v)
  {
  }

  lemma ValueRoundTrip(data: seq<byte>, pos: nat, kind: Kind, v: GoValue)
    requires WellTyped(kind, v) && Has(data, pos, PutValue(kind, v))
    ensures ValueAt(data, pos, kind) == Ok(v)
  {
    assert pos + ValueSize(kind) <= |data|;
    match kind
    case KByte => assert data[pos] == data[pos..pos + 1][0];
    case KBoolean => assert data[pos] == data[pos..pos + 1][0];
    case KChar => U2RoundTrip(data, pos, v.u16);
    case KShort => U2RoundTrip(data, pos, LowU2(v.i16));
    case KInt => IntRoundTrip(data, pos, v.i32);
    case KFloat => U4RoundTrip(data, pos, v.bits32);
    case KLong => LongRoundTrip(data, pos, v.i64);
    case KDouble => U8RoundTrip(data, pos, v.bits64);
    case KId => LongRoundTrip(data, pos, v.i64);
  }

  datatype Tagged = Tagged(tag: byte, value: GoValue)

  function PutTagged(t: Tagged): seq<byte> {
    [t.tag] + PutAny(KindOf(t.tag), t.value)
  }

  function TaggedAt(data: seq<byte>, pos: nat): Result<Tagged> {
    match ByteAt(data, pos)
    case Err(e) => Err(e)
    case Ok(tag) =>
      match ValueAt(data, pos + 1, KindOf(tag))
      case Err(e) => Err(e)
      case Ok(v) => Ok(Tagged(tag, v))
  }

  /** What a tagged value reads back as, for every tag and every value: an error exactly for
      unknown tags, and the same value exactly if it has the type that belongs to its tag. */
  lemma TaggedRoundTrip(data: seq<byte>, pos: nat, t: Tagged)
    requires Has(data, pos, PutTagged(t))
    ensures TaggedAt(data, pos) == if KindOf(t.tag) == KUnknown then Err(UnknownTag)
                                   else Ok(Tagged(t.tag, Converted(KindOf(t.tag), t.value)))
    ensures TaggedAt(data, pos) == Ok(t) <==> WellTyped(KindOf(t.tag), t.value)
  {
    var kind := KindOf(t.tag);
    hide KindOf, PutValue, ValueAt;
    HasSplit(data, pos, [t.tag], PutAny(kind, t.value));
    assert data[pos..pos + 1][0] == data[pos];
    if kind != KUnknown {
      ConvertedIsIdentity(kind, t.value);
      ValueRoundTrip(data, pos + 1, kind, Converted(kind, t.value));
    } else {
      UnknownHasNoValue(data, pos + 1);
    }
  }

  lemma UnknownHasNoValue(data: seq<byte>, pos: nat)
    ensures ValueAt(data, pos, KUnknown) == Err(UnknownTag)
  {
  }

  // ------------------------------------------------------ tags and conversions

  /** The tag codes of the protocol: B, C, D, F, I, J, S, Z, and for IDs s, [, L, t, g, l, c. */
  lemma TagCodes(tag: byte)
    ensures KindOf(tag) == KByte <==> tag == 66
    ensures KindOf(tag) == KChar <==> tag == 67
    ensures KindOf(tag) == KDouble <==> tag == 68
    ensures KindOf(tag) == KFloat <==> tag == 70
    ensures KindOf(tag) == KInt <==> tag == 73
    ensures KindOf(tag) == KLong <==> tag == 74
    ensures KindOf(tag) == KShort <==> tag == 83
    ensures KindOf(tag) == KBoolean <==> tag == 90
    ensures KindOf(tag) == KId <==> tag in {115, 91, 76, 116, 103, 108, 99}
  {
  }

  datatype Number = NoNumber | Number(n: int)

  function NumberOf(v: GoValue): Number {
    match v
    case Int8(n) => Number(n)
    case UInt8(n) => Number(n)
    case Int16(n) => Number(n)
    case UInt16(n) => Number(n)
    case Int32(n) => Number(n)
    case Int64(n) => Number(n)
    case Int(n) => Number(n)
    case _ => NoNumber
  }

  /** The types of numbers that are written under a tag, beside its own. */
  predicate Takes(kind: Kind, v: GoValue) {
    match kind
    case KByte => v.Int8? || v.UInt8? || v.Int?
    case KChar => v.UInt16? || v.Int32? || v.Int?
    case KShort => v.Int16? || v.Int32? || v.Int?
    case KInt => v.Int32? || v.Int?
    case KLong => v.Int64? || v.Int?
    case KId => v.Int64? || v.Int?
    case _ => false
  }

  predicate InRangeOf(kind: Kind, n: int) {
    match kind
    case KByte => -0x80 <= n < 0x80
    case KChar => 0 <= n < 0x1_0000
    case KShort => -0x8000 <= n < 0x8000
    case KInt => -0x8000_0000 <= n < 0x8000_0000
    case KLong => true
    case KId => true
    case _ => false
  }

  /** A number of a type that the tag takes is written as the same number exactly if it is in
      the tag's range; a number of any other type is written as zero. */
  lemma ConversionKeepsNumber(kind: Kind, v: GoValue)
    requires kind in {KByte, KChar, KShort, KInt, KLong, KId} && NumberOf(v).Number?
    ensures Takes(kind, v) ==> (NumberOf(Converted(kind, v)) == NumberOf(v) <==> InRangeOf(kind, NumberOf(v).n))
    ensures !Takes(kind, v) ==> NumberOf(Converted(kind, v)) == Number(0)
  {
  }

  /** A value of any other type, nil included, is written as zero bytes. */
  lemma OthersAreZero(kind: Kind, v: GoValue)
    requires kind != KUnknown && !WellTyped(kind, v) && !Takes(kind, v)
    ensures |PutAny(kind, v)| == ValueSize(kind)
    ensures forall i :: 0 <= i < |PutAny(kind, v)| ==> PutAny(kind, v)[i] == 0
  {
    assert PutU2(0) == [0, 0] && PutU4(0) == [0, 0, 0, 0] && PutU8(0) == [0, 0, 0, 0, 0, 0, 0, 0];
    hide PutU2, PutU4, PutU8;
  }

  /** Booleans are one byte; behind an unknown tag stand four zero bytes for nil and nothing else. */
  lemma OddValues(v: GoValue)
    ensures PutAny(KBoolean, Bool(true)) == [1] && PutAny(KBoolean, Bool(false)) == [0]
    ensures PutAny(KUnknown, Nil) == [0, 0, 0, 0] && (v != Nil ==> PutAny(KUnknown, v) == [])
  {
  }

  function PutAllTagged(ts: seq<Tagged>): seq<byte> {
    if ts == [] then [] else PutTagged(ts[0]) + PutAllTagged(ts[1..])
  }

  /** The tagged values that n reads from `pos` on deliver, and where the cursor then stands. */
  function ReadAllTagged(data: seq<byte>, pos: nat, n: nat): Result<(seq<Tagged>, nat)>
    decreases n
  {
    if n == 0 then Ok(([], pos)) else
    match TaggedAt(data, pos)
    case Err(e) => Err(e)
    case Ok(t) =>
      match ReadAllTagged(data, pos + 1 + ValueSize(KindOf(t.tag)), n - 1)
      case Err(e) => Err(e)
      case Ok((ts, end)) => Ok(([t] + ts, end))
  }

  predicate AllWellTyped(ts: seq<Tagged>) {
    forall i :: 0 <= i < |ts| ==> WellTyped(KindOf(ts[i].tag), ts[i].value)
  }

  /** A written sequence of well-typed values reads back unchanged, to the last byte. */
  lemma {:induction false} TaggedSequenceRoundTrip(data: seq<byte>, pos: nat, ts: seq<Tagged>)
    requires AllWellTyped(ts) && Has(data, pos, PutAllTagged(ts))
    ensures ReadAllTagged(data, pos, |ts|) == Ok((ts, pos + |PutAllTagged(ts)|))
    decreases |ts|
  {
    hide *;
    if ts == [] {
      NothingToRead(data, pos, 0);
    } else {
      var t, tail := ts[0], ts[1..];
      assert ts == [t] + tail;
      PutAllTaggedStep(t, tail);
      HasSplit(data, pos, PutTagged(t), PutAllTagged(tail));
      TaggedRoundTrip(data, pos, t);
      TaggedSize(t);
      var next := pos + |PutTagged(t)|;
      TaggedSequenceRoundTrip(data, next, tail);
      ReadAllTaggedStep(data, pos, t, tail, next + |PutAllTagged(tail)|);
    }
  }

  lemma PutAllTaggedStep(t: Tagged, tail: seq<Tagged>)
    ensures PutAllTagged([t] + tail) == PutTagged(t) + PutAllTagged(tail)
    ensures AllWellTyped([t] + tail) ==> WellTyped(KindOf(t.tag), t.value) && AllWellTyped(tail)
  {
    hide PutTagged, WellTyped, KindOf;
    assert ([t] + tail)[0] == t && ([t] + tail)[1..] == tail;
  }

  lemma ReadAllTaggedStep(data: seq<byte>, pos: nat, t: Tagged, tail: seq<Tagged>, end: nat)
    requires TaggedAt(data, pos) == Ok(t)
    requires ReadAllTagged(data, pos + 1 + ValueSize(KindOf(t.tag)), |tail|) == Ok((tail, end))
    ensures ReadAllTagged(data, pos, 1 + |tail|) == Ok(([t] + tail, end))
  {
    hide TaggedAt, ValueSize, KindOf;
  }

  lemma TaggedSize(t: Tagged)
    requires WellTyped(KindOf(t.tag), t.value)
    ensures |PutTagged(t)| == 1 + ValueSize(KindOf(t.tag))
  {
    hide KindOf;
  }

  // -------------------------------------------------- class redefinition lists

  datatype ClassRedefinition = ClassRedefinition(refTypeId: int64, classBytes: seq<byte>)

  /** Sizes other than 4 and 8, such as the 0 before negotiation, are replaced by 8. */
  function EffectiveIdSize(size: int): int {
    if size != 4 && size != 8 then 8 else size
  }

  function PutRedefinition(c: ClassRedefinition, size: int): seq<byte> {
    PutId(c.refTypeId, size) + PutInt(ToInt32(LowU4(|c.classBytes|))) + c.classBytes
  }

  function PutRedefinitions(cs: seq<ClassRedefinition>, size: int): seq<byte> {
    if cs == [] then [] else PutRedefinition(cs[0], size) + PutRedefinitions(cs[1..], size)
  }

  /** The VirtualMachine.RedefineClasses command data. */
  function RedefineCommand(cs: seq<ClassRedefinition>, size: int): seq<byte> {
    PutInt(ToInt32(LowU4(|cs|))) + PutRedefinitions(cs, EffectiveIdSize(size))
  }

  /** A reader of the RedefineClasses layout in the JDWP specification: n times an ID, a
      byte count and that many bytes. */
  function ReadRedefinitions(data: seq<byte>, pos: nat, n: nat, size: int): Result<(seq<ClassRedefinition>, nat)>
    decreases n
  {
    if n == 0 then Ok(([], pos)) else
    match IdAt(data, pos, size)
    case Err(e) => Err(e)
    case Ok(id) =>
      match StringAt(data, pos + size)
      case Err(e) => Err(e)
      case Ok(bytes) =>
        match ReadRedefinitions(data, pos + size + 4 + |bytes|, n - 1, size)
        case Err(e) => Err(e)
        case Ok((cs, end)) => Ok(([ClassRedefinition(id, bytes)] + cs, end))
  }

  predicate Transmittable(c: ClassRedefinition, size: int) {
    |c.classBytes| < 0x8000_0000 && (size == 8 || FitsInt32(c.refTypeId))
  }

  lemma RedefinitionRoundTrip(data: seq<byte>, pos: nat, c: ClassRedefinition, size: int)
    requires (size == 4 || size == 8) && Transmittable(c, size) && Has(data, pos, PutRedefinition(c, size))
    ensures IdAt(data, pos, size) == Ok(c.refTypeId) && StringAt(data, pos + size) == Ok(c.classBytes)
    ensures |PutRedefinition(c, size)| == size + 4 + |c.classBytes|
  {
    hide Has, PutInt, PutId;
    HasSplit(data, pos, PutId(c.refTypeId, size) + PutInt(|c.classBytes|), c.classBytes);
    HasSplit(data, pos, PutId(c.refTypeId, size), PutInt(|c.classBytes|));
    HasSplit(data, pos + size, PutInt(|c.classBytes|), c.classBytes);
    IdRoundTrip(data, pos, c.refTypeId, size);
    StringRoundTrip(data, pos + size, c.classBytes);
  }

  predicate AllTransmittable(cs: seq<ClassRedefinition>, size: int) {
    forall i :: 0 <= i < |cs| ==> Transmittable(cs[i], size)
  }

  lemma PutRedefinitionsStep(c: ClassRedefinition, tail: seq<ClassRedefinition>, size: int)
    ensures PutRedefinitions([c] + tail, size) == PutRedefinition(c, size) + PutRedefinitions(tail, size)
    ensures AllTransmittable([c] + tail, size) ==> Transmittable(c, size) && AllTransmittable(tail, size)
  {
    hide PutRedefinition, Transmittable;
    assert ([c] + tail)[0] == c && ([c] + tail)[1..] == tail;
  }

  lemma ReadRedefinitionsStep(data: seq<byte>, pos: nat, c: ClassRedefinition, tail: seq<ClassRedefinition>, size: nat,
                              next: nat, end: nat)
    requires IdAt(data, pos, size) == Ok(c.refTypeId) && StringAt(data, pos + size) == Ok(c.classBytes)
    requires next == pos + size + 4 + |c.classBytes| && ReadRedefinitions(data, next, |tail|, size) == Ok((tail, end))
    ensures ReadRedefinitions(data, pos, 1 + |tail|, size) == Ok(([c] + tail, end))
  {
    hide IdAt, StringAt;
    assert c == ClassRedefinition(c.refTypeId, c.classBytes);
  }

  lemma {:induction false} RedefinitionsRoundTrip(data: seq<byte>, pos: nat, cs: seq<ClassRedefinition>, size: int)
    requires (size == 4 || size == 8) && AllTransmittable(cs, size)
    requires Has(data, pos, PutRedefinitions(cs, size))
    ensures ReadRedefinitions(data, pos, |cs|, size) == Ok((cs, pos + |PutRedefinitions(cs, size)|))
    decreases |cs|
  {
    hide *;
    if cs == [] {
      NothingToRead(data, pos, size);
    } else {
      var c, tail := cs[0], cs[1..];
      assert cs == [c] + tail;
      PutRedefinitionsStep(c, tail, size);
      HasSplit(data, pos, PutRedefinition(c, size), PutRedefinitions(tail, size));
      RedefinitionRoundTrip(data, pos, c, size);
      var next := pos + |PutRedefinition(c, size)|;
      RedefinitionsRoundTrip(data, next, tail, size);
      ReadRedefinitionsStep(data, pos, c, tail, size, next, next + |PutRedefinitions(tail, size)|);
    }
  }

  /** The receiver recovers the list of redefinitions and consumes the whole command. */
  lemma RedefineCommandRecoverable(cs: seq<ClassRedefinition>, size: int)
    requires |cs| < 0x8000_0000 && AllTransmittable(cs, EffectiveIdSize(size))
    ensures IntAt(RedefineCommand(cs, size), 0) == Ok(|cs|)
    ensures ReadRedefinitions(RedefineCommand(cs, size), 4, |cs|, EffectiveIdSize(size)) == Ok((cs,
        |RedefineCommand(cs, size)|))
  {
    hide PutInt, AllTransmittable, ReadRedefinitions, PutRedefinitions, IntAt;
    var count, rest := PutInt(|cs|), PutRedefinitions(cs, EffectiveIdSize(size));
    var data := count + rest;
    assert RedefineCommand(cs, size) == data;
    assert Has(data, 0, count + rest);
    hide Has, RedefineCommand;
    HasSplit(data, 0, count, rest);
    IntRoundTrip(data, 0, |cs|);
    RedefinitionsRoundTrip(data, 4, cs, EffectiveIdSize(size));
  }

  datatype ClassRef = ClassRef(refTypeTag: byte, typeId: int64, status: int32)

  /** The reply decoder's outcome; allocating a slice of negative capacity is a run-time panic. */
  datatype ClassRefs = Decoded(refs: seq<ClassRef>) | Failed(error: ReadError) | Panicked

  function ReadClassRefs(data: seq<byte>, pos: nat, n: nat, size: int): Result<(seq<ClassRef>, nat)>
    decreases n
  {
    if n == 0 then Ok(([], pos)) else
    match ByteAt(data, pos)
    case Err(e) => Err(e)
    case Ok(tag) =>
      match IdAt(data, pos + 1, size)
      case Err(e) => Err(e)
      case Ok(id) =>
        match IntAt(data, pos + 1 + size)
        case Err(e) => Err(e)
        case Ok(status) =>
          match ReadClassRefs(data, pos + 5 + size, n - 1, size)
          case Err(e) => Err(e)
          case Ok((refs, end)) => Ok(([ClassRef(tag, id, status)] + refs, end))
  }

  function DecodeClassRefs(data: seq<byte>, size: int): ClassRefs {
    match IntAt(data, 0)
    case Err(e) => Failed(e)
    case Ok(count) =>
      if count < 0 then Panicked else
      match ReadClassRefs(data, 4, count, EffectiveIdSize(size))
      case Err(e) => Failed(e)
      case Ok((refs, _)) => Decoded(refs)
  }

  /** The ClassesBySignature reply of the JDWP specification. */
  function PutClassRef(r: ClassRef, size: int): seq<byte> {
    [r.refTypeTag] + PutId(r.typeId, size) + PutInt(r.status)
  }

  function PutClassRefs(rs: seq<ClassRef>, size: int): seq<byte> {
    if rs == [] then [] else PutClassRef(rs[0], size) + PutClassRefs(rs[1..], size)
  }

  lemma ClassRefRoundTrip(data: seq<byte>, pos: nat, r: ClassRef, size: int)
    requires (size == 4 || size == 8) && (size == 8 || FitsInt32(r.typeId)) && Has(data, pos, PutClassRef(r, size))
    ensures ByteAt(data, pos) == Ok(r.refTypeTag)
    ensures IdAt(data, pos + 1, size) == Ok(r.typeId) && IntAt(data, pos + 1 + size) == Ok(r.status)
    ensures |PutClassRef(r, size)| == 5 + size
  {
    HasSplit(data, pos, [r.refTypeTag] + PutId(r.typeId, size), PutInt(r.status));
    HasSplit(data, pos, [r.refTypeTag], PutId(r.typeId, size));
    assert data[pos..pos + 1][0] == data[pos];
    hide Has, PutInt, PutId;
    IdRoundTrip(data, pos + 1, r.typeId, size);
    IntRoundTrip(data, pos + 1 + size, r.status);
  }

  predicate AllIdsFit(rs: seq<ClassRef>, size: int) {
    size == 8 || forall i :: 0 <= i < |rs| ==> FitsInt32(rs[i].typeId)
  }

  lemma PutClassRefsStep(r: ClassRef, tail: seq<ClassRef>, size: int)
    ensures PutClassRefs([r] + tail, size) == PutClassRef(r, size) + PutClassRefs(tail, size)
    ensures AllIdsFit([r] + tail, size) ==> (size == 8 || FitsInt32(r.typeId)) && AllIdsFit(tail, size)
  {
    hide PutClassRef, FitsInt32;
    assert ([r] + tail)[0] == r && ([r] + tail)[1..] == tail;
  }

  lemma ReadClassRefsStep(data: seq<byte>, pos: nat, r: ClassRef, tail: seq<ClassRef>, size: nat, end: nat)
    requires ByteAt(data, pos) == Ok(r.refTypeTag)
    requires IdAt(data, pos + 1, size) == Ok(r.typeId) && IntAt(data, pos + 1 + size) == Ok(r.status)
    requires ReadClassRefs(data, pos + 5 + size, |tail|, size) == Ok((tail, end))
    ensures ReadClassRefs(data, pos, 1 + |tail|, size) == Ok(([r] + tail, end))
  {
    hide ByteAt, IdAt, IntAt;
    assert r == ClassRef(r.refTypeTag, r.typeId, r.status);
  }

  lemma {:induction false} ClassRefsRoundTrip(data: seq<byte>, pos: nat, rs: seq<ClassRef>, size: int)
    requires (size == 4 || size == 8) && AllIdsFit(rs, size)
    requires Has(data, pos, PutClassRefs(rs, size))
    ensures ReadClassRefs(data, pos, |rs|, size) == Ok((rs, pos + |PutClassRefs(rs, size)|))
    decreases |rs|
  {
    hide *;
    if rs == [] {
      NothingToRead(data, pos, size);
    } else {
      var r, tail := rs[0], rs[1..];
      assert rs == [r] + tail;
      PutClassRefsStep(r, tail, size);
      HasSplit(data, pos, PutClassRef(r, size), PutClassRefs(tail, size));
      ClassRefRoundTrip(data, pos, r, size);
      var next := pos + |PutClassRef(r, size)|;
      ClassRefsRoundTrip(data, next, tail, size);
      ReadClassRefsStep(data, pos, r, tail, size, next + |PutClassRefs(tail, size)|);
    }
  }

  /** A well-formed reply with IDs of the negotiated size is decoded to the list it encodes. */
  lemma ClassRefsRecoverable(rs: seq<ClassRef>, size: int)
    requires |rs| < 0x8000_0000 && AllIdsFit(rs, EffectiveIdSize(size))
    ensures DecodeClassRefs(PutInt(|rs|) + PutClassRefs(rs, EffectiveIdSize(size)), size) == Decoded(rs)
  {
    var count, rest := PutInt(|rs|), PutClassRefs(rs, EffectiveIdSize(size));
    var data := count + rest;
    assert Has(data, 0, count + rest);
    hide Has, PutInt, AllIdsFit, ReadClassRefs, PutClassRefs, IntAt;
    HasSplit(data, 0, count, rest);
    IntRoundTrip(data, 0, |rs|);
    ClassRefsRoundTrip(data, 4, rs, EffectiveIdSize(size));
  }

  /** Decoding a reply panics exactly if its count field is negative. */
  lemma ClassRefsPanicExactly(data: seq<byte>, size: int)
    ensures DecodeClassRefs(data, size) == Panicked <==> |data| >= 4 && ToInt32(U4At(data, 0)) < 0
    ensures DecodeClassRefs([0x80, 0, 0, 0], size) == Panicked
  {
  }

  lemma NothingToRead(data: seq<byte>, pos: nat, size: int)
    ensures PutAllTagged([]) == [] && ReadAllTagged(data, pos, 0) == Ok(([], pos))
    ensures PutRedefinitions([], size) == [] && ReadRedefinitions(data, pos, 0, size) == Ok(([], pos))
    ensures PutClassRefs([], size) == [] && ReadClassRefs(data, pos, 0, size) == Ok(([], pos))
  {
  }

  // ------------------------------------------------------------ reader and writer

  class JDWPDataReader {
    const data: seq<byte>
    var pos: nat

    constructor (data: seq<byte>)
      ensures this.data == data && pos == 0
    {
      this.data, pos := data, 0;
    }

    method ReadByte() returns (r: Result<byte>)
      modifies this
      ensures r == ByteAt(data, old(pos)) && pos == old(pos) + if r.Ok? then 1 else 0
    {
      if pos >= |data| {
        return Err(UnexpectedEnd);
      }
      r := Ok(data[pos]);
      pos := pos + 1;
    }

    method ReadInt() returns (r: Result<int32>)
      modifies this
      ensures r == IntAt(data, old(pos)) && pos == old(pos) + if r.Ok? then 4 else 0
    {
      if pos + 4 > |data| {
        return Err(UnexpectedEnd);
      }
      r := Ok(ToInt32(U4At(data, pos)));
      pos := pos + 4;
    }

    method ReadLong() returns (r: Result<int64>)
      modifies this
      ensures r == LongAt(data, old(pos)) && pos == old(pos) + if r.Ok? then 8 else 0
    {
      if pos + 8 > |data| {
        return Err(UnexpectedEnd);
      }
      r := Ok(ToInt64(U8At(data, pos)));
      pos := pos + 8;
    }

    method ReadID(size: int) returns (r: Result<int64>)
      modifies this
      ensures r == IdAt(data, old(pos), size) && pos == old(pos) + if r.Ok? then size else 0
    {
      match size {
        case 4 =>
          var v := ReadInt();
          r := match v case Ok(i) => Ok(i) case Err(e) => Err(e);
        case 8 =>
          r := ReadLong();
        case _ =>
          r := Err(InvalidIdSize);
      }
    }

    function Remaining(): (n: nat)
      reads this
      ensures pos <= |data| ==> pos + n == |data|
    {
      if pos >= |data| then 0 else |data| - pos
    }

    /** On any failure after the length was read the cursor stays behind the length. */
    method ReadString() returns (r: Result<seq<byte>>)
      requires pos <= |data|
      modifies this
      ensures r == StringAt(data, old(pos)) && pos <= |data|
      ensures pos == old(pos) + (if r.Ok? then 4 + |r.value| else if r.error == UnexpectedEnd then 0 else 4)
    {
      var length := ReadInt();
      if length.Err? {
        return Err(length.error);
      }
      if length.value < 0 {
        return Err(NegativeLength);
      }
      if length.value > Remaining() {
        return Err(LengthExceedsRemaining);
      }
      r := Ok(data[pos..pos + length.value]);
      pos := pos + length.value;
    }

    method ReadUntaggedValue(tag: byte) returns (r: Result<GoValue>)
      modifies this
      ensures r == ValueAt(data, old(pos), KindOf(tag))
      ensures pos == old(pos) + if r.Ok? then ValueSize(KindOf(tag)) else 0
    {
      var kind := KindOf(tag);
      hide KindOf;
      if kind == KUnknown {
        return Err(UnknownTag);
      }
      if pos + ValueSize(kind) > |data| {
        return Err(UnexpectedEnd);
      }
      match kind {
        case KByte => r := Ok(Int8(ToInt8(data[pos])));
        case KChar => r := Ok(UInt16(U2At(data, pos)));
        case KDouble => r := Ok(Float64(U8At(data, pos)));
        case KFloat => r := Ok(Float32(U4At(data, pos)));
        case KInt => r := Ok(Int32(ToInt32(U4At(data, pos))));
        case KLong => r := Ok(Int64(ToInt64(U8At(data, pos))));
        case KShort => r := Ok(Int16(ToInt16(U2At(data, pos))));
        case KBoolean => r := Ok(Bool(data[pos] != 0));
        case KId => r := Ok(Int64(ToInt64(U8At(data, pos))));
      }
      pos := pos + ValueSize(kind);
    }

    /** A tag whose value cannot be read is consumed all the same. */
    method ReadTaggedValue() returns (r: Result<Tagged>)
      modifies this
      ensures r == TaggedAt(data, old(pos))
      ensures r.Err? ==> pos == old(pos) + if old(pos) < |data| then 1 else 0
      ensures r.Ok? ==> pos == old(pos) + 1 + ValueSize(KindOf(r.value.tag))
    {
      hide KindOf, ValueAt;
      var tag := ReadByte();
      if tag.Err? {
        return Err(tag.error);
      }
      var v := ReadUntaggedValue(tag.value);
      if v.Err? {
        return Err(v.error);
      }
      return Ok(Tagged(tag.value, v.value));
    }
  }

  class JDWPDataWriter {
    var data: seq<byte>

    constructor ()
      ensures data == []
    {
      data := [];
    }

    method WriteByte(b: byte)
      modifies this
      ensures data == old(data) + [b]
    {
      data := data + [b];
    }

    method WriteInt(v: int32)
      modifies this
      ensures data == old(data) + PutInt(v)
    {
      data := data + PutU4(LowU4(v));
    }

    method WriteLong(v: int64)
      modifies this
      ensures data == old(data) + PutLong(v)
    {
      data := data + PutU8(LowU8(v));
    }

    method WriteChar(v: uint16)
      modifies this
      ensures data == old(data) + PutU2(v)
    {
      data := data + PutU2(v);
    }

    method WriteShort(v: int16)
      modifies this
      ensures data == old(data) + PutShort(v)
    {
      data := data + PutU2(LowU2(v));
    }

    method WriteFloat(bits: uint32)
      modifies this
      ensures data == old(data) + PutU4(bits)
    {
      data := data + PutU4(bits);
    }

    method WriteDouble(bits: uint64)
      modifies this
      ensures data == old(data) + PutU8(bits)
    {
      data := data + PutU8(bits);
    }

    method WriteID(id: int64, size: int)
      modifies this
      ensures data == old(data) + PutId(id, size)
    {
      if size == 4 {
        WriteInt(ToInt32(LowU4(id)));
      } else {
        WriteLong(id);
      }
    }

    method WriteString(s: seq<byte>)
      modifies this
      ensures data == old(data) + (PutInt(ToInt32(LowU4(|s|))) + s)
    {
      WriteInt(ToInt32(LowU4(|s|)));
      data := data + s;
    }

    method WriteTaggedValue(tag: byte, value: GoValue)
      modifies this
      ensures data == old(data) + PutTagged(Tagged(tag, value))
    {
      hide KindOf, PutValue, Converted;
      var kind := KindOf(tag);
      WriteByte(tag);
      if value == Nil {
        WriteZero(kind);
        return;
      }
      match kind {
        case KByte => WriteByteValue(value);
        case KChar => WriteCharValue(value);
        case KDouble => WriteFloatValue(kind, value);
        case KFloat => WriteFloatValue(kind, value);
        case KInt => WriteIntValue(value);
        case KLong => WriteLongValue(kind, value);
        case KShort => WriteShortValue(value);
        case KBoolean => WriteBooleanValue(value);
        case KId => WriteLongValue(kind, value);
        case KUnknown =>
      }
    }

    method WriteByteValue(value: GoValue)
      modifies this
      ensures data == old(data) + PutValue(KByte, Converted(KByte, value))
    {
      match value {
        case Int8(b) => WriteByte(LowByte(b));
        case UInt8(b) => WriteByte(b);
        case Int(b) => WriteByte(LowByte(b));
        case _ => WriteByte(0);
      }
    }

    method WriteCharValue(value: GoValue)
      modifies this
      ensures data == old(data) + PutValue(KChar, Converted(KChar, value))
    {
      match value {
        case UInt16(c) => WriteChar(c);
        case Int32(c) => WriteChar(LowU2(c));
        case Int(c) => WriteChar(LowU2(c));
        case _ => WriteChar(0);
      }
    }

    method WriteFloatValue(kind: Kind, value: GoValue)
      requires kind == KDouble || kind == KFloat
      modifies this
      ensures data == old(data) + PutValue(kind, Converted(kind, value))
    {
      if kind == KDouble {
        WriteDouble(if value.Float64? then value.bits64 else 0);
      } else {
        WriteFloat(if value.Float32? then value.bits32 else 0);
      }
    }

    method WriteIntValue(value: GoValue)
      modifies this
      ensures data == old(data) + PutValue(KInt, Converted(KInt, value))
    {
      match value {
        case Int32(i) => WriteInt(i);
        case Int(i) => WriteInt(ToInt32(LowU4(i)));
        case _ => WriteInt(0);
      }
    }

    method WriteLongValue(kind: Kind, value: GoValue)
      requires kind == KLong || kind == KId
      modifies this
      ensures data == old(data) + PutValue(kind, Converted(kind, value))
    {
      match value {
        case Int64(l) => WriteLong(l);
        case Int(l) => WriteLong(l);
        case _ => WriteLong(0);
      }
    }

    method WriteShortValue(value: GoValue)
      modifies this
      ensures data == old(data) + PutValue(KShort, Converted(KShort, value))
    {
      match value {
        case Int16(s) => WriteShort(s);
        case Int(s) => WriteShort(ToInt16(LowU2(s)));
        case Int32(s) => WriteShort(ToInt16(LowU2(s)));
        case _ => WriteShort(0);
      }
    }

    method WriteBooleanValue(value: GoValue)
      modifies this
      ensures data == old(data) + PutValue(KBoolean, Converted(KBoolean, value))
    {
      if value.Bool? && value.b {
        WriteByte(1);
      } else {
        WriteByte(0);
      }
    }

    /** The value part written for nil. */
    method WriteZero(kind: Kind)
      modifies this
      ensures data == old(data) + PutAny(kind, Nil)
    {
      ZeroBytes();
      hide PutU2, PutU4, PutU8, PutInt, PutLong, PutShort;
      match kind {
        case KByte => WriteByte(0);
        case KBoolean => WriteByte(0);
        case KChar => WriteShort(0);
        case KShort => WriteShort(0);
        case KFloat => WriteFloat(0);
        case KDouble => WriteDouble(0);
        case KInt => WriteInt(0);
        case KLong => WriteLong(0);
        case KId => WriteLong(0);
        case KUnknown => WriteInt(0);
      }
    }

    /** One entry of the command: the class, the length of its bytes, and the bytes. */
    method WriteRedefinition(c: ClassRedefinition, size: int)
      modifies this
      ensures data == old(data) + PutRedefinition(c, size)
    {
      hide PutInt, PutId;
      WriteID(c.refTypeId, size);
      WriteInt(ToInt32(LowU4(|c.classBytes|)));
      data := data + c.classBytes;
    }

    /** VirtualMachine.RedefineClasses command data. */
    static method BuildRedefineClassesCommandWithSizes(classes: seq<ClassRedefinition>, refTypeIDSize: int)
      returns (data: seq<byte>)
      ensures data == RedefineCommand(classes, refTypeIDSize)
    {
      hide PutInt, PutId, PutRedefinition;
      var size := EffectiveIdSize(refTypeIDSize);
      var w := new JDWPDataWriter();
      w.WriteInt(ToInt32(LowU4(|classes|)));
      ghost var head := w.data;
      for i := 0 to |classes|
        invariant w.data + PutRedefinitions(classes[i..], size) == head + PutRedefinitions(classes, size)
      {
        var c := classes[i];
        assert classes[i..][0] == c && classes[i..][1..] == classes[i + 1..];
        w.WriteRedefinition(c, size);
      }
      assert w.data + PutRedefinitions(classes[|classes|..], size) == w.data;
      return w.data;
    }
  }

  lemma ZeroBytes()
    ensures PutInt(0) == PutU4(0) == [0, 0, 0, 0] && PutShort(0) == PutU2(0) && PutLong(0) == PutU8(0)
  {
  }

  /** The decoding part of ClassesBySignature, for a negotiated reference type ID size. */
  method ClassesFromReply(data: seq<byte>, referenceTypeIDSize: int) returns (out: ClassRefs)
    ensures out == DecodeClassRefs(data, referenceTypeIDSize)
  {
    hide IdAt, IntAt, ByteAt;
    var size := EffectiveIdSize(referenceTypeIDSize);
    var r := new JDWPDataReader(data);
    var count := r.ReadInt();
    if count.Err? {
      return Failed(count.error);
    }
    if count.value < 0 {
      return Panicked;
    }
    var refs: seq<ClassRef> := [];
    var n: nat := count.value;
    ResumesFromStart(ReadClassRefs(data, 4, n, size));
    for i := 0 to n
      invariant r.data == data
          && Resumes(refs, ReadClassRefs(data, r.pos, n - i, size)) == ReadClassRefs(data, 4, n, size)
    {
      var tag := r.ReadByte();
      if tag.Err? {
        return Failed(tag.error);
      }
      var typeID := r.ReadID(size);
      if typeID.Err? {
        return Failed(typeID.error);
      }
      var status := r.ReadInt();
      if status.Err? {
        return Failed(status.error);
      }
      var ref := ClassRef(tag.value, typeID.value, status.value);
      ResumesStep(refs, ref, ReadClassRefs(data, r.pos, n - i - 1, size));
      refs := refs + [ref];
    }
    return Decoded(refs);
  }

  lemma ResumesFromStart(rest: Result<(seq<ClassRef>, nat)>)
    ensures Resumes([], rest) == rest
  {
    if rest.Ok? {
      assert [] + rest.value.0 == rest.value.0;
    }
  }

  lemma ResumesStep(refs: seq<ClassRef>, ref: ClassRef, rest: Result<(seq<ClassRef>, nat)>)
    ensures Resumes(refs + [ref], rest) ==
            match rest case Err(e) => Err(e) case Ok((more, end)) => Resumes(refs, Ok(([ref] + more, end)))
  {
    if rest.Ok? {
      assert refs + ([ref] + rest.value.0) == (refs + [ref]) + rest.value.0;
    }
  }

  /** The final result, given what was read so far and the result of the remaining reads. */
  ghost function Resumes(refs: seq<ClassRef>, rest: Result<(seq<ClassRef>, nat)>): Result<(seq<ClassRef>, nat)> {
    match rest
    case Err(e) => Err(e)
    case Ok((more, end)) => Ok((refs + more, end))
  }
}
