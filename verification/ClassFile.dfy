/** The hot-swap manager's hand-written walk over a Java class file (sections 4.1 and
    4.4 to 4.7 of the Java Virtual Machine Specification) and the schema check built on it. */
module ClassFile {
  import opened Bytes

  // -------------------------------------------------------- class files as values

  /** A constant-pool entry, one constructor for each kind of section 4.4; numbers are their bits. */
  datatype CpEntry =
    | Utf8(text: seq<byte>)
    | Integer(bits32: uint32) | Float(bits32: uint32)
    | Long(bits64: uint64) | Double(bits64: uint64)
    | Class(nameIndex: uint16) | String(stringIndex: uint16)
    | Fieldref(classIndex: uint16, nameAndTypeIndex: uint16)
    | Methodref(classIndex: uint16, nameAndTypeIndex: uint16)
    | InterfaceMethodref(classIndex: uint16, nameAndTypeIndex: uint16)
    | NameAndType(nameIndex: uint16, descriptorIndex: uint16)
    | MethodHandle(referenceKind: byte, referenceIndex: uint16)
    | MethodType(descriptorIndex: uint16)
    | Dynamic(bootstrapIndex: uint16, nameAndTypeIndex: uint16)
    | InvokeDynamic(bootstrapIndex: uint16, nameAndTypeIndex: uint16)
    | Module(nameIndex: uint16) | Package(nameIndex: uint16)

  datatype Attribute = Attribute(nameIndex: uint16, info: seq<byte>)

  /** A field or a method. */
  datatype Member = Member(accessFlags: uint16, nameIndex: uint16, descriptorIndex: uint16, attributes: seq<Attribute>)

  datatype ClassFile = ClassFile(
    head: seq<byte>,  // magic, minor_version, major_version
    constantPool: seq<CpEntry>,
    accessFlags: uint16, thisClass: uint16, superClass: uint16,
    interfaces: seq<uint16>,
    fields: seq<Member>,
    methods: seq<Member>,
    attributes: seq<Attribute>)

  predicate ValidEntry(e: CpEntry) {
    e.Utf8? ==> |e.text| < 0x1_0000
  }

  predicate ValidPool(cp: seq<CpEntry>) {
    forall i :: 0 <= i < |cp| ==> ValidEntry(cp[i])
  }

  /** Long and Double take two constant-pool indices (section 4.4.5). */
  function EntrySlots(e: CpEntry): nat {
    if e.Long? || e.Double? then 2 else 1
  }

  function Slots(cp: seq<CpEntry>): nat {
    if cp == [] then 0 else EntrySlots(cp[0]) + Slots(cp[1..])
  }

  predicate ValidAttribute(a: Attribute) {
    |a.info| < 0x1_0000_0000
  }

  predicate ValidAttributes(attrs: seq<Attribute>) {
    forall i :: 0 <= i < |attrs| ==> ValidAttribute(attrs[i])
  }

  predicate ValidMember(m: Member) {
    |m.attributes| < 0x1_0000 && ValidAttributes(m.attributes)
  }

  predicate ValidMembers(ms: seq<Member>) {
    forall i :: 0 <= i < |ms| ==> ValidMember(ms[i])
  }

  predicate WellFormed(c: ClassFile) {
    && |c.head| == 8
    && ValidPool(c.constantPool) && Slots(c.constantPool) < 0xFFFF
    && |c.interfaces| < 0x1_0000
    && |c.fields| < 0x1_0000 && ValidMembers(c.fields)
    && |c.methods| < 0x1_0000 && ValidMembers(c.methods)
    && |c.attributes| < 0x1_0000 && ValidAttributes(c.attributes)
  }

  // -------------------------------------------------------------- serialisation

  function EncodeEntry(e: CpEntry): seq<byte>
    requires ValidEntry(e)
  {
    match e
    case Utf8(text) => [1] + PutU2(|text|) + text
    case Integer(bits) => [3] + PutU4(bits)
    case Float(bits) => [4] + PutU4(bits)
    case Long(bits) => [5] + PutU8(bits)
    case Double(bits) => [6] + PutU8(bits)
    case Class(name) => [7] + PutU2(name)
    case String(text) => [8] + PutU2(text)
    case Fieldref(owner, member) => [9] + PutU2(owner) + PutU2(member)
    case Methodref(owner, member) => [10] + PutU2(owner) + PutU2(member)
    case InterfaceMethodref(owner, member) => [11] + PutU2(owner) + PutU2(member)
    case NameAndType(name, descriptor) => [12] + PutU2(name) + PutU2(descriptor)
    case MethodHandle(kind, index) => [15, kind] + PutU2(index)
    case MethodType(descriptor) => [16] + PutU2(descriptor)
    case Dynamic(bootstrap, member) => [17] + PutU2(bootstrap) + PutU2(member)
    case InvokeDynamic(bootstrap, member) => [18] + PutU2(bootstrap) + PutU2(member)
    case Module(name) => [19] + PutU2(name)
    case Package(name) => [20] + PutU2(name)
  }

  function EncodePool(cp: seq<CpEntry>): seq<byte>
    requires ValidPool(cp)
  {
    if cp == [] then [] else EncodeEntry(cp[0]) + EncodePool(cp[1..])
  }

  function EncodeU2s(vs: seq<uint16>): (s: seq<byte>)
    ensures |s| == 2 * |vs|
  {
    if vs == [] then [] else PutU2(vs[0]) + EncodeU2s(vs[1..])
  }

  function EncodeAttribute(a: Attribute): seq<byte>
    requires ValidAttribute(a)
  {
    PutU2(a.nameIndex) + PutU4(|a.info|) + a.info
  }

  function EncodeAttributes(attrs: seq<Attribute>): seq<byte>
    requires ValidAttributes(attrs)
  {
    if attrs == [] then [] else EncodeAttribute(attrs[0]) + EncodeAttributes(attrs[1..])
  }

  /** The fixed part of a field or method. */
  function MemberHead(m: Member): seq<byte>
    requires ValidMember(m)
  {
    PutU2(m.accessFlags) + PutU2(m.nameIndex) + PutU2(m.descriptorIndex)
  }

  function EncodeMember(m: Member): seq<byte>
    requires ValidMember(m)
  {
    MemberHead(m) + PutU2(|m.attributes|) + EncodeAttributes(m.attributes)
  }

  function EncodeMembers(ms: seq<Member>): seq<byte>
    requires ValidMembers(ms)
  {
    if ms == [] then [] else EncodeMember(ms[0]) + EncodeMembers(ms[1..])
  }

  /** The ClassFile structure of section 4.1. */
  function Serialize(c: ClassFile): seq<byte>
    requires WellFormed(c)
  {
    c.head + PutU2(1 + Slots(c.constantPool)) + EncodePool(c.constantPool)
    + (PutU2(c.accessFlags) + PutU2(c.thisClass) + PutU2(c.superClass))
    + PutU2(|c.interfaces|) + EncodeU2s(c.interfaces)
    + PutU2(|c.fields|) + EncodeMembers(c.fields)
    + PutU2(|c.methods|) + EncodeMembers(c.methods)
    + PutU2(|c.attributes|) + EncodeAttributes(c.attributes)
  }

  // ------------------------------------------------- where the walk arrives

  datatype Skip = Lost | At(offset: nat)

  /** How far the walk goes on behind a tag other than Utf8; -1 for an unknown tag. */
  function PayloadSize(tag: byte): int {
    match tag
    case 3 => 4
    case 4 => 4
    case 5 => 8
    case 6 => 8
    case 7 => 2
    case 8 => 2
    case 9 => 4
    case 10 => 4
    case 11 => 4
    case 12 => 4
    case 15 => 3
    case 16 => 2
    case 17 => 4
    case 18 => 4
    case 19 => 2
    case 20 => 2
    case _ => -1
  }

  /** How many indices the walk counts for a tag. */
  function SlotsOfTag(tag: byte): nat {
    if tag == 5 || tag == 6 then 2 else 1
  }

  /** Skips constant-pool entries from index i until the declared count n is reached. */
  function SkipPool(b: seq<byte>, i: nat, n: nat, offset: nat): (r: Skip)
    ensures r.At? ==> offset <= r.offset
    decreases n - i
  {
    if i >= n then At(offset)
    else if offset >= |b| then Lost
    else
      var tag := b[offset];
      if tag == 1 then
        if offset + 3 > |b| then Lost else SkipPool(b, i + 1, n, offset + 3 + U2At(b, offset + 1))
      else if PayloadSize(tag) < 0 then Lost
      else SkipPool(b, i + SlotsOfTag(tag), n, offset + 1 + PayloadSize(tag))
  }

  function SkipAttributes(b: seq<byte>, count: nat, offset: nat): (r: Skip)
    ensures r.At? ==> offset <= r.offset
  {
    if count == 0 then At(offset)
    else if offset + 6 > |b| then Lost
    else SkipAttributes(b, count - 1, offset + 6 + U4At(b, offset + 2))
  }

  function SkipFields(b: seq<byte>, count: nat, offset: nat): (r: Skip)
    ensures r.At? ==> offset <= r.offset
  {
    if count == 0 then At(offset)
    else if offset + 8 > |b| then Lost
    else
      match SkipAttributes(b, U2At(b, offset + 6), offset + 8)
      case Lost => Lost
      case At(next) => SkipFields(b, count - 1, next)
  }

  /** The offset of methods_count, if the bytes reach that far. */
  function FindMethodsCount(b: seq<byte>): (r: Skip)
    ensures r.At? ==> r.offset + 2 <= |b|
  {
    if |b| < 10 then Lost else
    match SkipPool(b, 1, U2At(b, 8), 10)
    case Lost => Lost
    case At(o1) =>
      if o1 + 8 > |b| then Lost else
      var o2 := o1 + 8 + 2 * U2At(b, o1 + 6);
      if o2 + 2 > |b| then Lost else
      match SkipFields(b, U2At(b, o2), o2 + 2)
      case Lost => Lost
      case At(o3) => if o3 + 2 > |b| then Lost else At(o3)
  }

  function MethodsCount(b: seq<byte>): uint16 {
    match FindMethodsCount(b)
    case Lost => 0
    case At(o) => U2At(b, o)
  }

  // ------------------------------------------------- what stands in front of it

  /** The part of a class file up to and including methods_count. The declared pool size is
      kept apart from the entries because the walk does not insist that they agree. */
  datatype Front = Front(head: seq<byte>, declared: uint16, pool: seq<CpEntry>, flags: seq<byte>,
                         interfaces: seq<uint16>, fields: seq<Member>, methodsCount: uint16)

  /** Entries that start at pool index i and just reach index n. */
  predicate Fills(cp: seq<CpEntry>, i: nat, n: nat) {
    if cp == [] then i >= n else i < n && Fills(cp[1..], i + EntrySlots(cp[0]), n)
  }

  predicate ValidFront(f: Front) {
    && |f.head| == 8 && |f.flags| == 6
    && ValidPool(f.pool) && Fills(f.pool, 1, f.declared)
    && |f.interfaces| < 0x1_0000
    && |f.fields| < 0x1_0000 && ValidMembers(f.fields)
  }

  function EncodeFront(f: Front): seq<byte>
    requires ValidFront(f)
  {
    f.head + PutU2(f.declared) + EncodePool(f.pool) + f.flags
    + PutU2(|f.interfaces|) + EncodeU2s(f.interfaces)
    + PutU2(|f.fields|) + EncodeMembers(f.fields)
    + PutU2(f.methodsCount)
  }

  ghost predicate StartsWith(b: seq<byte>, f: Front) {
    ValidFront(f) && Has(b, 0, EncodeFront(f))
  }

  // --------------------------------------------- encoded parts are skipped whole

  /** The walk's table of tags agrees with the encodings of all kinds but Utf8. */
  lemma TagTable(e: CpEntry)
    requires !e.Utf8?
    ensures ValidEntry(e) && |EncodeEntry(e)| == 1 + PayloadSize(EncodeEntry(e)[0])
    ensures EncodeEntry(e)[0] != 1 && SlotsOfTag(EncodeEntry(e)[0]) == EntrySlots(e)
  {
    hide PutU2, PutU4, PutU8;
  }

  lemma EncodedUtf8At(b: seq<byte>, o: nat, e: CpEntry)
    requires e.Utf8? && ValidEntry(e) && Has(b, o, EncodeEntry(e))
    ensures o + 3 <= |b| && b[o] == 1 && U2At(b, o + 1) == |e.text| && |EncodeEntry(e)| == 3 + |e.text|
    ensures EntrySlots(e) == 1
  {
    assert EncodeEntry(e) == [1] + PutU2(|e.text|) + e.text;
    assert b[o..o + |EncodeEntry(e)|][0] == b[o];
    hide Has, EncodeEntry;
    HasSplit(b, o, [1] + PutU2(|e.text|), e.text);
    HasSplit(b, o, [1], PutU2(|e.text|));
    U2RoundTrip(b, o + 1, |e.text|);
  }

  lemma SkipUtf8(b: seq<byte>, o: nat, i: nat, n: nat)
    requires o + 3 <= |b| && b[o] == 1 && i < n
    ensures SkipPool(b, i, n, o) == SkipPool(b, i + 1, n, o + 3 + U2At(b, o + 1))
  {
    hide U2At;
  }

  lemma SkipFixed(b: seq<byte>, o: nat, i: nat, n: nat)
    requires o < |b| && b[o] != 1 && PayloadSize(b[o]) >= 0 && i < n
    ensures SkipPool(b, i, n, o) == SkipPool(b, i + SlotsOfTag(b[o]), n, o + 1 + PayloadSize(b[o]))
  {
    hide U2At, PayloadSize, SlotsOfTag;
  }

  lemma SkipEncodedEntry(b: seq<byte>, o: nat, e: CpEntry, i: nat, n: nat)
    requires ValidEntry(e) && Has(b, o, EncodeEntry(e)) && i < n
    ensures SkipPool(b, i, n, o) == SkipPool(b, i + EntrySlots(e), n, o + |EncodeEntry(e)|)
  {
    hide *;
    if e.Utf8? {
      EncodedUtf8At(b, o, e);
      SkipUtf8(b, o, i, n);
    } else {
      EncodedFixedAt(b, o, e);
      SkipFixed(b, o, i, n);
    }
  }

  lemma EncodedFixedAt(b: seq<byte>, o: nat, e: CpEntry)
    requires !e.Utf8? && ValidEntry(e) && Has(b, o, EncodeEntry(e))
    ensures o < |b| && b[o] != 1 && PayloadSize(b[o]) >= 0
    ensures |EncodeEntry(e)| == 1 + PayloadSize(b[o]) && SlotsOfTag(b[o]) == EntrySlots(e)
  {
    TagTable(e);
    hide EncodeEntry, PayloadSize, SlotsOfTag, EntrySlots;
    assert b[o..o + |EncodeEntry(e)|][0] == b[o];
  }

  /** The empty lists, and where the walk is before a list's first element. */
  lemma NothingEncoded(b: seq<byte>, i: nat, n: nat, o: nat)
    ensures EncodePool([]) == [] && ValidPool([]) && (Fills([], i, n) <==> i >= n)
    ensures i >= n ==> SkipPool(b, i, n, o) == At(o)
    ensures EncodeAttributes([]) == [] && ValidAttributes([]) && SkipAttributes(b, 0, o) == At(o)
    ensures EncodeMembers([]) == [] && ValidMembers([]) && SkipFields(b, 0, o) == At(o)
  {
  }

  lemma NothingThere(b: seq<byte>, o: nat)
    ensures o <= |b| ==> Has(b, o, [])
  {
  }

  lemma PoolStep(e: CpEntry, tail: seq<CpEntry>, i: nat, n: nat)
    ensures ValidPool([e] + tail) <==> ValidEntry(e) && ValidPool(tail)
    ensures ValidPool([e] + tail) ==> EncodePool([e] + tail) == EncodeEntry(e) + EncodePool(tail)
    ensures Fills([e] + tail, i, n) <==> i < n && Fills(tail, i + EntrySlots(e), n)
  {
    var cp := [e] + tail;
    assert cp[0] == e && cp[1..] == tail;
    hide ValidEntry, EncodeEntry, EntrySlots;
    assert forall k :: 0 <= k < |tail| ==> tail[k] == cp[k + 1];
  }

  lemma {:induction false} SkipEncodedPool(b: seq<byte>, o: nat, cp: seq<CpEntry>, i: nat, n: nat)
    requires ValidPool(cp) && Fills(cp, i, n) && Has(b, o, EncodePool(cp))
    ensures SkipPool(b, i, n, o) == At(o + |EncodePool(cp)|)
    decreases |cp|
  {
    hide *;
    if cp == [] {
      NothingEncoded(b, i, n, o);
    } else {
      var e, tail := cp[0], cp[1..];
      assert cp == [e] + tail;
      PoolStep(e, tail, i, n);
      HasSplit(b, o, EncodeEntry(e), EncodePool(tail));
      SkipEncodedEntry(b, o, e, i, n);
      SkipEncodedPool(b, o + |EncodeEntry(e)|, tail, i + EntrySlots(e), n);
    }
  }

  lemma AttributesStep(a: Attribute, tail: seq<Attribute>)
    ensures ValidAttributes([a] + tail) <==> ValidAttribute(a) && ValidAttributes(tail)
    ensures ValidAttributes([a] + tail) ==> EncodeAttributes([a] + tail) == EncodeAttribute(a) + EncodeAttributes(tail)
  {
    var attrs := [a] + tail;
    assert attrs[0] == a && attrs[1..] == tail;
    hide ValidAttribute, EncodeAttribute;
    assert forall k :: 0 <= k < |tail| ==> tail[k] == attrs[k + 1];
  }

  lemma SkipEncodedAttribute(b: seq<byte>, o: nat, a: Attribute, count: nat)
    requires ValidAttribute(a) && Has(b, o, EncodeAttribute(a)) && count > 0
    ensures SkipAttributes(b, count, o) == SkipAttributes(b, count - 1, o + |EncodeAttribute(a)|)
  {
    hide Has, PutU4, U4At, PutU2;
    HasSplit(b, o, PutU2(a.nameIndex) + PutU4(|a.info|), a.info);
    HasSplit(b, o, PutU2(a.nameIndex), PutU4(|a.info|));
    U4RoundTrip(b, o + 2, |a.info|);
  }

  lemma {:induction false} SkipEncodedAttributes(b: seq<byte>, o: nat, attrs: seq<Attribute>)
    requires ValidAttributes(attrs) && Has(b, o, EncodeAttributes(attrs))
    ensures SkipAttributes(b, |attrs|, o) == At(o + |EncodeAttributes(attrs)|)
    decreases |attrs|
  {
    hide *;
    if attrs == [] {
      NothingEncoded(b, 0, 0, o);
    } else {
      var a, tail := attrs[0], attrs[1..];
      assert attrs == [a] + tail;
      AttributesStep(a, tail);
      HasSplit(b, o, EncodeAttribute(a), EncodeAttributes(tail));
      SkipEncodedAttribute(b, o, a, |attrs|);
      SkipEncodedAttributes(b, o + |EncodeAttribute(a)|, tail);
    }
  }

  lemma EncodedMemberAt(b: seq<byte>, o: nat, m: Member)
    requires ValidMember(m) && Has(b, o, EncodeMember(m))
    ensures o + 8 <= |b| && U2At(b, o + 6) == |m.attributes|
    ensures SkipAttributes(b, |m.attributes|, o + 8) == At(o + |EncodeMember(m)|)
  {
    hide Has, PutU2, U2At;
    HasSplit(b, o, MemberHead(m) + PutU2(|m.attributes|), EncodeAttributes(m.attributes));
    HasSplit(b, o, MemberHead(m), PutU2(|m.attributes|));
    U2RoundTrip(b, o + 6, |m.attributes|);
    SkipEncodedAttributes(b, o + 8, m.attributes);
  }

  lemma MembersStep(m: Member, tail: seq<Member>)
    ensures ValidMembers([m] + tail) <==> ValidMember(m) && ValidMembers(tail)
    ensures ValidMembers([m] + tail) ==> EncodeMembers([m] + tail) == EncodeMember(m) + EncodeMembers(tail)
  {
    var ms := [m] + tail;
    assert ms[0] == m && ms[1..] == tail;
    hide ValidMember, EncodeMember;
    assert forall k :: 0 <= k < |tail| ==> tail[k] == ms[k + 1];
  }

  lemma SkipFieldsStep(b: seq<byte>, count: nat, o: nat, n: nat, next: nat)
    requires count > 0 && o + 8 <= |b| && U2At(b, o + 6) == n && SkipAttributes(b, n, o + 8) == At(next)
    ensures SkipFields(b, count, o) == SkipFields(b, count - 1, next)
  {
    hide U2At, SkipAttributes;
  }

  lemma {:induction false} SkipEncodedFields(b: seq<byte>, o: nat, ms: seq<Member>)
    requires ValidMembers(ms) && Has(b, o, EncodeMembers(ms))
    ensures SkipFields(b, |ms|, o) == At(o + |EncodeMembers(ms)|)
    decreases |ms|
  {
    hide *;
    if ms == [] {
      NothingEncoded(b, 0, 0, o);
    } else {
      var m, tail := ms[0], ms[1..];
      assert ms == [m] + tail;
      MembersStep(m, tail);
      HasSplit(b, o, EncodeMember(m), EncodeMembers(tail));
      EncodedMemberAt(b, o, m);
      SkipFieldsStep(b, |ms|, o, |m.attributes|, o + |EncodeMember(m)|);
      SkipEncodedFields(b, o + |EncodeMember(m)|, tail);
    }
  }

  /** The parts of a front, each at its offset. */
  ghost predicate PartsAt(b: seq<byte>, f: Front, o1: nat, o2: nat, o3: nat)
    requires ValidFront(f)
  {
    && Has(b, 0, f.head) && Has(b, 8, PutU2(f.declared)) && Has(b, 10, EncodePool(f.pool))
    && o1 == 10 + |EncodePool(f.pool)| && Has(b, o1, f.flags)
    && Has(b, o1 + 6, PutU2(|f.interfaces|)) && Has(b, o1 + 8, EncodeU2s(f.interfaces))
    && o2 == o1 + 8 + 2 * |f.interfaces| && Has(b, o2, PutU2(|f.fields|))
    && Has(b, o2 + 2, EncodeMembers(f.fields)) && o3 == o2 + 2 + |EncodeMembers(f.fields)|
    && Has(b, o3, PutU2(f.methodsCount))
  }

  lemma FrontInParts(b: seq<byte>, f: Front, o1: nat, o2: nat, o3: nat)
    requires ValidFront(f) && o1 == 10 + |EncodePool(f.pool)|
    requires o2 == o1 + 8 + 2 * |f.interfaces| && o3 == o2 + 2 + |EncodeMembers(f.fields)|
    ensures StartsWith(b, f) <==> PartsAt(b, f, o1, o2, o3)
  {
    hide Has, EncodePool, EncodeMembers, PutU2, EncodeU2s;
    var e1 := f.head + PutU2(f.declared);
    var e2 := e1 + EncodePool(f.pool);
    var e3 := e2 + f.flags;
    var e4 := e3 + PutU2(|f.interfaces|);
    var e5 := e4 + EncodeU2s(f.interfaces);
    var e6 := e5 + PutU2(|f.fields|);
    var e7 := e6 + EncodeMembers(f.fields);
    HasSplit(b, 0, f.head, PutU2(f.declared));
    HasSplit(b, 0, e1, EncodePool(f.pool));
    HasSplit(b, 0, e2, f.flags);
    HasSplit(b, 0, e3, PutU2(|f.interfaces|));
    HasSplit(b, 0, e4, EncodeU2s(f.interfaces));
    HasSplit(b, 0, e5, PutU2(|f.fields|));
    HasSplit(b, 0, e6, EncodeMembers(f.fields));
    HasSplit(b, 0, e7, PutU2(f.methodsCount));
    assert EncodeFront(f) == e7 + PutU2(f.methodsCount);
  }

  lemma WalkThrough(b: seq<byte>, declared: uint16, o1: nat, nI: uint16, o2: nat, nF: uint16, o3: nat)
    requires 10 <= o1 && o1 + 8 <= o2 && o2 + 2 <= o3 && o3 + 2 <= |b|
    requires declared == U2At(b, 8) && SkipPool(b, 1, declared, 10) == At(o1)
    requires nI == U2At(b, o1 + 6) && o2 == o1 + 8 + 2 * (nI as nat)
    requires nF == U2At(b, o2) && SkipFields(b, nF, o2 + 2) == At(o3)
    ensures FindMethodsCount(b) == At(o3)
  {
    hide SkipPool, SkipFields, U2At;
  }

  lemma PartsAreFound(b: seq<byte>, f: Front, o1: nat, o2: nat, o3: nat)
    requires ValidFront(f) && PartsAt(b, f, o1, o2, o3)
    ensures FindMethodsCount(b) == At(o3) && U2At(b, o3) == f.methodsCount
  {
    hide Has, EncodePool, EncodeMembers, PutU2, U2At, SkipPool, SkipFields, EncodeU2s, Fills, FindMethodsCount,
      ValidPool, ValidMembers;
    U2RoundTrip(b, 8, f.declared);
    SkipEncodedPool(b, 10, f.pool, 1, f.declared);
    U2RoundTrip(b, o1 + 6, |f.interfaces|);
    U2RoundTrip(b, o2, |f.fields|);
    SkipEncodedFields(b, o2 + 2, f.fields);
    U2RoundTrip(b, o3, f.methodsCount);
    WalkThrough(b, f.declared, o1, |f.interfaces|, o2, |f.fields|, o3);
  }

  /** Wherever a front stands at the start of the bytes, its methods_count is what is found. */
  lemma FrontIsFound(b: seq<byte>, f: Front)
    requires StartsWith(b, f)
    ensures FindMethodsCount(b).At? && MethodsCount(b) == f.methodsCount
  {
    var o1 := 10 + |EncodePool(f.pool)|;
    var o2 := o1 + 8 + 2 * |f.interfaces|;
    var o3 := o2 + 2 + |EncodeMembers(f.fields)|;
    hide Has, EncodePool, EncodeMembers, PartsAt, FindMethodsCount, EncodeFront;
    FrontInParts(b, f, o1, o2, o3);
    PartsAreFound(b, f, o1, o2, o3);
  }

  /** The front of a complete class file. */
  function FrontOf(c: ClassFile): Front
    requires WellFormed(c)
  {
    Front(c.head, 1 + Slots(c.constantPool), c.constantPool,
          PutU2(c.accessFlags) + PutU2(c.thisClass) + PutU2(c.superClass), c.interfaces, c.fields, |c.methods|)
  }

  lemma {:induction false} FullPoolFills(cp: seq<CpEntry>, i: nat)
    ensures Fills(cp, i, i + Slots(cp))
    decreases |cp|
  {
    if cp == [] {
    } else {
      FullPoolFills(cp[1..], i + EntrySlots(cp[0]));
    }
  }

  /** For every well-formed class file the number found is the number of its methods. */
  lemma MethodsOfClassFile(c: ClassFile)
    requires WellFormed(c)
    ensures MethodsCount(Serialize(c)) == |c.methods|
  {
    FullPoolFills(c.constantPool, 1);
    var f := FrontOf(c);
    var rest := EncodeMembers(c.methods) + PutU2(|c.attributes|) + EncodeAttributes(c.attributes);
    FrontComesFirst(c, f, rest);
    assert Has(EncodeFront(f) + rest, 0, EncodeFront(f));
    FrontIsFound(EncodeFront(f) + rest, f);
  }

  lemma FrontComesFirst(c: ClassFile, f: Front, rest: seq<byte>)
    requires WellFormed(c) && ValidFront(f) && f == FrontOf(c)
    requires rest == EncodeMembers(c.methods) + PutU2(|c.attributes|) + EncodeAttributes(c.attributes)
    ensures Serialize(c) == EncodeFront(f) + rest
  {
    hide EncodeMembers, PutU2, EncodeAttributes, EncodePool, EncodeU2s, ValidFront, ValidPool, ValidMembers, Slots;
  }

  // ------------------------------------------ and whatever is found was encoded

  lemma {:induction false} PoolIsEncoded(b: seq<byte>, i: nat, n: nat, o: nat, end: nat) returns (cp: seq<CpEntry>)
    requires SkipPool(b, i, n, o) == At(end) && end <= |b|
    ensures ValidPool(cp) && Fills(cp, i, n) && Has(b, o, EncodePool(cp)) && o + |EncodePool(cp)| == end
    decreases n - i
  {
    hide *;
    if i >= n {
      cp := [];
      NothingEncoded(b, i, n, o);
      NothingThere(b, o);
    } else {
      var e, next := EntryIsEncoded(b, o, i, n);
      var tail := PoolIsEncoded(b, i + EntrySlots(e), n, next, end);
      cp := [e] + tail;
      PoolStep(e, tail, i, n);
      HasSplit(b, o, EncodeEntry(e), EncodePool(tail));
    }
  }

  lemma EntryIsEncoded(b: seq<byte>, o: nat, i: nat, n: nat) returns (e: CpEntry, next: nat)
    requires i < n && SkipPool(b, i, n, o).At? && SkipPool(b, i, n, o).offset <= |b|
    ensures ValidEntry(e) && Has(b, o, EncodeEntry(e)) && next == o + |EncodeEntry(e)|
    ensures EntrySlots(e) > 0 && SkipPool(b, i, n, o) == SkipPool(b, i + EntrySlots(e), n, next)
  {
    hide *;
    EntryInBounds(b, o, i, n);
    if b[o] == 1 {
      SkipUtf8(b, o, i, n);
      e, next := Utf8Entry(b, o);
    } else {
      SkipFixed(b, o, i, n);
      e, next := FixedIsEncoded(b, o);
    }
  }

  lemma EntryInBounds(b: seq<byte>, o: nat, i: nat, n: nat)
    requires i < n && SkipPool(b, i, n, o).At? && SkipPool(b, i, n, o).offset <= |b|
    ensures o < |b|
    ensures b[o] == 1 ==> o + 3 <= |b| && o + 3 + U2At(b, o + 1) <= |b|
    ensures b[o] != 1 ==> PayloadSize(b[o]) >= 0 && o + 1 + PayloadSize(b[o]) <= |b|
  {
    hide U2At, PayloadSize, SlotsOfTag;
  }

  lemma FixedIsEncoded(b: seq<byte>, o: nat) returns (e: CpEntry, next: nat)
    requires o < |b| && b[o] != 1 && PayloadSize(b[o]) >= 0 && o + 1 + PayloadSize(b[o]) <= |b|
    ensures ValidEntry(e) && Has(b, o, EncodeEntry(e))
    ensures next == o + |EncodeEntry(e)| == o + 1 + PayloadSize(b[o]) && EntrySlots(e) == SlotsOfTag(b[o]) > 0
  {
    next := o + 1 + PayloadSize(b[o]);
    e := FixedEntry(b, o);
    TagTable(e);
    hide EncodeEntry, PayloadSize;
    assert b[o..next][0] == b[o];
  }

  lemma Utf8Entry(b: seq<byte>, o: nat) returns (e: CpEntry, next: nat)
    requires o + 3 <= |b| && b[o] == 1 && o + 3 + U2At(b, o + 1) <= |b|
    ensures e.Utf8? && EntrySlots(e) == 1 && ValidEntry(e) && next == o + 3 + U2At(b, o + 1)
    ensures Has(b, o, EncodeEntry(e)) && next == o + |EncodeEntry(e)|
  {
    next := o + 3 + U2At(b, o + 1);
    e := Utf8(b[o + 3..next]);
    U2Canonical(b, o + 1);
    hide PutU2, U2At;
    assert b[o..next] == [b[o]] + b[o + 1..o + 3] + b[o + 3..next];
  }

  /** Any bytes of the right number behind a known tag are an entry of that kind. */
  lemma FixedEntry(b: seq<byte>, o: nat) returns (e: CpEntry)
    requires o < |b| && b[o] != 1 && PayloadSize(b[o]) >= 0 && o + 1 + PayloadSize(b[o]) <= |b|
    ensures !e.Utf8? && EncodeEntry(e) == b[o..o + 1 + PayloadSize(b[o])]
  {
    var tag := b[o];
    if tag == 3 || tag == 4 {
      e := EntryOfU4(b, o);
    } else if tag == 5 || tag == 6 {
      e := EntryOfU8(b, o);
    } else if tag == 15 {
      e := EntryOfHandle(b, o);
    } else if tag == 9 || tag == 10 || tag == 11 || tag == 12 || tag == 17 || tag == 18 {
      e := EntryOfTwoU2s(b, o);
    } else {
      e := EntryOfU2(b, o);
    }
  }

  lemma EntryOfU4(b: seq<byte>, o: nat) returns (e: CpEntry)
    requires o + 5 <= |b| && (b[o] == 3 || b[o] == 4)
    ensures !e.Utf8? && EncodeEntry(e) == b[o..o + 5]
  {
    var v := U4At(b, o + 1);
    e := if b[o] == 3 then Integer(v) else Float(v);
    U4Canonical(b, o + 1);
    hide PutU4, U4At;
    assert b[o..o + 5] == [b[o]] + b[o + 1..o + 5];
  }

  lemma EntryOfU8(b: seq<byte>, o: nat) returns (e: CpEntry)
    requires o + 9 <= |b| && (b[o] == 5 || b[o] == 6)
    ensures !e.Utf8? && EncodeEntry(e) == b[o..o + 9]
  {
    var v := U8At(b, o + 1);
    e := if b[o] == 5 then Long(v) else Double(v);
    U8Canonical(b, o + 1);
    hide PutU8, U8At;
    assert b[o..o + 9] == [b[o]] + b[o + 1..o + 9];
  }

  lemma EntryOfHandle(b: seq<byte>, o: nat) returns (e: CpEntry)
    requires o + 4 <= |b| && b[o] == 15
    ensures !e.Utf8? && EncodeEntry(e) == b[o..o + 4]
  {
    e := MethodHandle(b[o + 1], U2At(b, o + 2));
    U2Canonical(b, o + 2);
    hide PutU2, U2At;
    assert b[o..o + 4] == [b[o], b[o + 1]] + b[o + 2..o + 4];
  }

  lemma EntryOfTwoU2s(b: seq<byte>, o: nat) returns (e: CpEntry)
    requires o + 5 <= |b|
    requires b[o] == 9 || b[o] == 10 || b[o] == 11 || b[o] == 12 || b[o] == 17 || b[o] == 18
    ensures !e.Utf8? && EncodeEntry(e) == b[o..o + 5]
  {
    var v, w := U2At(b, o + 1), U2At(b, o + 3);
    e := if b[o] == 9 then Fieldref(v, w) else if b[o] == 10 then Methodref(v, w)
         else if b[o] == 11 then InterfaceMethodref(v, w) else if b[o] == 12 then NameAndType(v, w)
         else if b[o] == 17 then Dynamic(v, w) else InvokeDynamic(v, w);
    U2Canonical(b, o + 1);
    U2Canonical(b, o + 3);
    hide PutU2, U2At;
    assert b[o..o + 5] == [b[o]] + b[o + 1..o + 3] + b[o + 3..o + 5];
  }

  lemma EntryOfU2(b: seq<byte>, o: nat) returns (e: CpEntry)
    requires o + 3 <= |b|
    requires b[o] == 7 || b[o] == 8 || b[o] == 16 || b[o] == 19 || b[o] == 20
    ensures !e.Utf8? && EncodeEntry(e) == b[o..o + 3]
  {
    var v := U2At(b, o + 1);
    e := if b[o] == 7 then Class(v) else if b[o] == 8 then String(v) else if b[o] == 16 then MethodType(v)
         else if b[o] == 19 then Module(v) else Package(v);
    U2Canonical(b, o + 1);
    hide PutU2, U2At;
    assert b[o..o + 3] == [b[o]] + b[o + 1..o + 3];
  }

  lemma {:induction false} AttributesAreEncoded(b: seq<byte>, count: nat, o: nat, end: nat)
    returns (attrs: seq<Attribute>)
    requires SkipAttributes(b, count, o) == At(end) && end <= |b|
    ensures |attrs| == count && ValidAttributes(attrs)
    ensures Has(b, o, EncodeAttributes(attrs)) && o + |EncodeAttributes(attrs)| == end
    decreases count
  {
    if count == 0 {
      hide ValidAttributes, Has, EncodeAttributes, SkipAttributes;
      attrs := [];
      NothingEncoded(b, 0, 0, o);
      NothingThere(b, o);
    } else {
      var a, next := AttributeIsEncoded(b, count, o);
      hide *;
      var tail := AttributesAreEncoded(b, count - 1, next, end);
      attrs := [a] + tail;
      AttributesStep(a, tail);
      HasSplit(b, o, EncodeAttribute(a), EncodeAttributes(tail));
    }
  }

  lemma AttributeIsEncoded(b: seq<byte>, count: nat, o: nat) returns (a: Attribute, next: nat)
    requires count > 0 && SkipAttributes(b, count, o).At? && SkipAttributes(b, count, o).offset <= |b|
    ensures ValidAttribute(a) && Has(b, o, EncodeAttribute(a)) && next == o + |EncodeAttribute(a)|
    ensures SkipAttributes(b, count, o) == SkipAttributes(b, count - 1, next)
  {
    var n := U4At(b, o + 2);
    next := o + 6 + n;
    a := Attribute(U2At(b, o), b[o + 6..next]);
    U2Canonical(b, o);
    U4Canonical(b, o + 2);
    hide PutU2, PutU4, U2At, U4At;
    assert b[o..next] == b[o..o + 2] + b[o + 2..o + 6] + b[o + 6..next];
  }

  lemma {:induction false} FieldsAreEncoded(b: seq<byte>, count: nat, o: nat, end: nat) returns (ms: seq<Member>)
    requires SkipFields(b, count, o) == At(end) && end <= |b|
    ensures |ms| == count && ValidMembers(ms)
    ensures Has(b, o, EncodeMembers(ms)) && o + |EncodeMembers(ms)| == end
    decreases count
  {
    if count == 0 {
      hide ValidMembers, Has, EncodeMembers, SkipFields;
      ms := [];
      NothingEncoded(b, 0, 0, o);
      NothingThere(b, o);
    } else {
      hide U2At, SkipAttributes, EncodeMember, EncodeMembers, ValidMember, ValidMembers, Has;
      var next := SkipAttributes(b, U2At(b, o + 6), o + 8).offset;
      SkipFieldsStep(b, count, o, U2At(b, o + 6), next);
      hide SkipFields;
      var m := FieldIsEncoded(b, o, next);
      var tail := FieldsAreEncoded(b, count - 1, next, end);
      ms := [m] + tail;
      MembersStep(m, tail);
      HasSplit(b, o, EncodeMember(m), EncodeMembers(tail));
    }
  }

  lemma FieldIsEncoded(b: seq<byte>, o: nat, next: nat) returns (m: Member)
    requires o + 8 <= next <= |b| && SkipAttributes(b, U2At(b, o + 6), o + 8) == At(next)
    ensures ValidMember(m) && Has(b, o, EncodeMember(m)) && o + |EncodeMember(m)| == next
  {
    hide PutU2, U2At, EncodeAttributes, SkipAttributes, Has, ValidAttributes;
    var attrs := AttributesAreEncoded(b, U2At(b, o + 6), o + 8, next);
    m := Member(U2At(b, o), U2At(b, o + 2), U2At(b, o + 4), attrs);
    HeadIsEncoded(b, o, m);
    HasSplit(b, o, MemberHead(m) + PutU2(|attrs|), EncodeAttributes(attrs));
  }

  lemma HeadIsEncoded(b: seq<byte>, o: nat, m: Member)
    requires ValidMember(m) && o + 8 <= |b|
    requires m.accessFlags == U2At(b, o) && m.nameIndex == U2At(b, o + 2)
    requires m.descriptorIndex == U2At(b, o + 4) && |m.attributes| == U2At(b, o + 6)
    ensures Has(b, o, MemberHead(m) + PutU2(|m.attributes|))
  {
    hide PutU2, U2At;
    U2IsEncoded(b, o);
    U2IsEncoded(b, o + 2);
    U2IsEncoded(b, o + 4);
    U2IsEncoded(b, o + 6);
    hide Has;
    var access, name, descriptor := PutU2(m.accessFlags), PutU2(m.nameIndex), PutU2(m.descriptorIndex);
    HasSplit(b, o, access, name);
    HasSplit(b, o, access + name, descriptor);
    HasSplit(b, o, access + name + descriptor, PutU2(|m.attributes|));
  }

  lemma U2IsEncoded(b: seq<byte>, o: nat)
    requires o + 2 <= |b|
    ensures Has(b, o, PutU2(U2At(b, o)))
  {
    U2Canonical(b, o);
    hide PutU2, U2At;
  }

  lemma {:induction false} U2sAreEncoded(b: seq<byte>, count: nat, o: nat) returns (vs: seq<uint16>)
    requires o + 2 * count <= |b|
    ensures |vs| == count && Has(b, o, EncodeU2s(vs))
    decreases count
  {
    if count == 0 {
      vs := [];
    } else {
      var tail := U2sAreEncoded(b, count - 1, o + 2);
      vs := [U2At(b, o)] + tail;
      U2Canonical(b, o);
      HasSplit(b, o, PutU2(U2At(b, o)), EncodeU2s(tail));
    }
  }

  lemma FoundFront(b: seq<byte>) returns (f: Front)
    requires FindMethodsCount(b).At?
    ensures StartsWith(b, f) && f.methodsCount == MethodsCount(b)
  {
    var declared := U2At(b, 8);
    var o1 := SkipPool(b, 1, declared, 10).offset;
    var nI: nat := U2At(b, o1 + 6);
    var o2 := o1 + 8 + 2 * nI;
    var nF := U2At(b, o2);
    var o3 := SkipFields(b, nF, o2 + 2).offset;
    f := FrontBetween(b, declared, o1, nI, o2, nF, o3);
  }

  lemma FrontBetween(b: seq<byte>, declared: uint16, o1: nat, nI: uint16, o2: nat, nF: uint16,
                     o3: nat) returns (f: Front)
    requires 10 <= o1 && o1 + 8 <= o2 && o2 + 2 <= o3 && o3 + 2 <= |b|
    requires declared == U2At(b, 8) && SkipPool(b, 1, declared, 10) == At(o1)
    requires nI == U2At(b, o1 + 6) && o2 == o1 + 8 + 2 * (nI as nat)
    requires nF == U2At(b, o2) && SkipFields(b, nF, o2 + 2) == At(o3)
    ensures StartsWith(b, f) && f.methodsCount == U2At(b, o3)
  {
    hide U2At, SkipPool, SkipFields, Fills, EncodePool, EncodeMembers, EncodeU2s, PutU2;
    var pool := PoolIsEncoded(b, 1, declared, 10, o1);
    var interfaces := U2sAreEncoded(b, nI, o1 + 8);
    var fields := FieldsAreEncoded(b, nF, o2 + 2, o3);
    f := Front(b[..8], declared, pool, b[o1..o1 + 6], interfaces, fields, U2At(b, o3));
    U2Canonical(b, 8);
    U2Canonical(b, o1 + 6);
    U2Canonical(b, o2);
    U2Canonical(b, o3);
    assert b[..8] == b[0..8];
    FrontInParts(b, f, o1, o2, o3);
  }

  /** Exactly what the walk computes: the methods_count of the front the bytes start with,
      and 0 when they start with none. In particular no two fronts disagree. */
  lemma MethodsCountExact(b: seq<byte>)
    ensures forall f :: StartsWith(b, f) ==> MethodsCount(b) == f.methodsCount
    ensures MethodsCount(b) != 0 ==> exists f :: StartsWith(b, f)
  {
    forall f | StartsWith(b, f) ensures MethodsCount(b) == f.methodsCount {
      FrontIsFound(b, f);
    }
    if MethodsCount(b) != 0 {
      var f := FoundFront(b);
    }
  }

  // ---------------------------------------------------------- the hot-swap manager

  /** A Go slice: its bytes, and those behind its end that its capacity still covers. Slicing
      beyond the length is fine up to the capacity. */
  datatype Slice = Slice(bytes: seq<byte>, spare: seq<byte>)

  /** Outcome of the schema check; slicing bytes 8 to 10 beyond a file's capacity is a run-time panic. */
  datatype SchemaCheck = Compatible | TooShort | PoolSizeChanged | MethodCountChanged | Panic

  datatype HotSwapStatus = Completed | Failed | NotSupported

  datatype HotSwapResult = HotSwapResult(className: string, status: HotSwapStatus, originalSize: nat, newSize: nat,
                                         methodsChanged: nat)

  datatype RedefineOutcome = Returned(result: HotSwapResult) | Panicked

  function SchemaVerdict(original: Slice, newBytes: Slice): SchemaCheck {
    if |original.bytes| < 8 || |newBytes.bytes| < 8 then TooShort
    else if |original.bytes + original.spare| < 10 || |newBytes.bytes + newBytes.spare| < 10 then Panic
    else if U2At(original.bytes + original.spare, 8) != U2At(newBytes.bytes + newBytes.spare, 8) then PoolSizeChanged
    else if MethodsCount(original.bytes) != MethodsCount(newBytes.bytes) then MethodCountChanged
    else Compatible
  }

  /** What lies behind the end of a file is not read if the file has 10 bytes. */
  lemma SpareUnread(b: seq<byte>, spare: seq<byte>)
    requires |b| >= 10
    ensures U2At(b + spare, 8) == U2At(b, 8)
  {
  }

  /** Of two well-formed class files the check compares constant-pool sizes and numbers of methods. */
  lemma SchemaOfClassFiles(c: ClassFile, d: ClassFile, spare: seq<byte>, spare': seq<byte>)
    requires WellFormed(c) && WellFormed(d)
    ensures SchemaVerdict(Slice(Serialize(c), spare), Slice(Serialize(d), spare')) == Compatible <==>
            Slots(c.constantPool) == Slots(d.constantPool) && |c.methods| == |d.methods|
  {
    hide Serialize, MethodsCount, U2At, WellFormed, Slots;
    MethodsOfClassFile(c);
    MethodsOfClassFile(d);
    DeclaredPoolSize(c);
    DeclaredPoolSize(d);
    SpareUnread(Serialize(c), spare);
    SpareUnread(Serialize(d), spare');
  }

  lemma DeclaredPoolSize(c: ClassFile)
    requires WellFormed(c)
    ensures |Serialize(c)| >= 10 && U2At(Serialize(c), 8) == 1 + Slots(c.constantPool)
  {
    FullPoolFills(c.constantPool, 1);
    var f := FrontOf(c);
    var b := Serialize(c);
    var rest := EncodeMembers(c.methods) + PutU2(|c.attributes|) + EncodeAttributes(c.attributes);
    FrontComesFirst(c, f, rest);
    assert ValidFront(f);
    hide ValidFront, EncodeFront, Serialize, PutU2, EncodeMembers, EncodeAttributes, EncodePool, U2At, Slots;
    assert Has(b, 0, EncodeFront(f));
    var o1 := 10 + |EncodePool(f.pool)|;
    var o2 := o1 + 8 + 2 * |f.interfaces|;
    FrontInParts(b, f, o1, o2, o2 + 2 + |EncodeMembers(f.fields)|);
    hide Has;
    U2RoundTrip(b, 8, f.declared);
  }

  /** The guard that is written tests for 8 bytes but the slice needs 10: the check panics
      exactly when both files pass the guard and one of them has no capacity of 10. */
  lemma SchemaPanicsExactly(original: Slice, newBytes: Slice)
    ensures SchemaVerdict(original, newBytes) == Panic <==>
            && |original.bytes| >= 8 && |newBytes.bytes| >= 8
            && (|original.bytes| + |original.spare| < 10 || |newBytes.bytes| + |newBytes.spare| < 10)
  {
  }

  /** What a caller can check: whatever capacities the two files come with, there is no panic,
      exactly if one of them is rejected as too short or both have 10 bytes. */
  lemma SchemaNeverPanics(original: seq<byte>, newBytes: seq<byte>)
    ensures (forall spare, spare' :: SchemaVerdict(Slice(original, spare), Slice(newBytes, spare')) != Panic) <==>
            |original| < 8 || |newBytes| < 8 || (|original| >= 10 && |newBytes| >= 10)
  {
    if |original| >= 8 && |newBytes| >= 8 && (|original| < 10 || |newBytes| < 10) {
      assert SchemaVerdict(Slice(original, []), Slice(newBytes, [])) == Panic;
    }
  }

  /** With 10 bytes in both files the bytes behind their ends do not matter. */
  lemma SchemaIgnoresSpare(original: Slice, newBytes: Slice)
    requires |original.bytes| >= 10 && |newBytes.bytes| >= 10
    ensures SchemaVerdict(original, newBytes) == SchemaVerdict(Slice(original.bytes, []), Slice(newBytes.bytes, []))
  {
    SpareUnread(original.bytes, original.spare);
    SpareUnread(newBytes.bytes, newBytes.spare);
    SpareUnread(original.bytes, []);
    SpareUnread(newBytes.bytes, []);
    hide U2At, MethodsCount;
  }

  /** Two files of only 8 bytes, enough capacity behind them, are compared by what lies behind
      their ends, so they may be found compatible. */
  lemma ShortFilesCompared(spare: seq<byte>, spare': seq<byte>)
    requires |spare| >= 2 && |spare'| >= 2
    ensures var stub := [0xCA, 0xFE, 0xBA, 0xBE, 0, 0, 0, 50];
            SchemaVerdict(Slice(stub, spare), Slice(stub, spare')) ==
            if spare[..2] == spare'[..2] then Compatible else PoolSizeChanged
  {
    var stub := [0xCA, 0xFE, 0xBA, 0xBE, 0, 0, 0, 50];
    var a, b := stub + spare, stub + spare';
    assert a[8..10] == spare[..2] && b[8..10] == spare'[..2];
    SameU2(a, b, 8);
    hide U2At;
  }

  lemma SameU2(a: seq<byte>, b: seq<byte>, i: nat)
    requires i + 2 <= |a| && i + 2 <= |b|
    ensures U2At(a, i) == U2At(b, i) <==> a[i..i + 2] == b[i..i + 2]
  {
    U2Canonical(a, i);
    U2Canonical(b, i);
    assert a[i] == a[i..i + 2][0] && a[i + 1] == a[i..i + 2][1];
    assert b[i] == b[i..i + 2][0] && b[i + 1] == b[i..i + 2][1];
  }

  function MethodsChangedEstimate(original: seq<byte>, newBytes: seq<byte>): (n: nat)
    ensures n <= MethodsCount(original)
    ensures n > 0 <==> |original| > 0 && |newBytes| > 0 && |original| != |newBytes|
                       && MethodsCount(original) == MethodsCount(newBytes) && MethodsCount(original) > 0
    ensures n > 1 ==> 50 * n <= |original| - |newBytes| || 50 * n <= |newBytes| - |original|
    ensures 0 < n < MethodsCount(original) ==> -50 * (n + 1) < |newBytes| - |original| < 50 * (n + 1)
  {
    if |original| == 0 || |newBytes| == 0 || MethodsCount(original) != MethodsCount(newBytes) then 0
    else
      var sizeDiff := if |newBytes| < |original| then |original| - |newBytes| else |newBytes| - |original|;
      if sizeDiff == 0 then 0 else
      var estimated := if sizeDiff / 50 < 1 then 1 else sizeDiff / 50;
      if estimated > MethodsCount(original) then MethodsCount(original) else estimated
  }

  /** The last n elements. */
  function Newest<T>(s: seq<T>, n: nat): seq<T> {
    if |s| <= n then s else s[|s| - n..]
  }

  class HotSwapManager {
    var redefinitionHistory: seq<HotSwapResult>
    var classBackups: map<string, seq<byte>>
    var canRedefineClasses: bool
    const maxHistory: nat := 100
    ghost var log: seq<HotSwapResult>  // every result ever recorded

    /** The history is the newest part of everything recorded. */
    ghost predicate Valid()
      reads this
    {
      redefinitionHistory == Newest(log, maxHistory)
    }

    constructor ()
      ensures Valid() && log == [] && classBackups == map[] && !canRedefineClasses
    {
      redefinitionHistory, classBackups, canRedefineClasses, log := [], map[], false, [];
    }

    method SetCapabilities(canRedefine: bool)
      requires Valid()
      modifies this`canRedefineClasses
      ensures Valid() && canRedefineClasses == canRedefine
    {
      canRedefineClasses := canRedefine;
    }

    method Record(result: HotSwapResult)
      requires Valid()
      modifies this`redefinitionHistory, this`log
      ensures Valid() && log == old(log) + [result]
    {
      redefinitionHistory := redefinitionHistory + [result];
      log := log + [result];
      if |redefinitionHistory| > maxHistory {
        var excess := |redefinitionHistory| - maxHistory;
        redefinitionHistory := redefinitionHistory[excess..];
      }
    }

    static method ValidateClassBytes(bytes: seq<byte>) returns (ok: bool)
      ensures ok <==> |bytes| >= 8 && Has(bytes, 0, PutU4(0xCAFEBABE))
    {
      if |bytes| < 8 {
        return false;
      }
      U4Canonical(bytes, 0);
      if Has(bytes, 0, PutU4(0xCAFEBABE)) { U4RoundTrip(bytes, 0, 0xCAFEBABE); }
      return U4At(bytes, 0) == 0xCAFEBABE;
    }

    static method ValidateSchemaCompatibility(original: Slice, newBytes: Slice) returns (r: SchemaCheck)
      ensures r == SchemaVerdict(original, newBytes)
    {
      if |original.bytes| < 8 || |newBytes.bytes| < 8 {
        return TooShort;
      }
      if |original.bytes| + |original.spare| < 10 || |newBytes.bytes| + |newBytes.spare| < 10 {
        return Panic;
      }
      if U2At(original.bytes + original.spare, 8) != U2At(newBytes.bytes + newBytes.spare, 8) {
        return PoolSizeChanged;
      }
      var origMethodCount := CountMethods(original.bytes);
      var newMethodCount := CountMethods(newBytes.bytes);
      if origMethodCount != newMethodCount {
        return MethodCountChanged;
      }
      return Compatible;
    }

    /** Runs on any bytes whatever, without reading outside them. */
    static method CountMethods(classBytes: seq<byte>) returns (count: nat)
      ensures count == MethodsCount(classBytes)
    {
      if |classBytes| < 10 {
        return 0;
      }
      var offset, reached := WalkPool(classBytes, U2At(classBytes, 8));
      if !reached {
        return 0;
      }
      if offset + 8 > |classBytes| {
        return 0;
      }
      offset := offset + 6;
      var interfacesCount: nat := U2At(classBytes, offset);
      offset := offset + 2 + interfacesCount * 2;
      if offset + 2 > |classBytes| {
        return 0;
      }
      var fieldsCount := U2At(classBytes, offset);
      offset := offset + 2;
      offset, reached := WalkFields(classBytes, fieldsCount, offset);
      if !reached || offset + 2 > |classBytes| {
        return 0;
      }
      count := U2At(classBytes, offset);
    }

    static method WalkPool(classBytes: seq<byte>, cpCount: nat) returns (offset: nat, reached: bool)
      ensures SkipPool(classBytes, 1, cpCount, 10) == if reached then At(offset) else Lost
      ensures reached ==> offset >= 10
    {
      offset := 10;
      var i: nat := 1;
      while i < cpCount
        invariant offset >= 10
        invariant SkipPool(classBytes, i, cpCount, offset) == SkipPool(classBytes, 1, cpCount, 10)
        decreases cpCount - i
      {
        if offset >= |classBytes| {
          return offset, false;
        }
        var tag := classBytes[offset];
        offset := offset + 1;
        match tag {
          case 1 =>
            if offset + 2 > |classBytes| {
              return offset, false;
            }
            offset := offset + 2 + U2At(classBytes, offset);
          case 3 => offset := offset + 4;
          case 4 => offset := offset + 4;
          case 5 => offset := offset + 8; i := i + 1;
          case 6 => offset := offset + 8; i := i + 1;
          case 7 => offset := offset + 2;
          case 8 => offset := offset + 2;
          case 9 => offset := offset + 4;
          case 10 => offset := offset + 4;
          case 11 => offset := offset + 4;
          case 12 => offset := offset + 4;
          case 15 => offset := offset + 3;
          case 16 => offset := offset + 2;
          case 17 => offset := offset + 4;
          case 18 => offset := offset + 4;
          case 19 => offset := offset + 2;
          case 20 => offset := offset + 2;
          case _ => return offset, false;
        }
        i := i + 1;
      }
      return offset, true;
    }

    static method WalkFields(classBytes: seq<byte>, fieldsCount: nat, start: nat) returns (offset: nat, reached: bool)
      ensures SkipFields(classBytes, fieldsCount, start) == if reached then At(offset) else Lost
    {
      offset := start;
      for i := 0 to fieldsCount
        invariant SkipFields(classBytes, fieldsCount - i, offset) == SkipFields(classBytes, fieldsCount, start)
      {
        if offset + 8 > |classBytes| {
          return offset, false;
        }
        offset := offset + 6;
        var attrCount := U2At(classBytes, offset);
        offset := offset + 2;
        ghost var attributesStart := offset;
        for j := 0 to attrCount
          invariant SkipAttributes(classBytes, attrCount - j, offset) == SkipAttributes(classBytes, attrCount,
              attributesStart)
        {
          if offset + 6 > |classBytes| {
            return offset, false;
          }
          offset := offset + 2;
          var attrLen := U4At(classBytes, offset);
          offset := offset + 4 + attrLen;
        }
      }
      return offset, true;
    }

    /** Every call but a panicking one is recorded. The first accepted redefinition of a
        class keeps its original bytes for rollback, later ones never replace them. */
    method RedefineClass(className: string, newBytes: Slice, originalBytes: Slice) returns (r: RedefineOutcome)
      requires Valid()
      modifies this`redefinitionHistory, this`log, this`classBackups
      ensures Valid()
      ensures r.Panicked? <==> canRedefineClasses && |newBytes.bytes| >= 8 && Has(newBytes.bytes, 0, PutU4(0xCAFEBABE))
                               && SchemaVerdict(originalBytes, newBytes) == Panic
      ensures r.Panicked? ==> log == old(log) && classBackups == old(classBackups)
      ensures r.Returned? ==> log == old(log) + [r.result]
      ensures r.Returned? ==>
                (r.result.status == Completed <==>
                 canRedefineClasses && |newBytes.bytes| >= 8 && Has(newBytes.bytes, 0, PutU4(0xCAFEBABE))
                 && (|originalBytes.bytes| == 0 || SchemaVerdict(originalBytes, newBytes) == Compatible))
      ensures r.Returned? && r.result.status == Completed ==>
                r.result.methodsChanged == MethodsChangedEstimate(originalBytes.bytes, newBytes.bytes)
      ensures r.Returned? && r.result.status == Completed ==>
                className !in old(classBackups) && |originalBytes.bytes| > 0 ==>
                  classBackups == old(classBackups)[className := originalBytes.bytes]
      ensures r.Returned? && (r.result.status != Completed || className in old(classBackups)
                                || |originalBytes.bytes| == 0) ==>
                classBackups == old(classBackups)
    {
      assert |originalBytes.bytes| == 0 ==> SchemaVerdict(originalBytes, newBytes) == TooShort;
      hide SchemaVerdict, MethodsChangedEstimate, Has, PutU4, Newest;
      var result := HotSwapResult(className, NotSupported, |originalBytes.bytes|, |newBytes.bytes|, 0);
      if !canRedefineClasses {
        Record(result);
        return Returned(result);
      }
      var valid := ValidateClassBytes(newBytes.bytes);
      if !valid {
        result := result.(status := Failed);
        Record(result);
        return Returned(result);
      }
      if |originalBytes.bytes| > 0 {
        var schema := ValidateSchemaCompatibility(originalBytes, newBytes);
        if schema == Panic {
          return Panicked;
        }
        if schema != Compatible {
          result := result.(status := Failed);
          Record(result);
          return Returned(result);
        }
      }
      if className !in classBackups && |originalBytes.bytes| > 0 {
        classBackups := classBackups[className := originalBytes.bytes];
      }
      var changed := MethodsChangedEstimate(originalBytes.bytes, newBytes.bytes);
      result := result.(status := Completed, methodsChanged := changed);
      Record(result);
      return Returned(result);
    }
  }
}
