// Message descriptors and messages of nanopb, and what the bytes of a message
// are.  A message is a tree keyed by descriptor position.
module PbMessage {
  import opened Wire
  import opened PbVarint

  const BYTES_HEADER := 4  // offsetof(pb_bytes_array_t, bytes), with a 32-bit pb_size_t

  // PB_LTYPE
  datatype LType = Varint | UVarint | SVarint | Fixed32 | Fixed64 | Bytes | String | Submessage | FixedLengthBytes

  // PB_HTYPE, together with whether the struct holds a has_ flag or a count:
  // Singular is optional without a flag, FixedCount repeated without a count.
  datatype HType = Required | Optional | Singular | Repeated | FixedCount | Oneof(group: nat)

  // pb_field_t.  sub is the descriptor of a submessage, default the value the
  // decoder starts from where there is one.
  datatype Field = Field(tag: nat, ltype: LType, htype: HType, dataSize: nat, arraySize: nat,
                         sub: seq<Field>, default: Option<Value>)

  datatype Value = Num(n: int) | Data(bytes: seq<byte>) | Msg(m: Message)

  datatype Slot = Single(has: bool, v: Value) | Many(items: seq<Value>) | InUnion

  // The which_ field and the content of a union.
  datatype Union = Union(which: nat, content: Value)

  datatype Message = Message(slots: seq<Slot>, unions: map<nat, Union>)

  predicate Numeric(l: LType) {
    l in {Varint, UVarint, SVarint, Fixed32, Fixed64}
  }

  // ---- Well-formed descriptors ----

  ghost predicate FieldOk(f: Field)
    decreases f
  {
    && 1 <= f.tag < 0x2000_0000
    && f.dataSize < TWO_32 && f.arraySize < TWO_32
    && (f.ltype in {Varint, UVarint, SVarint} ==> f.dataSize in {1, 2, 4, 8})
    && (f.ltype == Submessage ==>
          && TypeOk(f.sub)
          // The presence test of a submessage without a flag reads a count.
          && (f.htype == Singular ==> forall g | g in f.sub :: g.htype != FixedCount))
    && (f.default.Some? ==> f.ltype != Submessage && ValueOk(f.(default := None), f.default.value))
  }

  ghost predicate TypeOk(fields: seq<Field>)
    decreases fields
  {
    && (forall i | 0 <= i < |fields| :: FieldOk(fields[i]))
    && forall i, j | 0 <= i < j < |fields| :: fields[i].tag != fields[j].tag
  }

  // ---- Well-formed messages ----

  // The characters before the terminator.
  function CString(bytes: seq<byte>): (s: seq<byte>)
    ensures |s| <= |bytes| && s == bytes[..|s|] && 0 !in s
  {
    if bytes == [] || bytes[0] == 0 then [] else [bytes[0]] + CString(bytes[1..])
  }

  predicate NumFits(f: Field, n: int) {
    match f.ltype
    case Varint => f.dataSize in {1, 2, 4, 8} && -(Half(f.dataSize) as int) <= n < Half(f.dataSize)
    case SVarint => f.dataSize in {1, 2, 4, 8} && -(Half(f.dataSize) as int) <= n < Half(f.dataSize)
    case UVarint => f.dataSize in {1, 2, 4, 8} && 0 <= n < 2 * Half(f.dataSize)
    case Fixed32 => 0 <= n < TWO_32
    case Fixed64 => 0 <= n < TWO_64
    case _ => false
  }

  // 2^(8 size - 1)
  function Half(size: nat): nat
    requires size in {1, 2, 4, 8}
  {
    if size == 1 then 0x80 else if size == 2 then 0x8000 else if size == 4 then TWO_32 / 2 else TWO_64 / 2
  }

  ghost predicate ValueOk(f: Field, v: Value)
    decreases f, 0
  {
    match f.ltype
    case Bytes => v.Data? && |v.bytes| + BYTES_HEADER <= f.dataSize
    case String => v.Data? && |v.bytes| <= f.dataSize && |CString(v.bytes)| < f.dataSize
    case FixedLengthBytes => v.Data? && |v.bytes| == f.dataSize
    case Submessage => v.Msg? && MessageOk(f.sub, v.m)
    case _ => v.Num? && NumFits(f, v.n)
  }

  ghost predicate SlotOk(fields: seq<Field>, m: Message, i: nat)
    requires i < |fields| == |m.slots|
    decreases fields, 0
  {
    var f, slot := fields[i], m.slots[i];
    match f.htype
    case Required => slot.Single? && !slot.has && ValueOk(f, slot.v)
    case Singular => slot.Single? && !slot.has && ValueOk(f, slot.v)
    case Optional => slot.Single? && (slot.has ==> ValueOk(f, slot.v))
    case Repeated => slot.Many? && |slot.items| <= f.arraySize && forall k | 0 <= k < |slot.items| :: ValueOk(f, slot.items[k])
    case FixedCount => slot.Many? && |slot.items| == f.arraySize && forall k | 0 <= k < |slot.items| :: ValueOk(f, slot.items[k])
    case Oneof(g) => slot.InUnion? && g in m.unions && (m.unions[g].which == f.tag ==> ValueOk(f, m.unions[g].content))
  }

  ghost predicate MessageOk(fields: seq<Field>, m: Message)
    decreases fields, 1
  {
    && |m.slots| == |fields|
    && m.unions.Keys == Groups(fields)
    && forall i | 0 <= i < |fields| :: SlotOk(fields, m, i)
  }

  function Groups(fields: seq<Field>): set<nat> {
    set i | 0 <= i < |fields| && fields[i].htype.Oneof? :: fields[i].htype.group
  }

  // ---- The presence test of fields without a flag (pb_check_proto3_default_value) ----

  predicate DefaultValueHeld(f: Field, v: Value)
    decreases f, 0
  {
    match v
    case Num(n) => n == 0
    case Data(bytes) =>
      (match f.ltype
       case String => CString(bytes) == []
       case FixedLengthBytes => f.dataSize == 0
       case _ => bytes == [])
    case Msg(m) => DefaultFieldsHeld(f.sub, m, 0)
  }

  predicate DefaultFieldHeld(fields: seq<Field>, m: Message, i: nat)
    requires i < |fields|
    decreases fields, 0
  {
    if i >= |m.slots| then true
    else
      match (fields[i].htype, m.slots[i])
      case (Required, _) => false
      case (Optional, Single(has, _)) => !has
      case (Singular, Single(_, v)) => DefaultValueHeld(fields[i], v)
      case (Repeated, Many(items)) => items == []
      case (Oneof(g), _) => g !in m.unions || m.unions[g].which == 0
      case _ => true
  }

  predicate DefaultFieldsHeld(fields: seq<Field>, m: Message, i: nat)
    decreases fields, 1, |fields| - i
  {
    i >= |fields| || (DefaultFieldHeld(fields, m, i) && DefaultFieldsHeld(fields, m, i + 1))
  }

  // ---- The bytes of a message ----

  // The wire type of a field (pb_encode_tag_for_field)
  function WireType(l: LType): (w: nat)
    ensures w < 8
  {
    match l
    case Varint => 0
    case UVarint => 0
    case SVarint => 0
    case Fixed64 => 1
    case Fixed32 => 5
    case _ => 2
  }

  // pb_encode_tag
  function Key(tag: nat, wireType: nat): seq<byte> {
    EncodeVarint(tag * 8 + wireType)
  }

  // pb_encode_string
  function Delimited(bytes: seq<byte>): seq<byte> {
    EncodeVarint(|bytes|) + bytes
  }

  // A signed number as the 64-bit word it is cast to.
  function Word64(n: int): nat
    requires -(TWO_64 / 2) <= n < TWO_64
  {
    if n < 0 then n + TWO_64 else n
  }

  function NumBytes(f: Field, n: int): (s: Option<seq<byte>>)
    ensures s.Some? <==> NumFits(f, n)
    ensures s.Some? ==> |s.value| >= 1
  {
    if !NumFits(f, n) then None
    else
      match f.ltype
      case Varint => Some(EncodeVarint(Word64(n)))
      case UVarint => Some(EncodeVarint(n))
      case SVarint => Some(EncodeVarint(ZigZag(n)))
      case Fixed32 => Some(EncodeFixed(n, 4))
      case _ => Some(EncodeFixed(n, 8))
  }

  // The pb_enc_* functions: None is an error.
  function ValueBytes(f: Field, v: Value): Option<seq<byte>>
    decreases f, 0
  {
    match v
    case Num(n) => NumBytes(f, n)
    case Data(bytes) =>
      (match f.ltype
       case Bytes => if |bytes| + BYTES_HEADER > f.dataSize then None else Some(Delimited(bytes))
       case String => if |bytes| > f.dataSize then None else Some(Delimited(CString(bytes)))
       case FixedLengthBytes => if |bytes| != f.dataSize then None else Some(Delimited(bytes))
       case _ => None)
    case Msg(m) =>
      if f.ltype != Submessage then None
      else
        var body := FieldsBytes(f.sub, m, 0);
        if body.None? then None else Some(Delimited(body.value))
  }

  function Append(a: Option<seq<byte>>, b: Option<seq<byte>>): Option<seq<byte>> {
    if a.None? || b.None? then None else Some(a.value + b.value)
  }

  // Packed: the values one after the other.
  function PackedBytes(f: Field, items: seq<Value>): Option<seq<byte>>
    decreases f, 1, |items|
  {
    if items == [] then Some([]) else Append(ValueBytes(f, items[0]), PackedBytes(f, items[1..]))
  }

  function TaggedBytes(f: Field, v: Value): Option<seq<byte>>
    decreases f, 1
  {
    Append(Some(Key(f.tag, WireType(f.ltype))), ValueBytes(f, v))
  }

  // Unpacked: each value under its own key.
  function ItemsBytes(f: Field, items: seq<Value>): Option<seq<byte>>
    decreases f, 2, |items|
  {
    if items == [] then Some([]) else Append(TaggedBytes(f, items[0]), ItemsBytes(f, items[1..]))
  }

  // encode_array: whatever can be packed is.
  function ArrayBytes(f: Field, items: seq<Value>): Option<seq<byte>>
    decreases f, 3
  {
    if items == [] then Some([])
    else if |items| > f.arraySize then None
    else if Numeric(f.ltype) then
      var payload := PackedBytes(f, items);
      if payload.None? then None else Some(Key(f.tag, 2) + Delimited(payload.value))
    else ItemsBytes(f, items)
  }

  // encode_basic_field
  function FieldBytes(fields: seq<Field>, m: Message, i: nat): Option<seq<byte>>
    requires i < |fields|
    decreases fields, 0
  {
    if i >= |m.slots| then None
    else
      var f := fields[i];
      match (f.htype, m.slots[i])
      case (Required, Single(_, v)) => TaggedBytes(f, v)
      case (Optional, Single(has, v)) => if has then TaggedBytes(f, v) else Some([])
      case (Singular, Single(_, v)) => if DefaultValueHeld(f, v) then Some([]) else TaggedBytes(f, v)
      case (Repeated, Many(items)) => ArrayBytes(f, items)
      case (FixedCount, Many(items)) => if |items| == f.arraySize then ArrayBytes(f, items) else None
      case (Oneof(g), InUnion) =>
        if g in m.unions && m.unions[g].which == f.tag then TaggedBytes(f, m.unions[g].content) else Some([])
      case _ => None
  }

  function FieldsBytes(fields: seq<Field>, m: Message, i: nat): Option<seq<byte>>
    decreases fields, 1, |fields| - i
  {
    if i >= |fields| then Some([]) else Append(FieldBytes(fields, m, i), FieldsBytes(fields, m, i + 1))
  }

  // pb_encode
  function MessageBytes(fields: seq<Field>, m: Message): Option<seq<byte>> {
    FieldsBytes(fields, m, 0)
  }

  // ---- What a message is decoded as ----

  // pb_field_set_to_default
  function DefaultValue(f: Field): Value
    decreases f, 0
  {
    if f.ltype == Submessage then Msg(DefaultMessage(f.sub))
    else if f.default.Some? then f.default.value
    else
      match f.ltype
      case Bytes => Data([])
      case String => Data([])
      case FixedLengthBytes => Data(Zeros(f.dataSize))
      case _ => Num(0)
  }

  function DefaultSlot(f: Field): Slot
    decreases f, 1
  {
    match f.htype
    case Repeated => Many([])
    case FixedCount => Many(seq(f.arraySize, _ => Num(0)))
    case Oneof(_) => InUnion
    case _ => Single(false, DefaultValue(f))
  }

  // pb_message_set_to_defaults.  Where the decoder leaves memory alone, as the
  // content of an empty union or the unread items of an array, zero stands for
  // whatever was there.
  function DefaultMessage(fields: seq<Field>): Message
    decreases fields, 2
  {
    Message(DefaultSlots(fields), map g | g in Groups(fields) :: Union(0, Num(0)))
  }

  function DefaultSlots(fields: seq<Field>): (s: seq<Slot>)
    ensures |s| == |fields| && forall i | 0 <= i < |fields| :: s[i] == DefaultSlot(fields[i])
    decreases fields, 1
  {
    seq(|fields|, i requires 0 <= i < |fields| => DefaultSlot(fields[i]))
  }

  // The message with defaults in its absent fields.
  function NormalValue(f: Field, v: Value): Value
    decreases f, 0
  {
    match v
    case Num(_) => v
    case Data(bytes) => if f.ltype == String then Data(CString(bytes)) else v
    case Msg(m) => Msg(NormalMessage(f.sub, m))
  }

  function NormalItems(f: Field, items: seq<Value>): (s: seq<Value>)
    ensures |s| == |items| && forall k | 0 <= k < |items| :: s[k] == NormalValue(f, items[k])
    decreases f, 1
  {
    seq(|items|, k requires 0 <= k < |items| => NormalValue(f, items[k]))
  }

  function NormalSlot(f: Field, slot: Slot): Slot
    decreases f, 2
  {
    match (f.htype, slot)
    case (Required, Single(_, v)) => Single(false, NormalValue(f, v))
    case (Optional, Single(has, v)) => if has then Single(true, NormalValue(f, v)) else DefaultSlot(f)
    case (Singular, Single(_, v)) => if DefaultValueHeld(f, v) then DefaultSlot(f) else Single(false, NormalValue(f, v))
    case (Repeated, Many(items)) => Many(NormalItems(f, items))
    case (FixedCount, Many(items)) => Many(NormalItems(f, items))
    case _ => slot
  }

  // The union content of group g, going by the members before position i.
  function NormalUnion(fields: seq<Field>, m: Message, g: nat, i: nat): Union
    requires i <= |fields|
    decreases fields, 1, i
  {
    if i == 0 then Union(0, Num(0))
    else
      var f := fields[i - 1];
      if f.htype == Oneof(g) && g in m.unions && m.unions[g].which == f.tag then Union(f.tag, NormalValue(f, m.unions[g].content))
      else NormalUnion(fields, m, g, i - 1)
  }

  // The first i fields as decoded, the others still at their defaults.
  function NormalUpTo(fields: seq<Field>, m: Message, i: nat): Message
    requires i <= |fields|
    decreases fields, 2
  {
    Message(seq(|fields|, k requires 0 <= k < |fields| =>
              if k < i && k < |m.slots| then NormalSlot(fields[k], m.slots[k]) else DefaultSlot(fields[k])),
            map g | g in Groups(fields) :: NormalUnion(fields, m, g, i))
  }

  function NormalMessage(fields: seq<Field>, m: Message): Message
    decreases fields, 3
  {
    NormalUpTo(fields, m, |fields|)
  }
}
