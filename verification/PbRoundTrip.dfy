// pb_decode undoes pb_encode, up to defaults in absent fields.
module PbRoundTrip {
  import opened Wire
  import opened PbVarint
  import opened PbMessage
  import opened PbDecode

  // Buffers are shorter than this.
  const MAX_OBJECT := 0x8000_0000_0000_0000

  // ---- Numbers and length-delimited values ----

  lemma NumRoundTrip(f: Field, n: int, rest: seq<byte>)
    requires NumFits(f, n)
    ensures DecodeNum(f, NumBytes(f, n).value + rest) == Some((n, rest))
  {
    match f.ltype
    case Fixed32 =>
      FixedThenRest(n, 4, rest);
    case Fixed64 =>
      FixedThenRest(n, 8, rest);
    case Varint =>
      SignedUndoesWord(f.dataSize, n);
      VarintRoundTrip(Word64(n), rest);
    case UVarint =>
      VarintRoundTrip(n, rest);
    case SVarint =>
      SignedKeeps(f.dataSize, n);
      ZigZagIsABijection(n, 0);
      VarintRoundTrip(ZigZag(n), rest);
  }

  // What a varint says in a field: itself, through the zigzag code, or, signed,
  // modulo the width that it is cast to.
  predicate Says(f: Field, value: nat, n: int)
    requires -(TWO_64 / 2) <= n < TWO_64
  {
    match f.ltype
    case UVarint => n == value
    case SVarint => n < TWO_64 / 2 && value == ZigZag(n)
    case _ => if f.dataSize == 8 then (value - n) % TWO_64 == 0 else (value - n) % TWO_32 == 0
  }

  // A varint is taken for a number exactly when it says one that the field can hold.
  lemma NarrowIsExact(f: Field, value: nat, n: int)
    requires value < TWO_64 && f.ltype in {Varint, UVarint, SVarint} && f.dataSize in {1, 2, 4, 8}
    ensures Narrow(f, value) == Some(n) <==> NumFits(f, n) && Says(f, value, n)
  {
    match f.ltype
    case UVarint =>
    case SVarint =>
      hide ZigZag, UnZigZag, Signed;
      SignedInRange(UnZigZag(value), f.dataSize);
      if NumFits(f, n) { ZigZagIsABijection(n, value); }
    case Varint =>
      hide Signed;
      SignedInRange(n, f.dataSize);
      if f.dataSize == 8 {
        SignedInRange(Signed(value, TWO_64 / 2), 8);
        SignedWord(value, n);
      } else {
        SignedInRange(Signed(value, TWO_32 / 2), f.dataSize);
        SignedHalfWord(value, n);
      }
  }

  lemma SignedInRange(n: int, size: nat)
    requires size in {1, 2, 4, 8}
    ensures Signed(n, Half(size)) == n <==> -(Half(size) as int) <= n < Half(size)
  {
  }

  lemma SignedWord(value: nat, n: int)
    ensures Signed(value, TWO_64 / 2) == n <==> -(TWO_64 / 2) <= n < TWO_64 / 2 && (value - n) % TWO_64 == 0
  {
  }

  lemma SignedHalfWord(value: nat, n: int)
    ensures Signed(value, TWO_32 / 2) == n <==> -(TWO_32 / 2) <= n < TWO_32 / 2 && (value - n) % TWO_32 == 0
  {
  }

  lemma FixedThenRest(n: nat, width: nat, rest: seq<byte>)
    requires (width == 4 && n < TWO_32) || (width == 8 && n < TWO_64)
    ensures var s := EncodeFixed(n, width) + rest; DecodeFixed(s[..width]) == n && s[width..] == rest
  {
    assert Pow256(2) == 0x1_0000;
    assert Pow256(4) == TWO_32;
    assert Pow256(6) == 0x1_0000_0000_0000;
    assert Pow256(8) == TWO_64;
    hide Pow256;
    FixedRoundTrip(n, width);
    assert (EncodeFixed(n, width) + rest)[..width] == EncodeFixed(n, width);
  }

  lemma SignedKeeps(size: nat, n: int)
    requires size in {1, 2, 4, 8} && -(Half(size) as int) <= n < Half(size)
    ensures Signed(n, Half(size)) == n
  {
  }

  lemma SignedUndoesWord(size: nat, n: int)
    requires size in {1, 2, 4, 8} && -(Half(size) as int) <= n < Half(size)
    ensures (if size == 8 then Signed(Word64(n), TWO_64 / 2) else Signed(Word64(n), TWO_32 / 2)) == n
    ensures Signed(n, Half(size)) == n
  {
    SignedKeeps(size, n);
  }

  // Past 32 bits the length decoder accepts nothing a buffer could hold.
  lemma {:induction false} SignGroupsAreLarge(q: nat)
    requires SignGroups(q, 35) && q >= 1
    ensures q >= 0x1000_0000
  {
    assert SignGroups(q / 128, 42);
    assert SignGroups(q / 128 / 128, 49);
    assert SignGroups(q / 128 / 128 / 128, 56);
    assert SignGroups(q / 128 / 128 / 128 / 128, 63);
  }

  lemma ChunkRoundTrip(bytes: seq<byte>, rest: seq<byte>)
    requires |bytes| < MAX_OBJECT
    ensures Chunk(Delimited(bytes) + rest) == if |bytes| < TWO_32 then Some((bytes, rest)) else None
  {
    var n := |bytes|;
    assert Delimited(bytes) + rest == EncodeVarint(n) + (bytes + rest);
    Varint32Outcome(n, bytes + rest);
    if n >= 0x8_0000_0000 && SignGroups(n / 0x8_0000_0000, 35) {
      SignGroupsAreLarge(n / 0x8_0000_0000);
    }
    hide DecodeVarint32, SignGroups, EncodeVarint;
  }

  // ---- What fits ----

  predicate ChunkFits(f: Field, v: Value) {
    f.ltype == Submessage && v.Msg? && FieldsBytes(f.sub, v.m, 0).Some? ==> |FieldsBytes(f.sub, v.m, 0).value| < TWO_32
  }

  predicate ArrayFits(f: Field, items: seq<Value>) {
    if Numeric(f.ltype) then items != [] && PackedBytes(f, items).Some? ==> |PackedBytes(f, items).value| < TWO_32
    else forall k | 0 <= k < |items| :: ChunkFits(f, items[k])
  }

  // Lengths are read back as 32-bit numbers: each submessage and packed array
  // of the field must be shorter than 2^32 bytes.
  predicate FieldFits(fields: seq<Field>, m: Message, i: nat)
    requires i < |fields| && i < |m.slots|
  {
    var f := fields[i];
    match (f.htype, m.slots[i])
    case (Required, Single(_, v)) => ChunkFits(f, v)
    case (Optional, Single(has, v)) => has ==> ChunkFits(f, v)
    case (Singular, Single(_, v)) => !DefaultValueHeld(f, v) ==> ChunkFits(f, v)
    case (Repeated, Many(items)) => ArrayFits(f, items)
    case (FixedCount, Many(items)) => ArrayFits(f, items)
    case (Oneof(g), InUnion) => g in m.unions && m.unions[g].which == f.tag ==> ChunkFits(f, m.unions[g].content)
    case _ => true
  }

  predicate LengthsFit(fields: seq<Field>, m: Message, i: nat)
    requires i <= |fields| && |fields| == |m.slots|
  {
    forall k | i <= k < |fields| :: FieldFits(fields, m, k)
  }

  // ---- The state between two fields ----

  ghost predicate SeenSoFar(fields: seq<Field>, i: nat, st: State)
    requires i <= |fields|
  {
    forall k | 0 <= k < RequiredBefore(fields, i) && k < MAX_REQUIRED :: k in st.seen
  }

  ghost predicate FixedBefore(fields: seq<Field>, i: nat, st: State) {
    FixedDone(fields, st) && (st.fixedField.Some? ==> st.fixedField.value < i)
  }

  ghost predicate Ready(fields: seq<Field>, m: Message, i: nat, st: State)
    requires i <= |fields|
  {
    st.m == NormalUpTo(fields, m, i) && SeenSoFar(fields, i, st) && FixedBefore(fields, i, st)
  }

  lemma NormalFromNothing(fields: seq<Field>, m: Message)
    ensures NormalUpTo(fields, m, 0) == DefaultMessage(fields)
  {
    assert NormalUpTo(fields, m, 0).slots == DefaultSlots(fields);
    assert forall g | g in Groups(fields) :: NormalUnion(fields, m, g, 0) == Union(0, Num(0));
  }

  // Before field i, its slot still holds the default.
  lemma NormalAt(fields: seq<Field>, m: Message, i: nat)
    requires i < |fields| == |m.slots|
    ensures |NormalUpTo(fields, m, i).slots| == |fields| && NormalUpTo(fields, m, i).slots[i] == DefaultSlot(fields[i])
    ensures NormalUpTo(fields, m, i + 1).slots == NormalUpTo(fields, m, i).slots[i := NormalSlot(fields[i], m.slots[i])]
  {
  }

  lemma NormalNext(fields: seq<Field>, m: Message, i: nat)
    requires MessageOk(fields, m) && i < |fields|
    requires fields[i].htype.Oneof? ==> m.unions[fields[i].htype.group].which != fields[i].tag
    ensures var before := NormalUpTo(fields, m, i);
      |before.slots| == |fields| && NormalUpTo(fields, m, i + 1) == before.(slots := before.slots[i := NormalSlot(fields[i], m.slots[i])])
  {
    NormalAt(fields, m, i);
    assert forall g | g in Groups(fields) :: NormalUnion(fields, m, g, i + 1) == NormalUnion(fields, m, g, i);
  }

  lemma NormalNextInUnion(fields: seq<Field>, m: Message, i: nat)
    requires MessageOk(fields, m) && i < |fields| && fields[i].htype.Oneof?
    requires m.unions[fields[i].htype.group].which == fields[i].tag
    ensures var before, g := NormalUpTo(fields, m, i), fields[i].htype.group;
      NormalUpTo(fields, m, i + 1)
      == before.(unions := before.unions[g := Union(fields[i].tag, NormalValue(fields[i], m.unions[g].content))])
  {
    var f, g := fields[i], fields[i].htype.group;
    assert SlotOk(fields, m, i);
    hide ValueOk, NormalValue, DefaultValue, DefaultValueHeld, MessageOk, SlotOk;
    NormalAt(fields, m, i);
    assert g in Groups(fields);
    assert NormalSlot(f, m.slots[i]) == InUnion == DefaultSlot(f);
    UnionsNext(fields, m, i, g);
  }

  lemma UnionsNext(fields: seq<Field>, m: Message, i: nat, g: nat)
    requires i < |fields| && fields[i].htype == Oneof(g) && g in m.unions && m.unions[g].which == fields[i].tag
    ensures NormalUpTo(fields, m, i + 1).unions
         == NormalUpTo(fields, m, i).unions[g := Union(fields[i].tag, NormalValue(fields[i], m.unions[g].content))]
  {
    hide NormalValue, NormalSlot, DefaultSlot;
    assert g in Groups(fields);
    assert forall h | h in Groups(fields) && h != g :: NormalUnion(fields, m, h, i + 1) == NormalUnion(fields, m, h, i);
  }

  // ---- A pass over a known field ----

  lemma KnownPass(fields: seq<Field>, i: nat, wireType: nat, s: seq<byte>, st: State)
    requires |st.m.slots| == |fields| && TagsDistinct(fields) && i < |fields|
    requires 1 <= fields[i].tag < 0x2000_0000 && wireType < 8
    ensures DecodePass(fields, Key(fields[i].tag, wireType) + s, st)
         == var e := Enter(fields, i, st);
            if e.None? then Error
            else
              var r := DecodeField(fields[i], i, wireType, s, e.value);
              if r.None? then Error else Next(fields[i].tag, r.value.0, r.value.1)
  {
    KeyDecodes(fields[i].tag, wireType, s);
    FindFinds(fields, i);
    hide DecodeVarint32, Find, Enter, DecodeField, Key;
    var tag := fields[i].tag;
    assert (tag * 8 + wireType) / 8 == tag && (tag * 8 + wireType) % 8 == wireType;
  }

  // A fixed-count array that is left before it is full makes the next one fail.
  lemma GapBetweenArraysFails(fields: seq<Field>, i: nat, j: nat, wireType: nat, s: seq<byte>, st: State)
    requires |st.m.slots| == |fields| && TagsDistinct(fields) && i < |fields| && j < |fields|
    requires 1 <= fields[i].tag < 0x2000_0000 && wireType < 8
    requires fields[i].htype.FixedCount? && st.fixedField == Some(j) && j != i && st.fixedSize != fields[j].arraySize
    ensures DecodePass(fields, Key(fields[i].tag, wireType) + s, st) == Error
  {
    KnownPass(fields, i, wireType, s, st);
    hide DecodePass, Key, DecodeField;
  }

  // One pass either fails or goes on, and the loop with it.
  lemma LoopFollowsPass(fields: seq<Field>, s: seq<byte>, st: State)
    requires |st.m.slots| == |fields|
    ensures var p := DecodePass(fields, s, st);
      && (p.Error? ==> DecodeLoop(fields, s, st) == None)
      && (p.Next? ==> |p.st.m.slots| == |fields| && DecodeLoop(fields, s, st) == DecodeLoop(fields, p.rest, p.st))
  {
    hide DecodePass;
  }

  // ---- Arrays ----

  predicate IsArray(f: Field) {
    f.htype.Repeated? || f.htype.FixedCount?
  }

  function HeldItems(f: Field, items: seq<Value>, k: nat): Slot
    requires k <= |items|
  {
    if f.htype.FixedCount? && k <= f.arraySize then Many(NormalItems(f, items[..k]) + seq(f.arraySize - k, _ => Num(0)))
    else Many(NormalItems(f, items[..k]))
  }

  // Field i is being read, and its first k items are there.
  ghost predicate AtItem(fields: seq<Field>, m: Message, i: nat, k: nat, st: State) {
    && i < |fields| == |m.slots| && m.slots[i].Many? && k <= |m.slots[i].items|
    && IsArray(fields[i])
    && |NormalUpTo(fields, m, i).slots| == |fields|
    && st.m == NormalUpTo(fields, m, i).(slots := NormalUpTo(fields, m, i).slots[i := HeldItems(fields[i], m.slots[i].items, k)])
    && SeenSoFar(fields, i, st)
    && if fields[i].htype.FixedCount? then st.fixedField == Some(i) && st.fixedSize == k else FixedBefore(fields, i, st)
  }

  lemma ItemsOk(fields: seq<Field>, m: Message, i: nat)
    requires MessageOk(fields, m) && i < |fields| && IsArray(fields[i])
    ensures |m.slots| == |fields| && m.slots[i].Many?
    ensures if fields[i].htype.Repeated? then |m.slots[i].items| <= fields[i].arraySize else |m.slots[i].items| == fields[i].arraySize
    ensures forall k | 0 <= k < |m.slots[i].items| :: ValueOk(fields[i], m.slots[i].items[k])
  {
    assert SlotOk(fields, m, i);
  }

  lemma EnterArray(fields: seq<Field>, m: Message, i: nat, st: State)
    requires MessageOk(fields, m) && i < |fields| && Ready(fields, m, i, st)
    requires IsArray(fields[i])
    ensures Enter(fields, i, st).Some? && AtItem(fields, m, i, 0, Enter(fields, i, st).value)
  {
    ItemsOk(fields, m, i);
    NormalAt(fields, m, i);
    hide MessageOk, NormalUpTo;
    assert HeldItems(fields[i], m.slots[i].items, 0) == DefaultSlot(fields[i]);
  }

  lemma HeldNext(f: Field, items: seq<Value>, k: nat)
    requires k < |items| && (f.htype.Repeated? || (f.htype.FixedCount? && |items| == f.arraySize))
    ensures HeldItems(f, items, k).Many? && |HeldItems(f, items, k).items| >= k
    ensures f.htype.Repeated? ==>
      |HeldItems(f, items, k).items| == k
      && HeldItems(f, items, k + 1) == Many(HeldItems(f, items, k).items + [NormalValue(f, items[k])])
    ensures f.htype.FixedCount? ==>
      |HeldItems(f, items, k).items| == f.arraySize
      && HeldItems(f, items, k + 1) == Many(HeldItems(f, items, k).items[k := NormalValue(f, items[k])])
  {
    hide NormalValue;
    assert NormalItems(f, items[..k + 1]) == NormalItems(f, items[..k]) + [NormalValue(f, items[k])];
  }

  lemma PutNext(fields: seq<Field>, m: Message, i: nat, k: nat, st: State)
    requires MessageOk(fields, m) && AtItem(fields, m, i, k, st) && k < |m.slots[i].items|
    ensures var r := Put(fields[i], i, st, NormalValue(fields[i], m.slots[i].items[k]));
      r.Some? && AtItem(fields, m, i, k + 1, r.value)
  {
    ItemsOk(fields, m, i);
    HeldNext(fields[i], m.slots[i].items, k);
    hide MessageOk, NormalUpTo, NormalValue, HeldItems, RequiredBefore;
  }

  lemma ArrayDone(fields: seq<Field>, m: Message, i: nat, st: State)
    requires MessageOk(fields, m) && i < |fields| && m.slots[i].Many? && AtItem(fields, m, i, |m.slots[i].items|, st)
    ensures Ready(fields, m, i + 1, st)
  {
    ItemsOk(fields, m, i);
    var f, items := fields[i], m.slots[i].items;
    assert items[..|items|] == items;
    assert HeldItems(f, items, |items|) == NormalSlot(f, m.slots[i]);
    NormalNext(fields, m, i);
    hide MessageOk, NormalUpTo, HeldItems, NormalSlot;
    assert RequiredBefore(fields, i + 1) == RequiredBefore(fields, i);
  }

  lemma PackedFirst(f: Field, items: seq<Value>)
    requires items != [] && PackedBytes(f, items).Some?
    ensures ValueBytes(f, items[0]).Some? && PackedBytes(f, items[1..]).Some?
    ensures PackedBytes(f, items).value == ValueBytes(f, items[0]).value + PackedBytes(f, items[1..]).value
  {
    hide ValueBytes;
  }

  lemma NumberValue(f: Field, v: Value)
    requires Numeric(f.ltype) && ValueOk(f, v)
    ensures v.Num? && NumFits(f, v.n) && ValueBytes(f, v) == NumBytes(f, v.n) && NormalValue(f, v) == v
  {
  }

  lemma PackedUnfolds(f: Field, i: nat, s: seq<byte>, rest: seq<byte>, n: int, st: State)
    requires i < |st.m.slots| && DecodeNum(f, s) == Some((n, rest))
    ensures DecodePacked(f, i, s, st)
         == var st' := Put(f, i, st, Num(n)); if st'.None? then None else DecodePacked(f, i, rest, st'.value)
  {
    hide DecodeNum, Put;
  }

  lemma {:induction false} PackedRoundTrip(fields: seq<Field>, m: Message, i: nat, k: nat, st: State) returns (st': State)
    requires MessageOk(fields, m) && AtItem(fields, m, i, k, st) && Numeric(fields[i].ltype)
    requires PackedBytes(fields[i], m.slots[i].items[k..]).Some?
    ensures DecodePacked(fields[i], i, PackedBytes(fields[i], m.slots[i].items[k..]).value, st) == Some(st')
    ensures AtItem(fields, m, i, |m.slots[i].items|, st')
    decreases |m.slots[i].items| - k
  {
    var f, items := fields[i], m.slots[i].items;
    if k == |items| {
      st' := st;
    } else {
      ItemsOk(fields, m, i);
      hide *;
      assert items[k..][0] == items[k] && items[k..][1..] == items[k + 1..];
      PackedFirst(f, items[k..]);
      NumberValue(f, items[k]);
      var rest := PackedBytes(f, items[k + 1..]).value;
      NumRoundTrip(f, items[k].n, rest);
      PutNext(fields, m, i, k, st);
      AtItemShape(fields, m, i, k, st);
      PackedUnfolds(f, i, NumBytes(f, items[k].n).value + rest, rest, items[k].n, st);
      st' := PackedRoundTrip(fields, m, i, k + 1, Put(f, i, st, items[k]).value);
    }
  }

  lemma AtItemShape(fields: seq<Field>, m: Message, i: nat, k: nat, st: State)
    requires AtItem(fields, m, i, k, st)
    ensures i < |m.slots| && m.slots[i].Many? && k <= |m.slots[i].items|
    ensures |st.m.slots| == |fields| && Enter(fields, i, st) == Some(st)
  {
  }

  lemma ReadyShape(fields: seq<Field>, m: Message, i: nat, st: State)
    requires i <= |fields| && Ready(fields, m, i, st)
    ensures |st.m.slots| == |fields|
  {
  }

  lemma FieldOfType(fields: seq<Field>, i: nat)
    requires TypeOk(fields) && i < |fields|
    ensures TagsDistinct(fields) && FieldOk(fields[i]) && 1 <= fields[i].tag < 0x2000_0000
  {
  }

  lemma PackedFieldPass(f: Field, i: nat, payload: seq<byte>, rest: seq<byte>, st: State)
    requires IsArray(f) && Numeric(f.ltype)
    requires i < |st.m.slots| && |payload| < MAX_OBJECT
    ensures DecodeField(f, i, 2, Delimited(payload) + rest, st)
         == if |payload| >= TWO_32 then None
            else
              var r := DecodePacked(f, i, payload, st);
              if r.None? then None else Some((r.value, rest))
  {
    ChunkRoundTrip(payload, rest);
    hide Chunk, DecodePacked, Delimited;
  }

  // A packed array is one field.
  lemma PackedArray(fields: seq<Field>, m: Message, i: nat, rest: seq<byte>, st: State) returns (st': State)
    requires TypeOk(fields) && MessageOk(fields, m) && i < |fields| == |m.slots| && Ready(fields, m, i, st)
    requires IsArray(fields[i]) && Numeric(fields[i].ltype)
    requires m.slots[i].Many? && PackedBytes(fields[i], m.slots[i].items).Some?
    requires |PackedBytes(fields[i], m.slots[i].items).value| < MAX_OBJECT
    ensures var payload := PackedBytes(fields[i], m.slots[i].items).value;
      |st.m.slots| == |st'.m.slots| == |fields| && Ready(fields, m, i + 1, st')
      && DecodeLoop(fields, Key(fields[i].tag, 2) + Delimited(payload) + rest, st)
         == if |payload| < TWO_32 then DecodeLoop(fields, rest, st') else None
  {
    hide *;
    var f, payload := fields[i], PackedBytes(fields[i], m.slots[i].items).value;
    ReadyShape(fields, m, i, st);
    FieldOfType(fields, i);
    EnterArray(fields, m, i, st);
    var e := Enter(fields, i, st).value;
    AtItemShape(fields, m, i, 0, e);
    assert m.slots[i].items[0..] == m.slots[i].items;
    st' := PackedRoundTrip(fields, m, i, 0, e);
    AtItemShape(fields, m, i, |m.slots[i].items|, st');
    ArrayDone(fields, m, i, st');
    PackedFieldPass(f, i, payload, rest, e);
    KnownPass(fields, i, 2, Delimited(payload) + rest, st);
    assert Key(f.tag, 2) + Delimited(payload) + rest == Key(f.tag, 2) + (Delimited(payload) + rest);
    LoopFollowsPass(fields, Key(f.tag, 2) + Delimited(payload) + rest, st);
  }

  // ---- Values, fields and messages ----

  lemma DataRoundTrip(f: Field, v: Value, rest: seq<byte>, prior: Value)
    requires FieldOk(f) && ValueOk(f, v) && f.ltype in {Bytes, String, FixedLengthBytes}
    ensures ValueBytes(f, v).Some? && ChunkFits(f, v)
    ensures DecodeValue(f, ValueBytes(f, v).value + rest, prior) == Some((NormalValue(f, v), rest))
  {
    var bytes := DataBytes(f, v, prior, rest);
    ChunkRoundTrip(bytes, rest);
    hide *;
  }

  lemma DataBytes(f: Field, v: Value, prior: Value, rest: seq<byte>) returns (bytes: seq<byte>)
    requires FieldOk(f) && ValueOk(f, v) && f.ltype in {Bytes, String, FixedLengthBytes}
    ensures ValueBytes(f, v) == Some(Delimited(bytes)) && ChunkFits(f, v) && NormalValue(f, v) == Data(bytes)
    ensures |bytes| < TWO_32 < MAX_OBJECT
    ensures var c := Chunk(Delimited(bytes) + rest);
      c == Some((bytes, rest)) ==> DecodeValue(f, Delimited(bytes) + rest, prior) == Some((Data(bytes), rest))
  {
    hide Chunk, Delimited, DecodeNoinit, FieldsBytes, NormalMessage, MessageOk, TypeOk;
    bytes := if f.ltype == String then CString(v.bytes) else v.bytes;
    assert DataOf(f, bytes) == Some(Data(bytes)) by {
      if f.ltype == FixedLengthBytes && bytes == [] {
        assert Zeros(f.dataSize) == bytes;
      }
    }
    hide CString;
  }

  lemma SubmessageBytes(f: Field, v: Value)
    requires f.ltype == Submessage && ValueOk(f, v) && ValueBytes(f, v).Some?
    ensures v.Msg? && MessageOk(f.sub, v.m) && FieldsBytes(f.sub, v.m, 0).Some?
    ensures ValueBytes(f, v) == Some(Delimited(FieldsBytes(f.sub, v.m, 0).value))
    ensures ChunkFits(f, v) <==> |FieldsBytes(f.sub, v.m, 0).value| < TWO_32
    ensures |FieldsBytes(f.sub, v.m, 0).value| < |ValueBytes(f, v).value|
    ensures NormalValue(f, v) == Msg(NormalMessage(f.sub, v.m))
  {
    hide FieldsBytes, MessageOk, NormalMessage;
  }

  lemma SubmessageDecodes(f: Field, body: seq<byte>, rest: seq<byte>, prior: Value)
    requires f.ltype == Submessage && |body| < MAX_OBJECT
    ensures DecodeValue(f, Delimited(body) + rest, prior)
         == if |body| >= TWO_32 then None
            else
              var r := DecodeNoinit(f.sub, body, Start(f, prior));
              if r.None? then None else Some((Msg(r.value.0), rest))
  {
    ChunkRoundTrip(body, rest);
    hide Chunk, Delimited, DecodeNoinit, Start;
  }

  lemma {:induction false} ValueRoundTrip(f: Field, v: Value, rest: seq<byte>, prior: Value)
    requires FieldOk(f) && ValueOk(f, v) && ValueBytes(f, v).Some? && |ValueBytes(f, v).value| < MAX_OBJECT
    requires f.ltype == Submessage ==> Start(f, prior) == DefaultMessage(f.sub)
    ensures DecodeValue(f, ValueBytes(f, v).value + rest, prior)
         == if ChunkFits(f, v) then Some((NormalValue(f, v), rest)) else None
    decreases f, 0
  {
    if f.ltype == Submessage {
      assert TypeOk(f.sub);
      hide *;
      SubmessageBytes(f, v);
      var body := FieldsBytes(f.sub, v.m, 0).value;
      SubmessageDecodes(f, body, rest, prior);
      if |body| < TWO_32 {
        MessageShape(f.sub, v.m);
        SmallFits(f.sub, v.m, 0);
        MessageRoundTrip(f.sub, v.m);
      }
    } else if Numeric(f.ltype) {
      NumberValue(f, v);
      NumRoundTrip(f, v.n, rest);
      hide NumBytes, DecodeNum, ValueBytes, NormalValue;
    } else {
      DataRoundTrip(f, v, rest, prior);
    }
  }

  lemma MessageShape(fields: seq<Field>, m: Message)
    requires MessageOk(fields, m)
    ensures |m.slots| == |fields|
  {
  }

  // ---- Short messages fit ----

  lemma SmallValue(f: Field, v: Value)
    requires ValueBytes(f, v).Some? && |ValueBytes(f, v).value| < TWO_32
    ensures ChunkFits(f, v)
  {
  }

  lemma {:induction false} SmallItems(f: Field, items: seq<Value>)
    requires ItemsBytes(f, items).Some? && |ItemsBytes(f, items).value| < TWO_32
    ensures forall k | 0 <= k < |items| :: ChunkFits(f, items[k])
    decreases |items|
  {
    hide ValueBytes, ChunkFits, Key;
    if items != [] {
      SmallValue(f, items[0]);
      SmallItems(f, items[1..]);
      forall k | 0 <= k < |items|
        ensures ChunkFits(f, items[k])
      {
        if k > 0 {
          assert items[k] == items[1..][k - 1];
        }
      }
    }
  }

  lemma SmallArray(f: Field, items: seq<Value>)
    requires ArrayBytes(f, items).Some? && |ArrayBytes(f, items).value| < TWO_32
    ensures ArrayFits(f, items)
  {
    hide ChunkFits, PackedBytes, ItemsBytes;
    if items != [] && !Numeric(f.ltype) {
      SmallItems(f, items);
    }
  }

  lemma SmallField(fields: seq<Field>, m: Message, i: nat)
    requires i < |fields| && i < |m.slots| && FieldBytes(fields, m, i).Some? && |FieldBytes(fields, m, i).value| < TWO_32
    ensures FieldFits(fields, m, i)
  {
    var f := fields[i];
    if m.slots[i].Many? && IsArray(f) {
      SmallArray(f, m.slots[i].items);
    } else if m.slots[i].Single? && ValueBytes(f, m.slots[i].v).Some? && |ValueBytes(f, m.slots[i].v).value| < TWO_32 {
      SmallValue(f, m.slots[i].v);
    } else if f.htype.Oneof? && f.htype.group in m.unions && m.unions[f.htype.group].which == f.tag {
      var v := m.unions[f.htype.group].content;
      if ValueBytes(f, v).Some? && |ValueBytes(f, v).value| < TWO_32 {
        SmallValue(f, v);
      }
    }
    hide ValueBytes, ChunkFits, ArrayFits, ArrayBytes, DefaultValueHeld, Key;
  }

  lemma FieldsUnfold(fields: seq<Field>, m: Message, i: nat)
    requires i < |fields| && FieldsBytes(fields, m, i).Some?
    ensures FieldBytes(fields, m, i).Some? && FieldsBytes(fields, m, i + 1).Some?
    ensures FieldsBytes(fields, m, i).value == FieldBytes(fields, m, i).value + FieldsBytes(fields, m, i + 1).value
  {
    hide FieldBytes;
  }

  lemma {:induction false} SmallFits(fields: seq<Field>, m: Message, i: nat)
    requires i <= |fields| == |m.slots| && FieldsBytes(fields, m, i).Some? && |FieldsBytes(fields, m, i).value| < TWO_32
    ensures LengthsFit(fields, m, i)
    decreases |fields| - i
  {
    hide FieldBytes, FieldFits, FieldsBytes;
    if i < |fields| {
      FieldsUnfold(fields, m, i);
      SmallField(fields, m, i);
      SmallFits(fields, m, i + 1);
    }
  }

  // ---- Fields of one value ----

  // The value field i is encoded with, if it is present.
  function Present(fields: seq<Field>, m: Message, i: nat): Option<Value>
    requires i < |fields| && i < |m.slots|
  {
    var f := fields[i];
    match (f.htype, m.slots[i])
    case (Required, Single(_, v)) => Some(v)
    case (Optional, Single(has, v)) => if has then Some(v) else None
    case (Singular, Single(_, v)) => if DefaultValueHeld(f, v) then None else Some(v)
    case (Oneof(g), InUnion) => if g in m.unions && m.unions[g].which == f.tag then Some(m.unions[g].content) else None
    case _ => None
  }

  lemma OneValue(fields: seq<Field>, m: Message, i: nat)
    requires MessageOk(fields, m) && i < |fields| && !IsArray(fields[i])
    ensures |m.slots| == |fields|
    ensures var f, p := fields[i], Present(fields, m, i);
      && FieldBytes(fields, m, i) == (if p.None? then Some([]) else TaggedBytes(f, p.value))
      && (p.Some? ==> ValueOk(f, p.value))
      && (FieldFits(fields, m, i) <==> p.None? || ChunkFits(f, p.value))
  {
    assert SlotOk(fields, m, i);
    hide ValueOk, ChunkFits, TaggedBytes, DefaultValueHeld, MessageOk;
  }

  lemma AbsentIsReady(fields: seq<Field>, m: Message, i: nat, st: State)
    requires MessageOk(fields, m) && i < |fields| && Ready(fields, m, i, st)
    requires if IsArray(fields[i]) then m.slots[i].Many? && m.slots[i].items == [] else Present(fields, m, i).None?
    ensures Ready(fields, m, i + 1, st)
  {
    assert SlotOk(fields, m, i);
    NormalAt(fields, m, i);
    NormalNext(fields, m, i);
    hide MessageOk, ValueOk, NormalValue, DefaultValueHeld, DefaultValue, NormalUpTo, SlotOk;
    assert NormalSlot(fields[i], m.slots[i]) == DefaultSlot(fields[i]);
    assert RequiredBefore(fields, i + 1) == RequiredBefore(fields, i);
    var before := NormalUpTo(fields, m, i);
    assert before.slots[i := before.slots[i]] == before.slots;
  }

  lemma EnterOne(fields: seq<Field>, m: Message, i: nat, st: State)
    requires MessageOk(fields, m) && i < |fields| && !IsArray(fields[i]) && Ready(fields, m, i, st)
    ensures Enter(fields, i, st).Some?
    ensures var e := Enter(fields, i, st).value;
      && |e.m.slots| == |fields| && e.m == NormalUpTo(fields, m, i)
      && SeenSoFar(fields, i + 1, e) && FixedBefore(fields, i + 1, e)
      && (fields[i].ltype == Submessage ==> Start(fields[i], OldValue(fields[i], i, e)) == DefaultMessage(fields[i].sub))
  {
    NormalAt(fields, m, i);
    hide NormalUpTo, MessageOk, DefaultMessage;
    var e := Enter(fields, i, st).value;
    assert RequiredBefore(fields, i + 1) == RequiredBefore(fields, i) + if fields[i].htype.Required? then 1 else 0;
    hide RequiredBefore;
  }

  lemma StoreOne(fields: seq<Field>, m: Message, i: nat, e: State)
    requires MessageOk(fields, m) && i < |fields| && |m.slots| == |fields| && !IsArray(fields[i]) && Present(fields, m, i).Some?
    requires |e.m.slots| == |fields| && e.m == NormalUpTo(fields, m, i) && SeenSoFar(fields, i + 1, e) && FixedBefore(fields, i + 1, e)
    ensures var r := Store(fields[i], i, e, NormalValue(fields[i], Present(fields, m, i).value));
      r.Some? && Ready(fields, m, i + 1, r.value)
  {
    assert SlotOk(fields, m, i);
    if fields[i].htype.Oneof? {
      NormalNextInUnion(fields, m, i);
    } else {
      NormalNext(fields, m, i);
    }
    hide MessageOk, ValueOk, NormalValue, DefaultValueHeld, DefaultValue, NormalUpTo, SlotOk, RequiredBefore;
  }

  lemma OnePass(f: Field, i: nat, v: Value, rest: seq<byte>, e: State)
    requires i < |e.m.slots| && !IsArray(f) && ValueBytes(f, v).Some?
    requires DecodeValue(f, ValueBytes(f, v).value + rest, OldValue(f, i, e))
          == if ChunkFits(f, v) then Some((NormalValue(f, v), rest)) else None
    ensures DecodeField(f, i, WireType(f.ltype), ValueBytes(f, v).value + rest, e)
         == if !ChunkFits(f, v) then None
            else
              var st' := Store(f, i, e, NormalValue(f, v));
              if st'.None? then None else Some((st'.value, rest))
  {
    hide DecodeValue, ValueBytes, NormalValue, ChunkFits, Store, OldValue, WireType;
  }

  lemma Tagged(f: Field, v: Value)
    requires TaggedBytes(f, v).Some?
    ensures ValueBytes(f, v).Some? && TaggedBytes(f, v).value == Key(f.tag, WireType(f.ltype)) + ValueBytes(f, v).value
    ensures |ValueBytes(f, v).value| < |TaggedBytes(f, v).value|
  {
    hide ValueBytes;
  }

  lemma {:induction false} OneRoundTrip(fields: seq<Field>, m: Message, i: nat, rest: seq<byte>, st: State) returns (st': State)
    requires TypeOk(fields) && MessageOk(fields, m) && i < |fields| == |m.slots| && !IsArray(fields[i]) && Ready(fields, m, i, st)
    requires FieldBytes(fields, m, i).Some? && |FieldBytes(fields, m, i).value| < MAX_OBJECT
    ensures |st.m.slots| == |st'.m.slots| == |fields| && Ready(fields, m, i + 1, st')
    ensures DecodeLoop(fields, FieldBytes(fields, m, i).value + rest, st)
         == if FieldFits(fields, m, i) then DecodeLoop(fields, rest, st') else None
    decreases fields[i], 3
  {
    hide *;
    ReadyShape(fields, m, i, st);
    OneValue(fields, m, i);
    var f, p, bytes := fields[i], Present(fields, m, i), FieldBytes(fields, m, i).value;
    if p.None? {
      st' := st;
      AbsentIsReady(fields, m, i, st);
      assert bytes + rest == rest;
    } else {
      var v := p.value;
      FieldOfType(fields, i);
      Tagged(f, v);
      EnterOne(fields, m, i, st);
      var e := Enter(fields, i, st).value;
      ValueRoundTrip(f, v, rest, OldValue(f, i, e));
      OnePass(f, i, v, rest, e);
      StoreOne(fields, m, i, e);
      st' := Store(f, i, e, NormalValue(f, v)).value;
      ReadyShape(fields, m, i + 1, st');
      KnownPass(fields, i, WireType(f.ltype), ValueBytes(f, v).value + rest, st);
      assert bytes + rest == Key(f.tag, WireType(f.ltype)) + (ValueBytes(f, v).value + rest);
      LoopFollowsPass(fields, bytes + rest, st);
    }
  }

  // ---- Arrays of values under their own keys ----

  lemma ItemPass(f: Field, i: nat, v: Value, rest: seq<byte>, e: State)
    requires i < |e.m.slots| && IsArray(f) && !Numeric(f.ltype) && ValueBytes(f, v).Some?
    requires DecodeValue(f, ValueBytes(f, v).value + rest, OldValue(f, i, e))
          == if ChunkFits(f, v) then Some((NormalValue(f, v), rest)) else None
    ensures DecodeField(f, i, WireType(f.ltype), ValueBytes(f, v).value + rest, e)
         == if !ChunkFits(f, v) then None
            else
              var st' := Put(f, i, e, NormalValue(f, v));
              if st'.None? then None else Some((st'.value, rest))
  {
    hide DecodeValue, ValueBytes, NormalValue, ChunkFits, Put, OldValue, WireType;
  }

  lemma ItemStep(fields: seq<Field>, i: nat, v: Value, s: seq<byte>, st: State)
    requires TagsDistinct(fields) && i < |fields| == |st.m.slots| && 1 <= fields[i].tag < 0x2000_0000
    requires IsArray(fields[i]) && !Numeric(fields[i].ltype) && TaggedBytes(fields[i], v).Some? && ValueBytes(fields[i], v).Some?
    requires Enter(fields, i, st).Some? && i < |Enter(fields, i, st).value.m.slots|
    requires Put(fields[i], i, Enter(fields, i, st).value, NormalValue(fields[i], v)).Some?
    requires |Put(fields[i], i, Enter(fields, i, st).value, NormalValue(fields[i], v)).value.m.slots| == |fields|
    requires DecodeValue(fields[i], ValueBytes(fields[i], v).value + s, OldValue(fields[i], i, Enter(fields, i, st).value))
          == if ChunkFits(fields[i], v) then Some((NormalValue(fields[i], v), s)) else None
    ensures DecodeLoop(fields, TaggedBytes(fields[i], v).value + s, st)
         == if ChunkFits(fields[i], v) then DecodeLoop(fields, s, Put(fields[i], i, Enter(fields, i, st).value, NormalValue(fields[i], v)).value)
            else None
  {
    hide *;
    var f, e := fields[i], Enter(fields, i, st).value;
    Tagged(f, v);
    ItemPass(f, i, v, s, e);
    KnownPass(fields, i, WireType(f.ltype), ValueBytes(f, v).value + s, st);
    assert TaggedBytes(f, v).value + s == Key(f.tag, WireType(f.ltype)) + (ValueBytes(f, v).value + s);
    LoopFollowsPass(fields, TaggedBytes(f, v).value + s, st);
  }

  lemma ArrayStartsFresh(f: Field, prior: Value)
    requires IsArray(f)
    ensures Start(f, prior) == DefaultMessage(f.sub)
  {
    hide DefaultMessage;
  }

  lemma ItemsUnfold(f: Field, items: seq<Value>, k: nat)
    requires k < |items| && ItemsBytes(f, items[k..]).Some?
    ensures TaggedBytes(f, items[k]).Some? && ItemsBytes(f, items[k + 1..]).Some?
    ensures ItemsBytes(f, items[k..]).value == TaggedBytes(f, items[k]).value + ItemsBytes(f, items[k + 1..]).value
  {
    hide TaggedBytes;
    assert items[k..][1..] == items[k + 1..];
  }

  predicate ItemsFit(f: Field, items: seq<Value>, k: nat) {
    forall j | k <= j < |items| :: ChunkFits(f, items[j])
  }

  lemma ItemsFitUnfolds(f: Field, items: seq<Value>, k: nat)
    requires k < |items|
    ensures ItemsFit(f, items, k) <==> ChunkFits(f, items[k]) && ItemsFit(f, items, k + 1)
  {
    hide ChunkFits;
  }

  lemma {:induction false} ItemsRoundTrip(fields: seq<Field>, m: Message, i: nat, k: nat, rest: seq<byte>, st: State) returns (st': State)
    requires TypeOk(fields) && MessageOk(fields, m) && i < |fields| == |m.slots| == |st.m.slots|
    requires IsArray(fields[i]) && !Numeric(fields[i].ltype)
    requires Enter(fields, i, st).Some? && AtItem(fields, m, i, k, Enter(fields, i, st).value)
    requires k == |m.slots[i].items| ==> Enter(fields, i, st).value == st
    requires ItemsBytes(fields[i], m.slots[i].items[k..]).Some? && |ItemsBytes(fields[i], m.slots[i].items[k..]).value| < MAX_OBJECT
    ensures |st'.m.slots| == |fields| && Ready(fields, m, i + 1, st')
    ensures DecodeLoop(fields, ItemsBytes(fields[i], m.slots[i].items[k..]).value + rest, st)
         == if ItemsFit(fields[i], m.slots[i].items, k) then DecodeLoop(fields, rest, st') else None
    decreases fields[i], 2, |m.slots[i].items| - k
  {
    hide *;
    AtItemShape(fields, m, i, k, Enter(fields, i, st).value);
    var f, items, e := fields[i], m.slots[i].items, Enter(fields, i, st).value;
    var bytes := ItemsBytes(f, items[k..]).value;
    if k == |items| {
      st' := st;
      ArrayDone(fields, m, i, st);
      NothingLeftFits(f, items);
      assert bytes + rest == rest;
    } else {
      ItemsUnfold(f, items, k);
      var v, more := items[k], ItemsBytes(f, items[k + 1..]).value;
      FieldOfType(fields, i);
      ItemsOk(fields, m, i);
      ItemsFitUnfolds(f, items, k);
      Tagged(f, v);
      AtItemShape(fields, m, i, k, e);
      ArrayStartsFresh(f, OldValue(f, i, e));
      ValueRoundTrip(f, v, more + rest, OldValue(f, i, e));
      PutNext(fields, m, i, k, e);
      var next := Put(f, i, e, NormalValue(f, v)).value;
      AtItemShape(fields, m, i, k + 1, next);
      ItemStep(fields, i, v, more + rest, st);
      assert bytes + rest == TaggedBytes(f, v).value + (more + rest);
      st' := ItemsRoundTrip(fields, m, i, k + 1, rest, next);
    }
  }

  lemma NothingLeftFits(f: Field, items: seq<Value>)
    ensures ItemsFit(f, items, |items|) && ItemsBytes(f, items[|items|..]) == Some([])
  {
  }

  lemma ArrayShape(fields: seq<Field>, m: Message, i: nat)
    requires MessageOk(fields, m) && i < |fields| == |m.slots| && IsArray(fields[i]) && FieldBytes(fields, m, i).Some?
    ensures m.slots[i].Many?
    ensures var f, items := fields[i], m.slots[i].items;
      if items == [] then FieldBytes(fields, m, i) == Some([]) && FieldFits(fields, m, i)
      else if Numeric(f.ltype) then
        && PackedBytes(f, items).Some? && FieldBytes(fields, m, i).value == Key(f.tag, 2) + Delimited(PackedBytes(f, items).value)
        && |PackedBytes(f, items).value| < |FieldBytes(fields, m, i).value|
        && (FieldFits(fields, m, i) <==> |PackedBytes(f, items).value| < TWO_32)
      else FieldBytes(fields, m, i) == ItemsBytes(f, items) && (FieldFits(fields, m, i) <==> ItemsFit(f, items, 0))
  {
    ItemsOk(fields, m, i);
    hide MessageOk, ItemsBytes, PackedBytes, ChunkFits;
  }

  lemma {:induction false} ArrayRoundTrip(fields: seq<Field>, m: Message, i: nat, rest: seq<byte>, st: State) returns (st': State)
    requires TypeOk(fields) && MessageOk(fields, m) && i < |fields| == |m.slots| && IsArray(fields[i]) && Ready(fields, m, i, st)
    requires FieldBytes(fields, m, i).Some? && |FieldBytes(fields, m, i).value| < MAX_OBJECT
    ensures |st.m.slots| == |st'.m.slots| == |fields| && Ready(fields, m, i + 1, st')
    ensures DecodeLoop(fields, FieldBytes(fields, m, i).value + rest, st)
         == if FieldFits(fields, m, i) then DecodeLoop(fields, rest, st') else None
    decreases fields[i], 3
  {
    hide Ready, MessageOk, TypeOk, FieldBytes, FieldFits, DecodeLoop, AtItem, Enter, ItemsBytes, PackedBytes, ItemsFit;
    ReadyShape(fields, m, i, st);
    ArrayShape(fields, m, i);
    var f, items := fields[i], m.slots[i].items;
    if items == [] {
      st' := st;
      AbsentIsReady(fields, m, i, st);
      assert FieldBytes(fields, m, i).value + rest == rest;
    } else if Numeric(f.ltype) {
      st' := PackedArray(fields, m, i, rest, st);
    } else {
      EnterArray(fields, m, i, st);
      assert items[0..] == items;
      st' := ItemsRoundTrip(fields, m, i, 0, rest, st);
    }
  }

  // ---- Messages ----

  lemma LengthsUnfold(fields: seq<Field>, m: Message, i: nat)
    requires i < |fields| == |m.slots|
    ensures LengthsFit(fields, m, i) <==> FieldFits(fields, m, i) && LengthsFit(fields, m, i + 1)
  {
    hide FieldFits;
  }

  lemma NothingLeft(fields: seq<Field>, m: Message, st: State)
    requires |fields| == |m.slots| == |st.m.slots|
    ensures FieldsBytes(fields, m, |fields|) == Some([]) && LengthsFit(fields, m, |fields|)
    ensures DecodeLoop(fields, [], st) == Some((st, []))
  {
  }

  lemma {:induction false} LoopRoundTrip(fields: seq<Field>, m: Message, i: nat, st: State) returns (st': State)
    requires TypeOk(fields) && MessageOk(fields, m) && i <= |fields| == |m.slots| && Ready(fields, m, i, st)
    requires FieldsBytes(fields, m, i).Some? && |FieldsBytes(fields, m, i).value| < MAX_OBJECT
    ensures |st.m.slots| == |st'.m.slots| == |fields| && Ready(fields, m, |fields|, st')
    ensures DecodeLoop(fields, FieldsBytes(fields, m, i).value, st) == if LengthsFit(fields, m, i) then Some((st', [])) else None
    decreases fields, 1, |fields| - i
  {
    if i == |fields| {
      hide *;
      st' := st;
      ReadyShape(fields, m, i, st);
      NothingLeft(fields, m, st);
    } else {
      hide *;
      FieldsUnfold(fields, m, i);
      LengthsUnfold(fields, m, i);
      var rest := FieldsBytes(fields, m, i + 1).value;
      var next;
      if IsArray(fields[i]) {
        next := ArrayRoundTrip(fields, m, i, rest, st);
      } else {
        next := OneRoundTrip(fields, m, i, rest, st);
      }
      st' := LoopRoundTrip(fields, m, i + 1, next);
    }
  }

  lemma ReadyAtEnd(fields: seq<Field>, m: Message, st: State)
    requires Ready(fields, m, |fields|, st)
    ensures Complete(fields, st) && st.m == NormalMessage(fields, m)
  {
    hide NormalUpTo, RequiredBefore;
  }

  lemma ReadyAtStart(fields: seq<Field>, m: Message)
    ensures |DefaultMessage(fields).slots| == |fields| && Ready(fields, m, 0, State(DefaultMessage(fields), {}, None, 0))
  {
    NormalFromNothing(fields, m);
  }

  // Decoding what was encoded gives the message back, with defaults in its
  // absent fields and no byte left over, exactly when every submessage and
  // packed array is shorter than 2^32 bytes; otherwise it fails.
  lemma {:induction false} MessageRoundTrip(fields: seq<Field>, m: Message)
    requires TypeOk(fields) && MessageOk(fields, m) && |m.slots| == |fields|
    requires MessageBytes(fields, m).Some? && |MessageBytes(fields, m).value| < MAX_OBJECT
    ensures Decode(fields, MessageBytes(fields, m).value)
         == if LengthsFit(fields, m, 0) then Some((NormalMessage(fields, m), [])) else None
    decreases fields, 2
  {
    hide Ready, LengthsFit, DecodeLoop, MessageOk, TypeOk, FieldsBytes, DefaultMessage, NormalMessage, Complete;
    ReadyAtStart(fields, m);
    var st' := LoopRoundTrip(fields, m, 0, State(DefaultMessage(fields), {}, None, 0));
    ReadyAtEnd(fields, m, st');
  }

  // ---- Well-formed messages can be encoded ----

  lemma {:induction false} ValueEncodes(f: Field, v: Value)
    requires FieldOk(f) && ValueOk(f, v)
    ensures ValueBytes(f, v).Some?
    decreases f, 0
  {
    if f.ltype == Submessage {
      MessageEncodes(f.sub, v.m, 0);
    }
  }

  lemma {:induction false} ItemsEncode(f: Field, items: seq<Value>)
    requires FieldOk(f) && forall k | 0 <= k < |items| :: ValueOk(f, items[k])
    ensures PackedBytes(f, items).Some? && ItemsBytes(f, items).Some?
    decreases f, 1, |items|
  {
    hide ValueBytes, FieldOk, ValueOk;
    if items != [] {
      ValueEncodes(f, items[0]);
      ItemsEncode(f, items[1..]);
    }
  }

  lemma {:induction false} MessageEncodes(fields: seq<Field>, m: Message, i: nat)
    requires TypeOk(fields) && MessageOk(fields, m)
    ensures FieldsBytes(fields, m, i).Some?
    decreases fields, 0, |fields| - i
  {
    if i < |fields| {
      MessageShape(fields, m);
      FieldOfType(fields, i);
      hide TypeOk, FieldOk;
      if IsArray(fields[i]) {
        ItemsOk(fields, m, i);
        hide MessageOk, ValueOk, PackedBytes, ItemsBytes, FieldsBytes;
        ItemsEncode(fields[i], m.slots[i].items);
        FieldThenFields(fields, m, i);
      } else {
        OneValue(fields, m, i);
        hide MessageOk, ValueOk, ValueBytes, FieldBytes, FieldsBytes;
        if Present(fields, m, i).Some? {
          ValueEncodes(fields[i], Present(fields, m, i).value);
        }
        FieldThenFields(fields, m, i);
      }
      MessageEncodes(fields, m, i + 1);
    }
  }

  lemma FieldThenFields(fields: seq<Field>, m: Message, i: nat)
    requires i < |fields|
    ensures FieldsBytes(fields, m, i) == Append(FieldBytes(fields, m, i), FieldsBytes(fields, m, i + 1))
  {
  }
}
