// Fields without a presence flag: exactly those with nothing in them are left
// out, and all come back.
module PbPresence {
  import opened Wire
  import opened PbVarint
  import opened PbMessage
  import opened PbDecode
  import opened PbRoundTrip

  // ---- What is left out ----

  // None of the unions has a member selected.
  ghost predicate NoneSelected(m: Message) {
    forall g | g in m.unions :: m.unions[g].which == 0
  }

  // A message with nothing in it: it has an empty encoding, and no union in it
  // claims a member, declared or not.
  ghost predicate Nothing(fields: seq<Field>, m: Message) {
    FieldsBytes(fields, m, 0) == Some([]) && NoneSelected(m)
  }

  // Where one field of a message has nothing in it
  ghost predicate NothingAt(fields: seq<Field>, m: Message, i: nat)
    requires i < |fields|
  {
    FieldBytes(fields, m, i) == Some([])
    && (fields[i].htype.Oneof? && fields[i].htype.group in m.unions ==> m.unions[fields[i].htype.group].which == 0)
  }

  lemma KeyIsThere(f: Field, v: Value)
    ensures TaggedBytes(f, v) != Some([])
  {
    hide ValueBytes;
  }

  lemma ArrayIsThere(f: Field, items: seq<Value>)
    requires ArrayBytes(f, items) == Some([])
    ensures items == []
  {
    hide PackedBytes, TaggedBytes;
    if items != [] && !Numeric(f.ltype) {
      KeyIsThere(f, items[0]);
    }
  }

  lemma DefaultIsNothing(fields: seq<Field>, m: Message, i: nat)
    requires MessageOk(fields, m) && i < |fields| && fields[i].htype != FixedCount && fields[i].tag != 0
    ensures DefaultFieldHeld(fields, m, i) <==> NothingAt(fields, m, i)
  {
    assert SlotOk(fields, m, i);
    var f := fields[i];
    hide MessageOk, ValueOk, DefaultValueHeld, TaggedBytes, ArrayBytes, SlotOk;
    match m.slots[i]
    case Single(has, v) => KeyIsThere(f, v);
    case Many(items) => if FieldBytes(fields, m, i) == Some([]) { ArrayIsThere(f, items); } else { EmptyArray(f); }
    case InUnion => if f.htype.group in m.unions { KeyIsThere(f, m.unions[f.htype.group].content); }
  }

  lemma EmptyArray(f: Field)
    ensures ArrayBytes(f, []) == Some([])
  {
  }

  lemma {:induction false} DefaultsAreNothing(fields: seq<Field>, m: Message, i: nat)
    requires MessageOk(fields, m) && i <= |fields| && forall f | f in fields :: f.htype != FixedCount && f.tag != 0
    ensures DefaultFieldsHeld(fields, m, i) <==>
      FieldsBytes(fields, m, i) == Some([]) && forall k | i <= k < |fields| :: NothingAt(fields, m, k)
    decreases |fields| - i
  {
    hide MessageOk, NothingAt, DefaultFieldHeld, FieldBytes;
    if i < |fields| {
      assert fields[i] in fields;
      DefaultIsNothing(fields, m, i);
      DefaultsAreNothing(fields, m, i + 1);
      OnlyNothing(fields, m, i);
      EmptyAppend(FieldBytes(fields, m, i), FieldsBytes(fields, m, i + 1));
    }
  }

  lemma EmptyAppend(a: Option<seq<byte>>, b: Option<seq<byte>>)
    ensures Append(a, b) == Some([]) <==> a == Some([]) && b == Some([])
  {
    if a.Some? && b.Some? {
      assert |a.value + b.value| == |a.value| + |b.value|;
    }
  }

  lemma OnlyNothing(fields: seq<Field>, m: Message, i: nat)
    requires i < |fields|
    ensures NothingAt(fields, m, i) ==> FieldBytes(fields, m, i) == Some([])
  {
    hide FieldBytes;
  }

  lemma {:induction false} RestEmpty(fields: seq<Field>, m: Message, i: nat, k: nat)
    requires FieldsBytes(fields, m, i) == Some([]) && i <= k <= |fields|
    ensures FieldsBytes(fields, m, k) == Some([])
    ensures k < |fields| ==> FieldBytes(fields, m, k) == Some([])
    decreases k
  {
    hide FieldBytes;
    if i < k {
      RestEmpty(fields, m, i, k - 1);
    }
  }

  lemma NoneSelectedAt(fields: seq<Field>, m: Message)
    requires MessageOk(fields, m) && FieldsBytes(fields, m, 0) == Some([])
    ensures NoneSelected(m) <==> forall k | 0 <= k < |fields| :: NothingAt(fields, m, k)
  {
    forall k | 0 <= k < |fields|
      ensures FieldBytes(fields, m, k) == Some([])
    {
      RestEmpty(fields, m, 0, k);
    }
    hide FieldBytes, FieldsBytes;
    if forall k | 0 <= k < |fields| :: NothingAt(fields, m, k) {
      forall g | g in m.unions
        ensures m.unions[g].which == 0
      {
        assert g in Groups(fields);
        var k :| 0 <= k < |fields| && fields[k].htype.Oneof? && fields[k].htype.group == g;
        assert NothingAt(fields, m, k);
      }
    }
  }

  // A submessage without a flag passes for absent exactly when it has nothing in it.
  lemma AbsentMessage(f: Field, m: Message)
    requires FieldOk(f) && f.ltype == Submessage && f.htype == Singular && MessageOk(f.sub, m)
    ensures DefaultValueHeld(f, Msg(m)) <==> Nothing(f.sub, m)
  {
    assert forall k | 0 <= k < |f.sub| :: FieldOk(f.sub[k]);
    DefaultsAreNothing(f.sub, m, 0);
    if FieldsBytes(f.sub, m, 0) == Some([]) {
      NoneSelectedAt(f.sub, m);
    }
    hide FieldsBytes, NothingAt, MessageOk;
  }


  // A field without a flag is left out exactly when there is nothing in it: the
  // number 0, no bytes up to the terminator, or a message with nothing in it.
  lemma LeftOutIffNothing(fields: seq<Field>, m: Message, i: nat)
    requires TypeOk(fields) && MessageOk(fields, m) && i < |fields| && fields[i].htype == Singular
    ensures |m.slots| == |fields| && m.slots[i].Single? && FieldBytes(fields, m, i).Some?
    ensures FieldBytes(fields, m, i) == Some([]) <==>
      match m.slots[i].v
      case Num(n) => n == 0
      case Data(bytes) => bytes == [] || (fields[i].ltype == String && bytes[0] == 0)
      case Msg(sub) => Nothing(fields[i].sub, sub)
  {
    FieldOfType(fields, i);
    OneValue(fields, m, i);
    assert SlotOk(fields, m, i);
    var f, v := fields[i], m.slots[i].v;
    ValueEncodes(f, v);
    KeyIsThere(f, v);
    if f.ltype == Submessage {
      AbsentMessage(f, v.m);
    }
    hide MessageOk, TypeOk, FieldsBytes, Nothing, Key;
  }

  // ---- What comes back ----

  lemma {:induction false} NoUnionMember(fields: seq<Field>, m: Message, g: nat, i: nat)
    requires i <= |fields| && (g in m.unions ==> m.unions[g].which == 0) && forall f | f in fields :: f.tag != 0
    ensures NormalUnion(fields, m, g, i) == Union(0, Num(0))
    decreases i
  {
    hide NormalValue;
    if i > 0 {
      assert fields[i - 1] in fields;
      NoUnionMember(fields, m, g, i - 1);
    }
  }

  lemma {:induction false} DefaultsHeldAt(fields: seq<Field>, m: Message, i: nat, k: nat)
    requires DefaultFieldsHeld(fields, m, i) && i <= k < |fields|
    ensures DefaultFieldHeld(fields, m, k)
    decreases k - i
  {
    hide DefaultFieldHeld;
    if i < k {
      DefaultsHeldAt(fields, m, i + 1, k);
    }
  }

  lemma DefaultSlotIsNormal(fields: seq<Field>, m: Message, i: nat)
    requires MessageOk(fields, m) && i < |fields| == |m.slots| && fields[i].htype != FixedCount && DefaultFieldHeld(fields, m, i)
    ensures NormalSlot(fields[i], m.slots[i]) == DefaultSlot(fields[i])
    ensures fields[i].htype.Oneof? && fields[i].htype.group in m.unions ==> m.unions[fields[i].htype.group].which == 0
  {
    assert SlotOk(fields, m, i);
    hide MessageOk, ValueOk, NormalValue, DefaultValueHeld, DefaultValue, SlotOk;
  }

  // What passes for absent is decoded as what it was.
  lemma AbsentMessageIsNormal(f: Field, m: Message)
    requires FieldOk(f) && f.ltype == Submessage && f.htype == Singular && MessageOk(f.sub, m) && DefaultValueHeld(f, Msg(m))
    ensures NormalMessage(f.sub, m) == DefaultMessage(f.sub)
  {
    var fields := f.sub;
    assert forall k | 0 <= k < |fields| :: FieldOk(fields[k]) && fields[k] in fields;
    assert forall g | g in fields :: g.tag != 0;
    MessageShape(fields, m);
    forall k | 0 <= k < |fields|
      ensures NormalSlot(fields[k], m.slots[k]) == DefaultSlot(fields[k])
      ensures fields[k].htype.Oneof? && fields[k].htype.group in m.unions ==> m.unions[fields[k].htype.group].which == 0
    {
      DefaultsHeldAt(fields, m, 0, k);
      DefaultSlotIsNormal(fields, m, k);
    }
    forall g | g in Groups(fields)
      ensures NormalUnion(fields, m, g, |fields|) == Union(0, Num(0))
    {
      NoUnionMember(fields, m, g, |fields|);
    }
    hide NormalSlot, DefaultSlot, NormalUnion, MessageOk, FieldOk, DefaultFieldsHeld;
    assert NormalMessage(fields, m).slots == DefaultSlots(fields);
  }

  lemma DefaultIsNormal(f: Field, v: Value)
    requires f.ltype != Submessage && ValueOk(f, v)
    ensures f.default.Some? ==> DefaultValue(f) == f.default.value
    ensures f.default.None? && DefaultValueHeld(f, v) ==> DefaultValue(f) == NormalValue(f, v)
  {
    hide NormalMessage, DefaultMessage, MessageOk, DefaultFieldsHeld;
    if f.ltype == FixedLengthBytes && f.dataSize == 0 {
      assert Zeros(f.dataSize) == v.bytes;
    }
  }

  // A field without a flag comes back as it was, unless it is left out and the
  // descriptor has another default for it.
  lemma SingularComesBack(f: Field, v: Value)
    requires FieldOk(f) && f.htype == Singular && ValueOk(f, v)
    ensures NormalSlot(f, Single(false, v)) == Single(false, NormalValue(f, v)) <==>
      f.default.None? || !DefaultValueHeld(f, v) || f.default.value == NormalValue(f, v)
  {
    if f.ltype == Submessage {
      if DefaultValueHeld(f, v) { AbsentMessageIsNormal(f, v.m); }
      assert v.Msg? && NormalValue(f, v) == Msg(NormalMessage(f.sub, v.m)) && f.default.None?;
      assert DefaultValue(f) == Msg(DefaultMessage(f.sub));
      hide NormalMessage, DefaultMessage, MessageOk, TypeOk, DefaultFieldsHeld;
    } else {
      DefaultIsNormal(f, v);
      hide NormalValue, DefaultValue, DefaultValueHeld, ValueOk, FieldOk;
    }
  }

  // Types without defaults, as those of proto3 are
  ghost predicate NoDefaults(fields: seq<Field>)
    decreases fields
  {
    forall i | 0 <= i < |fields| :: fields[i].default.None? && (fields[i].ltype == Submessage ==> NoDefaults(fields[i].sub))
  }

  // ---- Messages of such types ----

  // The message as it was said: strings up to their terminator, and nothing
  // behind a flag that is off or in a union that has no declared member selected.
  ghost function Said(fields: seq<Field>, m: Message): Message
    decreases fields, 2
  {
    Message(seq(|fields|, i requires 0 <= i < |fields| => if i < |m.slots| then SaidSlot(fields[i], m.slots[i]) else DefaultSlot(fields[i])),
            map g | g in Groups(fields) :: SaidUnion(fields, m, g, |fields|))
  }

  ghost function SaidValue(f: Field, v: Value): Value
    decreases f, 0
  {
    match v
    case Num(_) => v
    case Data(bytes) => if f.ltype == String then Data(CString(bytes)) else v
    case Msg(m) => Msg(Said(f.sub, m))
  }

  ghost function SaidSlot(f: Field, slot: Slot): Slot
    decreases f, 1
  {
    match slot
    case Single(has, v) => if f.htype.Optional? && !has then DefaultSlot(f) else Single(has && f.htype.Optional?, SaidValue(f, v))
    case Many(items) => Many(seq(|items|, k requires 0 <= k < |items| => SaidValue(f, items[k])))
    case InUnion => InUnion
  }

  ghost function SaidUnion(fields: seq<Field>, m: Message, g: nat, i: nat): Union
    requires i <= |fields|
    decreases fields, 1, i
  {
    if i == 0 then Union(0, Num(0))
    else
      var f := fields[i - 1];
      if f.htype == Oneof(g) && g in m.unions && m.unions[g].which == f.tag then Union(f.tag, SaidValue(f, m.unions[g].content))
      else SaidUnion(fields, m, g, i - 1)
  }

  lemma {:induction false} ValueIsSaid(f: Field, v: Value)
    requires FieldOk(f) && ValueOk(f, v) && (f.ltype == Submessage ==> NoDefaults(f.sub))
    ensures NormalValue(f, v) == SaidValue(f, v)
    decreases f, 0
  {
    if f.ltype == Submessage {
      MessageIsSaid(f.sub, v.m);
    }
    hide MessageOk, TypeOk, NormalMessage, Said;
  }

  lemma {:induction false} SlotIsSaid(fields: seq<Field>, m: Message, i: nat)
    requires TypeOk(fields) && NoDefaults(fields) && MessageOk(fields, m) && i < |fields| == |m.slots|
    ensures NormalSlot(fields[i], m.slots[i]) == SaidSlot(fields[i], m.slots[i])
    decreases fields, 0
  {
    assert SlotOk(fields, m, i);
    var f := fields[i];
    assert FieldOk(f) && f.default.None? && (f.ltype == Submessage ==> NoDefaults(f.sub));
    hide TypeOk, NoDefaults, FieldOk, MessageOk, ValueOk, NormalValue, SaidValue, DefaultValueHeld, DefaultValue;
    match m.slots[i]
    case Single(has, v) =>
      if f.htype != Optional || has { ValueIsSaid(f, v); }
      if f.htype == Singular { SingularComesBack(f, v); }
    case Many(items) =>
      forall k | 0 <= k < |items|
        ensures NormalValue(f, items[k]) == SaidValue(f, items[k])
      {
        ValueIsSaid(f, items[k]);
      }
      assert NormalItems(f, items) == SaidSlot(f, m.slots[i]).items;
    case InUnion =>
  }

  lemma {:induction false} UnionIsSaid(fields: seq<Field>, m: Message, g: nat, i: nat)
    requires TypeOk(fields) && NoDefaults(fields) && MessageOk(fields, m) && i <= |fields|
    ensures NormalUnion(fields, m, g, i) == SaidUnion(fields, m, g, i)
    decreases fields, 0, i
  {
    hide NormalValue, SaidValue, DefaultValueHeld;
    if i > 0 {
      UnionIsSaid(fields, m, g, i - 1);
      var f := fields[i - 1];
      if f.htype == Oneof(g) && g in m.unions && m.unions[g].which == f.tag {
        assert SlotOk(fields, m, i - 1) && FieldOk(f);
        hide TypeOk, MessageOk, ValueOk, FieldOk;
        ValueIsSaid(f, m.unions[g].content);
      }
    }
  }

  // The normal form says nothing else than the message itself.
  lemma {:induction false} MessageIsSaid(fields: seq<Field>, m: Message)
    requires TypeOk(fields) && NoDefaults(fields) && MessageOk(fields, m)
    ensures NormalMessage(fields, m) == Said(fields, m)
    decreases fields, 1
  {
    MessageShape(fields, m);
    hide TypeOk, NoDefaults, MessageOk, NormalSlot, SaidSlot, DefaultSlot, NormalUnion, SaidUnion;
    forall i | 0 <= i < |fields|
      ensures NormalSlot(fields[i], m.slots[i]) == SaidSlot(fields[i], m.slots[i])
    {
      SlotIsSaid(fields, m, i);
    }
    forall g | g in Groups(fields)
      ensures NormalUnion(fields, m, g, |fields|) == SaidUnion(fields, m, g, |fields|)
    {
      UnionIsSaid(fields, m, g, |fields|);
    }
    assert NormalMessage(fields, m).slots == Said(fields, m).slots;
  }

  // So what is encoded, and is shorter than 2^32 bytes, is decoded as it was
  // said: no value is lost by being left out.
  lemma SaidComesBack(fields: seq<Field>, m: Message)
    requires TypeOk(fields) && NoDefaults(fields) && MessageOk(fields, m)
    requires MessageBytes(fields, m).Some? && |MessageBytes(fields, m).value| < TWO_32
    ensures Decode(fields, MessageBytes(fields, m).value) == Some((Said(fields, m), []))
  {
    hide TypeOk, NoDefaults, MessageOk, Said, NormalMessage, LengthsFit, FieldsBytes, Decode;
    MessageShape(fields, m);
    SmallFits(fields, m, 0);
    MessageRoundTrip(fields, m);
    MessageIsSaid(fields, m);
  }

  // In any type, a field without a flag and without a default comes back.
  lemma SingularRoundTrip(fields: seq<Field>, m: Message, i: nat)
    requires TypeOk(fields) && MessageOk(fields, m) && i < |fields| && fields[i].htype == Singular && fields[i].default.None?
    requires MessageBytes(fields, m).Some? && |MessageBytes(fields, m).value| < TWO_32
    ensures |m.slots| == |fields| && m.slots[i].Single?
    ensures var r := Decode(fields, MessageBytes(fields, m).value);
      r.Some? && |r.value.0.slots| == |fields| && r.value.0.slots[i] == Single(false, NormalValue(fields[i], m.slots[i].v))
  {
    assert SlotOk(fields, m, i);
    MessageShape(fields, m);
    FieldOfType(fields, i);
    SingularComesBack(fields[i], m.slots[i].v);
    assert |NormalMessage(fields, m).slots| == |fields|;
    assert NormalMessage(fields, m).slots[i] == NormalSlot(fields[i], m.slots[i]);
    hide TypeOk, MessageOk, NormalMessage, LengthsFit, FieldsBytes, Decode, NormalSlot;
    SmallFits(fields, m, 0);
    MessageRoundTrip(fields, m);
  }
}
