// A decoder that was built for an older type reads the messages of a newer one:
// the fields it does not declare are skipped, whatever the encoder wrote.
module PbNewer {
  import opened Wire
  import opened PbVarint
  import opened PbMessage
  import opened PbDecode
  import opened PbRoundTrip

  // ---- Skipping a value ----

  lemma {:induction false} VarintIsSkipped(value: nat, rest: seq<byte>)
    ensures SkipVarint(EncodeVarint(value) + rest) == Some(rest)
    decreases value
  {
    var s := EncodeVarint(value) + rest;
    if value < 128 {
      assert s[1..] == rest;
    } else {
      assert s[1..] == EncodeVarint(value / 128) + rest;
      VarintIsSkipped(value / 128, rest);
    }
  }

  lemma NumberIsSkipped(f: Field, n: int, rest: seq<byte>)
    requires NumFits(f, n)
    ensures SkipField(WireType(f.ltype), NumBytes(f, n).value + rest) == Some(rest)
  {
    hide SkipVarint, EncodeVarint;
    match f.ltype
    case Fixed32 => FixedThenRest(n, 4, rest);
    case Fixed64 => FixedThenRest(n, 8, rest);
    case Varint => VarintIsSkipped(Word64(n), rest);
    case UVarint => VarintIsSkipped(n, rest);
    case SVarint => VarintIsSkipped(ZigZag(n), rest);
  }

  lemma ChunkIsSkipped(bytes: seq<byte>, rest: seq<byte>)
    requires |bytes| < MAX_OBJECT
    ensures SkipField(2, Delimited(bytes) + rest) == if |bytes| < TWO_32 then Some(rest) else None
  {
    ChunkRoundTrip(bytes, rest);
    hide Chunk, Delimited;
  }

  // The wire type says enough to find the end of any value that was encoded.
  lemma ValueIsSkipped(f: Field, v: Value, rest: seq<byte>)
    requires FieldOk(f) && ValueOk(f, v) && ValueBytes(f, v).Some? && |ValueBytes(f, v).value| < MAX_OBJECT
    ensures SkipField(WireType(f.ltype), ValueBytes(f, v).value + rest) == if ChunkFits(f, v) then Some(rest) else None
  {
    if f.ltype == Submessage {
      hide SkipField, Delimited, FieldOk;
      SubmessageBytes(f, v);
      ChunkIsSkipped(FieldsBytes(f.sub, v.m, 0).value, rest);
    } else if Numeric(f.ltype) {
      hide SkipField, NumBytes, FieldOk;
      NumberValue(f, v);
      NumberIsSkipped(f, v.n, rest);
    } else {
      var bytes := DataBytes(f, v, v, rest);
      hide SkipField, Delimited, ValueOk, FieldOk, ValueBytes, ChunkFits;
      ChunkIsSkipped(bytes, rest);
    }
  }

  // ---- Skipping a field ----

  ghost predicate Undeclared(fields: seq<Field>, tag: nat) {
    forall i | 0 <= i < |fields| :: fields[i].tag != tag
  }

  lemma UndeclaredPass(fields: seq<Field>, tag: nat, wireType: nat, s: seq<byte>, st: State)
    requires |st.m.slots| == |fields| && 1 <= tag < 0x2000_0000 && wireType < 8 && Undeclared(fields, tag)
    ensures var r := SkipField(wireType, s);
      DecodeLoop(fields, Key(tag, wireType) + s, st) == if r.None? then None else DecodeLoop(fields, r.value, st)
  {
    KeyDecodes(tag, wireType, s);
    var all := Key(tag, wireType) + s;
    hide DecodeVarint32, SkipField, Key;
    assert (tag * 8 + wireType) / 8 == tag && (tag * 8 + wireType) % 8 == wireType;
    assert Find(fields, tag).None?;
    LoopFollowsPass(fields, all, st);
  }

  lemma TagInRange(f: Field)
    requires FieldOk(f)
    ensures 1 <= f.tag < 0x2000_0000
  {
  }

  lemma UndeclaredValue(fields: seq<Field>, f: Field, v: Value, rest: seq<byte>, st: State)
    requires |st.m.slots| == |fields| && FieldOk(f) && ValueOk(f, v) && Undeclared(fields, f.tag)
    requires TaggedBytes(f, v).Some? && |TaggedBytes(f, v).value| < MAX_OBJECT
    ensures DecodeLoop(fields, TaggedBytes(f, v).value + rest, st) == if ChunkFits(f, v) then DecodeLoop(fields, rest, st) else None
  {
    hide *;
    TagInRange(f);
    Tagged(f, v);
    ValueIsSkipped(f, v, rest);
    assert TaggedBytes(f, v).value + rest == Key(f.tag, WireType(f.ltype)) + (ValueBytes(f, v).value + rest);
    UndeclaredPass(fields, f.tag, WireType(f.ltype), ValueBytes(f, v).value + rest, st);
  }

  lemma {:induction false} UndeclaredItems(fields: seq<Field>, f: Field, items: seq<Value>, k: nat, rest: seq<byte>, st: State)
    requires |st.m.slots| == |fields| && FieldOk(f) && Undeclared(fields, f.tag) && k <= |items|
    requires forall j | 0 <= j < |items| :: ValueOk(f, items[j])
    requires ItemsBytes(f, items[k..]).Some? && |ItemsBytes(f, items[k..]).value| < MAX_OBJECT
    ensures DecodeLoop(fields, ItemsBytes(f, items[k..]).value + rest, st)
         == if ItemsFit(f, items, k) then DecodeLoop(fields, rest, st) else None
    decreases |items| - k
  {
    hide *;
    var bytes := ItemsBytes(f, items[k..]).value;
    if k == |items| {
      NothingLeftFits(f, items);
      assert bytes + rest == rest;
    } else {
      ItemsUnfold(f, items, k);
      ItemsFitUnfolds(f, items, k);
      var more := ItemsBytes(f, items[k + 1..]).value;
      assert bytes + rest == TaggedBytes(f, items[k]).value + (more + rest);
      UndeclaredValue(fields, f, items[k], more + rest, st);
      UndeclaredItems(fields, f, items, k + 1, rest, st);
    }
  }

  // Whatever the encoder writes for a field under a tag that the type does not
  // declare is skipped, and leaves the message as it is, exactly when the field
  // could be read back by a decoder that declares it.
  lemma UndeclaredField(fields: seq<Field>, newer: seq<Field>, m: Message, i: nat, rest: seq<byte>, st: State)
    requires |st.m.slots| == |fields| && TypeOk(newer) && MessageOk(newer, m) && i < |newer| == |m.slots|
    requires Undeclared(fields, newer[i].tag)
    requires FieldBytes(newer, m, i).Some? && |FieldBytes(newer, m, i).value| < MAX_OBJECT
    ensures DecodeLoop(fields, FieldBytes(newer, m, i).value + rest, st)
         == if FieldFits(newer, m, i) then DecodeLoop(fields, rest, st) else None
  {
    hide *;
    FieldOfType(newer, i);
    var f, bytes := newer[i], FieldBytes(newer, m, i).value;
    if !IsArray(f) {
      OneValue(newer, m, i);
      if Present(newer, m, i).Some? {
        UndeclaredValue(fields, f, Present(newer, m, i).value, rest, st);
      } else {
        assert bytes + rest == rest;
      }
    } else {
      ItemsOk(newer, m, i);
      ArrayShape(newer, m, i);
      var items := m.slots[i].items;
      if items == [] {
        assert bytes + rest == rest;
      } else if Numeric(f.ltype) {
        var payload := PackedBytes(f, items).value;
        ChunkIsSkipped(payload, rest);
        assert bytes + rest == Key(f.tag, 2) + (Delimited(payload) + rest);
        UndeclaredPass(fields, f.tag, 2, Delimited(payload) + rest, st);
      } else {
        assert items[0..] == items;
        UndeclaredItems(fields, f, items, 0, rest, st);
      }
    }
  }

  // Between two fields, or before the first or after the last, it changes nothing.
  lemma EncodedFieldIsIgnored(fields: seq<Field>, p: seq<byte>, newer: seq<Field>, n: Message, i: nat, b: seq<byte>, m: Message, st: State)
    requires |m.slots| == |fields| && TypeOk(newer) && MessageOk(newer, n) && i < |newer| == |n.slots|
    requires Undeclared(fields, newer[i].tag) && Fields(fields, p, State(m, {}, None, 0), st)
    requires FieldBytes(newer, n, i).Some? && |FieldBytes(newer, n, i).value| < MAX_OBJECT
    ensures DecodeNoinit(fields, p + FieldBytes(newer, n, i).value + b, m)
         == if FieldFits(newer, n, i) then DecodeNoinit(fields, p + b, m) else None
  {
    var start, u := State(m, {}, None, 0), FieldBytes(newer, n, i).value;
    assert p + u + b == p + (u + b);
    hide DecodeLoop, Fields, FieldBytes, FieldFits, TypeOk, MessageOk, Undeclared, Complete;
    FieldsThenRest(fields, p, u + b, start, st);
    FieldsThenRest(fields, p, b, start, st);
    UndeclaredField(fields, newer, n, i, b, st);
  }

  // ---- Messages of a newer type ----

  // From position j on, the newer type has the fields of the older one from i on,
  // in their order and with the same content, and others that it does not declare.
  ghost predicate Extends(newer: seq<Field>, n: Message, j: nat, older: seq<Field>, m: Message, i: nat)
    requires j <= |newer| == |n.slots| && i <= |older| == |m.slots|
    decreases |newer| - j
  {
    if j == |newer| then i == |older|
    else if Undeclared(older, newer[j].tag) then Extends(newer, n, j + 1, older, m, i)
    else
      && i < |older| && newer[j] == older[i] && n.slots[j] == m.slots[i]
      && Extends(newer, n, j + 1, older, m, i + 1)
  }

  ghost predicate SameUnions(n: Message, m: Message) {
    forall g | g in m.unions :: g in n.unions && n.unions[g] == m.unions[g]
  }

  lemma SameField(newer: seq<Field>, n: Message, j: nat, older: seq<Field>, m: Message, i: nat)
    requires j < |newer| == |n.slots| && i < |older| == |m.slots| && newer[j] == older[i] && n.slots[j] == m.slots[i]
    requires SameUnions(n, m) && MessageOk(older, m)
    ensures FieldBytes(newer, n, j) == FieldBytes(older, m, i) && FieldFits(newer, n, j) == FieldFits(older, m, i)
  {
    assert SlotOk(older, m, i);
    hide TaggedBytes, ArrayBytes, DefaultValueHeld, ChunkFits, ArrayFits, ValueOk;
  }

  lemma {:induction false} LoopReadsNewer(newer: seq<Field>, n: Message, j: nat, older: seq<Field>, m: Message, i: nat, st: State) returns (st': State)
    requires TypeOk(newer) && MessageOk(newer, n) && TypeOk(older) && MessageOk(older, m)
    requires j <= |newer| == |n.slots| && i <= |older| == |m.slots|
    requires Extends(newer, n, j, older, m, i) && SameUnions(n, m) && Ready(older, m, i, st)
    requires FieldsBytes(newer, n, j).Some? && |FieldsBytes(newer, n, j).value| < MAX_OBJECT
    ensures |st.m.slots| == |st'.m.slots| == |older| && Ready(older, m, |older|, st')
    ensures DecodeLoop(older, FieldsBytes(newer, n, j).value, st) == if LengthsFit(newer, n, j) then Some((st', [])) else None
    decreases |newer| - j
  {
    hide *;
    ReadyShape(older, m, i, st);
    ExtendsUnfolds(newer, n, j, older, m, i);
    if j == |newer| {
      st' := st;
      NothingIsLeft(newer, n, older, st);
    } else {
      FieldsUnfold(newer, n, j);
      LengthsUnfold(newer, n, j);
      var rest := FieldsBytes(newer, n, j + 1).value;
      if Undeclared(older, newer[j].tag) {
        UndeclaredField(older, newer, n, j, rest, st);
        st' := LoopReadsNewer(newer, n, j + 1, older, m, i, st);
      } else {
        SameField(newer, n, j, older, m, i);
        var next;
        if IsArray(older[i]) {
          next := ArrayRoundTrip(older, m, i, rest, st);
        } else {
          next := OneRoundTrip(older, m, i, rest, st);
        }
        st' := LoopReadsNewer(newer, n, j + 1, older, m, i + 1, next);
      }
    }
  }

  lemma ExtendsUnfolds(newer: seq<Field>, n: Message, j: nat, older: seq<Field>, m: Message, i: nat)
    requires j <= |newer| == |n.slots| && i <= |older| == |m.slots| && Extends(newer, n, j, older, m, i)
    ensures if j == |newer| then i == |older|
            else if Undeclared(older, newer[j].tag) then Extends(newer, n, j + 1, older, m, i)
            else
              && i < |older| && newer[j] == older[i] && n.slots[j] == m.slots[i]
              && Extends(newer, n, j + 1, older, m, i + 1)
  {
    hide Undeclared;
  }

  lemma NothingIsLeft(newer: seq<Field>, n: Message, older: seq<Field>, st: State)
    requires |newer| == |n.slots| && |st.m.slots| == |older|
    ensures FieldsBytes(newer, n, |newer|) == Some([]) && LengthsFit(newer, n, |newer|)
    ensures DecodeLoop(older, [], st) == Some((st, []))
  {
  }

  // A message of the newer type, read with the older one, is the message without
  // the fields that the older type does not declare.
  lemma OlderReadsNewer(newer: seq<Field>, n: Message, older: seq<Field>, m: Message)
    requires TypeOk(newer) && MessageOk(newer, n) && TypeOk(older) && MessageOk(older, m)
    requires |newer| == |n.slots| && |older| == |m.slots| && Extends(newer, n, 0, older, m, 0) && SameUnions(n, m)
    requires MessageBytes(newer, n).Some? && |MessageBytes(newer, n).value| < MAX_OBJECT
    ensures Decode(older, MessageBytes(newer, n).value)
         == if LengthsFit(newer, n, 0) then Some((NormalMessage(older, m), [])) else None
  {
    hide Ready, LengthsFit, DecodeLoop, MessageOk, TypeOk, FieldsBytes, DefaultMessage, NormalMessage, Complete, Extends, SameUnions;
    ReadyAtStart(older, m);
    var st' := LoopReadsNewer(newer, n, 0, older, m, 0, State(DefaultMessage(older), {}, None, 0));
    ReadyAtEnd(older, m, st');
  }
}
