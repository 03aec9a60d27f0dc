// The nanopb encoder: an output stream that writes, or only counts.
module PbFieldIter {
  import opened PbMessage
  import opened PbDecode

  // pb_field_iter_t.  Past the last field it starts again; only in an empty
  // message type does it stand on the terminator.
  class FieldIter {
    var fields: seq<Field>
    var pos: nat
    var requiredFieldIndex: nat

    ghost predicate Valid()
      reads this
    {
      && (if fields == [] then pos == 0 else pos < |fields|)
      && requiredFieldIndex == RequiredBefore(fields, pos)
    }

    // pb_field_iter_begin
    constructor (f: seq<Field>)
      ensures Valid() && fields == f && pos == 0
    {
      fields, pos, requiredFieldIndex := f, 0, 0;
    }

    function Tag(): nat
      requires Valid()
      reads this
    {
      if fields == [] then 0 else fields[pos].tag
    }

    // pb_field_iter_next
    method Next() returns (more: bool)
      requires Valid()
      modifies this`pos, this`requiredFieldIndex
      ensures Valid()
      ensures more <==> old(pos) + 1 < |fields|
      ensures pos == if old(pos) + 1 < |fields| then old(pos) + 1 else 0
    {
      if fields == [] {
        return false;
      }
      var prev := fields[pos];
      if pos + 1 == |fields| {
        pos, requiredFieldIndex := 0, 0;
        return false;
      }
      pos := pos + 1;
      if prev.htype.Required? {
        requiredFieldIndex := requiredFieldIndex + 1;
      }
      return true;
    }

    // pb_field_iter_find: all the way round, from wherever the iterator stands.
    method Find(tag: nat) returns (found: bool)
      requires Valid()
      modifies this`pos, this`requiredFieldIndex
      ensures Valid()
      ensures found <==> (fields == [] && tag == 0) || exists i :: 0 <= i < |fields| && fields[i].tag == tag
      ensures if found then Tag() == tag else pos == old(pos)
    {
      var start := pos;
      ghost var turned := false;
      while true
        invariant Valid() && (fields == [] ==> !turned)
        invariant !turned ==> start <= pos && forall i | start <= i < pos :: fields[i].tag != tag
        invariant turned ==> pos < start && forall i | 0 <= i < |fields| && (start <= i || i < pos) :: fields[i].tag != tag
        decreases if turned then start - pos else start + |fields| + 1 - pos
      {
        if Tag() == tag {
          return true;
        }
        var more := Next();
        turned := turned || (!more && fields != [] && pos != start);
        if pos == start {
          return false;
        }
      }
    }
  }
}

module PbEncoder {
  import opened Wire
  import opened PbVarint
  import opened PbMessage
  import opened PbFieldIter

  // ---- What a stream is, and what writing to it does ----

  // Without a callback the stream only counts (PB_OSTREAM_SIZING).
  datatype Out = Out(sizing: bool, maxSize: nat, written: nat, pos: nat, memory: seq<byte>)

  ghost predicate OutOk(a: Out) {
    !a.sizing ==> a.written <= a.maxSize && a.pos + (a.maxSize - a.written) <= |a.memory|
  }

  ghost predicate Fits(a: Out, n: nat) {
    a.sizing || a.written + n <= a.maxSize
  }

  // The stream after the bytes were written.
  ghost function Written(a: Out, bytes: seq<byte>): Out
    requires OutOk(a) && Fits(a, |bytes|)
  {
    if a.sizing then a.(written := a.written + |bytes|)
    else
      a.(written := a.written + |bytes|, pos := a.pos + |bytes|,
         memory := a.memory[..a.pos] + bytes + a.memory[a.pos + |bytes|..])
  }

  // A failed write may have left part of the bytes, but only within the space the stream owns.
  ghost predicate Within(a: Out, b: Out)
    requires OutOk(a)
  {
    && |b.memory| == |a.memory| && b.sizing == a.sizing && b.maxSize == a.maxSize
    && if a.sizing then b.memory == a.memory
       else b.memory[..a.pos] == a.memory[..a.pos]
            && b.memory[a.pos + (a.maxSize - a.written)..] == a.memory[a.pos + (a.maxSize - a.written)..]
  }

  // Writing succeeds exactly when there are bytes to write and they fit.
  ghost predicate Outcome(a: Out, b: Out, ok: bool, bytes: Option<seq<byte>>) {
    && OutOk(a) && OutOk(b)
    && (ok <==> bytes.Some? && Fits(a, |bytes.value|))
    && if ok then b == Written(a, bytes.value) else Within(a, b)
  }

  lemma OutcomeThen(a: Out, b: Out, c: Out, ok: bool, x: Option<seq<byte>>, y: Option<seq<byte>>)
    requires Outcome(a, b, true, x) && Outcome(b, c, ok, y)
    ensures Outcome(a, c, ok, Append(x, y))
  {
    if !a.sizing {
      if ok {
        assert c.memory == Written(a, x.value + y.value).memory;
      } else {
        WithinThen(a, b, c, x.value);
      }
    }
  }

  lemma WithinThen(a: Out, b: Out, c: Out, x: seq<byte>)
    requires OutOk(a) && OutOk(b) && !a.sizing && Fits(a, |x|) && b == Written(a, x) && Within(b, c)
    ensures Within(a, c)
  {
    var end := a.pos + (a.maxSize - a.written);
    assert c.memory[..b.pos][..a.pos] == c.memory[..a.pos];
    assert b.memory[..b.pos][..a.pos] == b.memory[..a.pos] == a.memory[..a.pos];
    assert b.memory[end..] == a.memory[end..];
  }

  lemma OutcomeFailed(a: Out, b: Out, x: Option<seq<byte>>, y: Option<seq<byte>>)
    requires Outcome(a, b, false, x)
    ensures Outcome(a, b, false, Append(x, y))
  {
  }

  lemma OutcomeNothing(a: Out)
    requires OutOk(a)
    ensures Outcome(a, a, true, Some([])) && Outcome(a, a, false, None)
  {
    if !a.sizing {
      assert a.memory == a.memory[..a.pos] + [] + a.memory[a.pos..];
    }
  }

  // A sizing stream always succeeds where a real one can.
  lemma OutcomeSized(a: Out, b: Out, ok: bool, bytes: Option<seq<byte>>)
    requires a.sizing && Outcome(a, b, ok, bytes)
    ensures ok <==> bytes.Some?
    ensures ok ==> b.written == a.written + |bytes.value|
  {
  }

  // Sizing and writing agree: the count from a sizing stream is what a real
  // one writes, and a real one succeeds exactly when sizing does and the
  // count fits in what is left.
  lemma SizingEqualsWriting(s: Out, s': Out, sized: bool, w: Out, w': Out, ok: bool, bytes: Option<seq<byte>>)
    requires s.sizing && !w.sizing
    requires Outcome(s, s', sized, bytes) && Outcome(w, w', ok, bytes)
    ensures ok <==> sized && w.written + (s'.written - s.written) <= w.maxSize
    ensures ok ==> w'.written - w.written == s'.written - s.written == w'.pos - w.pos
  {
  }

  // A substream over the next |body| bytes of a stream.
  lemma OutcomeOfSubstream(a: Out, sub: Out, body: seq<byte>)
    requires OutOk(a) && !a.sizing && Fits(a, |body|)
    requires Outcome(Out(false, |body|, 0, a.pos, a.memory), sub, true, Some(body))
    ensures sub.written == |body|
    ensures Outcome(a, Out(false, a.maxSize, a.written + sub.written, sub.pos, sub.memory), true, Some(body))
  {
  }

  lemma AppendSome(x: seq<byte>, y: seq<byte>)
    ensures Append(Some(x), Some(y)) == Some(x + y)
  {
  }

  function Last(s: seq<byte>): byte
    requires |s| > 0
  {
    s[|s| - 1]
  }

  // ---- What the types of a C struct guarantee ----

  ghost predicate ValueShaped(f: Field, v: Value)
    decreases f, 0
  {
    match f.ltype
    case Submessage => v.Msg? && Shaped(f.sub, v.m)
    case Bytes => v.Data?
    case String => v.Data? && |v.bytes| <= f.dataSize
    case FixedLengthBytes => v.Data? && |v.bytes| == f.dataSize
    case _ => v.Num? && (f.dataSize in {1, 2, 4, 8} || f.ltype in {Fixed32, Fixed64} ==> NumFits(f, v.n))
  }

  ghost predicate SlotShaped(fields: seq<Field>, m: Message, i: nat)
    requires i < |fields| == |m.slots|
    decreases fields, 0
  {
    var f, slot := fields[i], m.slots[i];
    match f.htype
    case Repeated => slot.Many? && forall k | 0 <= k < |slot.items| :: ValueShaped(f, slot.items[k])
    case FixedCount => slot.Many? && |slot.items| == f.arraySize && forall k | 0 <= k < |slot.items| :: ValueShaped(f, slot.items[k])
    case Oneof(g) => slot.InUnion? && (g in m.unions && m.unions[g].which == f.tag ==> ValueShaped(f, m.unions[g].content))
    case Optional => slot.Single? && (slot.has ==> ValueShaped(f, slot.v))
    case _ => slot.Single? && ValueShaped(f, slot.v)
  }

  ghost predicate Shaped(fields: seq<Field>, m: Message)
    decreases fields, 1
  {
    |m.slots| == |fields| && forall i | 0 <= i < |fields| :: SlotShaped(fields, m, i)
  }

  lemma {:induction false} OkValueIsShaped(f: Field, v: Value)
    requires ValueOk(f, v)
    ensures ValueShaped(f, v)
    decreases f, 0
  {
    if f.ltype == Submessage {
      OkIsShaped(f.sub, v.m);
    }
  }

  lemma {:induction false} OkIsShaped(fields: seq<Field>, m: Message)
    requires MessageOk(fields, m)
    ensures Shaped(fields, m)
    decreases fields, 1
  {
    forall i | 0 <= i < |fields|
      ensures SlotShaped(fields, m, i)
    {
      assert SlotOk(fields, m, i);
      forall v | ValueOk(fields[i], v)
        ensures ValueShaped(fields[i], v)
      {
        OkValueIsShaped(fields[i], v);
      }
      hide ValueOk, ValueShaped;
    }
  }

  // ---- Submessages ----

  function SubmessageBytes(fields: seq<Field>, m: Message): Option<seq<byte>> {
    var body := MessageBytes(fields, m);
    if body.None? then None else Some(Delimited(body.value))
  }

  lemma SubmessageValue(f: Field, m: Message)
    requires f.ltype == Submessage
    ensures ValueBytes(f, Msg(m)) == SubmessageBytes(f.sub, m)
  {
  }

  lemma NoSubmessage(a: Out, fields: seq<Field>, m: Message)
    requires OutOk(a) && MessageBytes(fields, m).None?
    ensures Outcome(a, a, false, SubmessageBytes(fields, m))
  {
    OutcomeNothing(a);
  }

  // After the length
  lemma SubmessageHead(a: Out, b: Out, ok: bool, fields: seq<Field>, m: Message)
    requires MessageBytes(fields, m).Some?
    requires Outcome(a, b, ok, Some(PbVarint.EncodeVarint(|MessageBytes(fields, m).value|)))
    ensures !ok ==> Outcome(a, b, false, SubmessageBytes(fields, m))
    ensures ok ==> forall c, done :: Outcome(b, c, done, MessageBytes(fields, m)) ==> Outcome(a, c, done, SubmessageBytes(fields, m))
  {
    var body := MessageBytes(fields, m);
    var head := PbVarint.EncodeVarint(|body.value|);
    AppendSome(head, body.value);
    hide Outcome, MessageBytes;
    if !ok {
      OutcomeFailed(a, b, Some(head), body);
    } else {
      forall c, done | Outcome(b, c, done, body)
        ensures Outcome(a, c, done, SubmessageBytes(fields, m))
      {
        OutcomeThen(a, b, c, done, Some(head), body);
      }
    }
  }

  lemma OutcomeFull(b: Out, bytes: seq<byte>)
    requires OutOk(b) && !b.sizing && b.written + |bytes| > b.maxSize
    ensures Outcome(b, b, false, Some(bytes))
  {
  }

  // A substream of just the right size takes the body.
  lemma OutcomeInSubstream(b: Out, sub: Out, ok: bool, body: seq<byte>)
    requires OutOk(b) && !b.sizing && b.written + |body| <= b.maxSize
    requires Outcome(Out(false, |body|, 0, b.pos, b.memory), sub, ok, Some(body))
    ensures ok && sub.written == |body|
    ensures Outcome(b, Out(false, b.maxSize, b.written + sub.written, sub.pos, sub.memory), true, Some(body))
  {
    OutcomeOfSubstream(b, sub, body);
  }

  lemma SubstreamOk(b: Out, size: nat)
    requires OutOk(b) && !b.sizing && b.written + size <= b.maxSize
    ensures OutOk(Out(false, size, 0, b.pos, b.memory))
  {
  }

  // ---- Arrays ----

  lemma {:induction false} PackedPrefix(f: Field, items: seq<Value>, k: nat)
    requires k < |items|
    ensures PackedBytes(f, items[k..]) == Append(ValueBytes(f, items[k]), PackedBytes(f, items[k + 1..]))
  {
    hide ValueBytes;
    assert items[k..][1..] == items[k + 1..];
  }

  lemma ItemsPrefix(f: Field, items: seq<Value>, k: nat)
    requires k < |items|
    ensures ItemsBytes(f, items[k..]) == Append(TaggedBytes(f, items[k]), ItemsBytes(f, items[k + 1..]))
  {
    hide TaggedBytes;
    assert items[k..][1..] == items[k + 1..];
  }

  function PackedArrayBytes(f: Field, items: seq<Value>): Option<seq<byte>> {
    var payload := PackedBytes(f, items);
    if payload.None? then None else Some(Key(f.tag, 2) + Delimited(payload.value))
  }

  lemma PackedHead(a: Out, b: Out, ok: bool, f: Field, items: seq<Value>)
    requires Outcome(a, b, ok, Some(Key(f.tag, 2)))
    ensures !ok || PackedBytes(f, items).None? ==> Outcome(a, b, false, PackedArrayBytes(f, items))
  {
    var payload := PackedBytes(f, items);
    hide Outcome, Key, Delimited, PackedBytes;
    if !ok {
      OutcomeFailed(a, b, Some(Key(f.tag, 2)), if payload.None? then None else Some(Delimited(payload.value)));
    } else if payload.None? {
      OutcomeOk(a, b, ok, Some(Key(f.tag, 2)));
      OutcomeNothing(b);
      OutcomeThen(a, b, b, false, Some(Key(f.tag, 2)), None);
    }
  }

  lemma OutcomeOk(a: Out, b: Out, ok: bool, x: Option<seq<byte>>)
    requires Outcome(a, b, ok, x)
    ensures OutOk(b)
  {
  }

  // After the key and the length
  lemma PackedLength(a: Out, b: Out, c: Out, ok: bool, f: Field, items: seq<Value>)
    requires Outcome(a, b, true, Some(Key(f.tag, 2))) && PackedBytes(f, items).Some?
    requires Outcome(b, c, ok, Some(PbVarint.EncodeVarint(|PackedBytes(f, items).value|)))
    ensures !ok ==> Outcome(a, c, false, PackedArrayBytes(f, items))
    ensures ok ==> forall d, done :: Outcome(c, d, done, PackedBytes(f, items)) ==> Outcome(a, d, done, PackedArrayBytes(f, items))
  {
    var key, payload := Key(f.tag, 2), PackedBytes(f, items);
    var length := PbVarint.EncodeVarint(|payload.value|);
    AppendSome(length, payload.value);
    AppendSome(key, Delimited(payload.value));
    hide Outcome, Key, PackedBytes;
    if !ok {
      OutcomeFailed(b, c, Some(length), payload);
      OutcomeThen(a, b, c, false, Some(key), Some(Delimited(payload.value)));
    } else {
      forall d, done | Outcome(c, d, done, payload)
        ensures Outcome(a, d, done, PackedArrayBytes(f, items))
      {
        OutcomeThen(b, c, d, done, Some(length), payload);
        OutcomeThen(a, b, d, done, Some(key), Some(Delimited(payload.value)));
      }
    }
  }

  lemma NoItems(f: Field, items: seq<Value>)
    requires items == []
    ensures ItemsBytes(f, items) == Some([])
  {
  }

  // What is known part of the way: the first bytes are written, the rest is to come.
  ghost predicate Progress(a: Out, b: Out, all: Option<seq<byte>>, rest: Option<seq<byte>>) {
    forall c, ok :: Outcome(b, c, ok, rest) ==> Outcome(a, c, ok, all)
  }

  lemma ProgressStep(a: Out, b: Out, c: Out, ok: bool, all: Option<seq<byte>>, rest: Option<seq<byte>>,
                     x: Option<seq<byte>>, rest': Option<seq<byte>>)
    requires Progress(a, b, all, rest) && rest == Append(x, rest') && Outcome(b, c, ok, x)
    ensures if ok then Progress(a, c, all, rest') else Outcome(a, c, false, all)
  {
    hide Outcome;
    if ok {
      forall d, ok' | Outcome(c, d, ok', rest')
        ensures Outcome(a, d, ok', all)
      {
        OutcomeThen(b, c, d, ok', x, rest');
      }
    } else {
      OutcomeFailed(b, c, x, rest');
    }
  }

  lemma ProgressDone(a: Out, b: Out, all: Option<seq<byte>>)
    requires Progress(a, b, all, Some([])) && OutOk(b)
    ensures Outcome(a, b, true, all)
  {
    OutcomeNothing(b);
  }

  lemma ProgressStart(a: Out, all: Option<seq<byte>>)
    ensures Progress(a, a, all, all)
  {
  }

  // The size of a packed array of fixed-width numbers needs no pass.
  lemma {:induction false} PackedFixedLength(f: Field, items: seq<Value>)
    requires f.ltype in {Fixed32, Fixed64} && forall k | 0 <= k < |items| :: ValueShaped(f, items[k])
    ensures PackedBytes(f, items).Some?
    ensures |PackedBytes(f, items).value| == (if f.ltype == Fixed32 then 4 else 8) * |items|
    decreases |items|
  {
    if items != [] {
      PackedFixedLength(f, items[1..]);
    }
  }

  // ---- pb_ostream_t and the encoder ----

  class OStream {
    var sizing: bool
    var maxSize: nat
    var written: nat
    var pos: nat
    var buf: array<byte>

    ghost function State(): Out
      reads this, buf
    {
      Out(sizing, maxSize, written, pos, buf[..])
    }

    // pb_ostream_from_buffer
    constructor (b: array<byte>, size: nat)
      requires size <= b.Length
      ensures buf == b && State() == Out(false, size, 0, 0, b[..]) && OutOk(State())
    {
      sizing, maxSize, written, pos, buf := false, size, 0, 0, b;
    }

    // PB_OSTREAM_SIZING
    constructor Sizing()
      ensures fresh(buf) && State() == Out(true, 0, 0, 0, []) && OutOk(State())
    {
      sizing, maxSize, written, pos := true, 0, 0, 0;
      buf := new byte[0];
      new;
      assert buf[..] == [];
    }

    // pb_write
    method Write(data: seq<byte>) returns (ok: bool)
      requires OutOk(State())
      modifies this`written, this`pos, buf
      ensures OutOk(State()) && Outcome(old(State()), State(), ok, Some(data))
    {
      if !sizing {
        if written + |data| > maxSize {
          return false;
        }
        BufWrite(data);
      }
      written := written + |data|;
      ok := true;
    }

    // buf_write
    method BufWrite(data: seq<byte>)
      requires pos + |data| <= buf.Length
      modifies this`pos, buf
      ensures pos == old(pos) + |data|
      ensures buf[..] == old(buf[..])[..old(pos)] + data + old(buf[..])[old(pos) + |data|..]
    {
      var dest := pos;
      pos := dest + |data|;
      var i := 0;
      while i < |data|
        modifies buf
        invariant 0 <= i <= |data|
        invariant buf[..] == old(buf[..])[..dest] + data[..i] + old(buf[..])[dest + i..]
      {
        buf[dest + i] := data[i];
        i := i + 1;
      }
      assert data[..i] == data;
    }

    // pb_write with no data, on a sizing stream
    method Count(n: nat, ghost data: seq<byte>)
      requires OutOk(State()) && sizing && |data| == n
      modifies this`written
      ensures OutOk(State()) && Outcome(old(State()), State(), true, Some(data))
    {
      written := written + n;
    }

    // pb_encode_varint.  Ten bytes are enough for 64 bits.
    method EncodeVarint(v: nat) returns (ok: bool)
      requires OutOk(State())
      modifies this`written, this`pos, buf
      ensures OutOk(State()) && Outcome(old(State()), State(), ok, Some(PbVarint.EncodeVarint(v)))
    {
      if v <= 0x7F {
        ok := Write([v]);
        return;
      }
      var value := v;
      var buffer: seq<byte> := [];
      ghost var all := PbVarint.EncodeVarint(v);
      while value != 0
        modifies {}
        invariant value != 0 ==> all == buffer + PbVarint.EncodeVarint(value)
        invariant value == 0 ==> |buffer| > 0 && Last(buffer) >= 128 && all == buffer[..|buffer| - 1] + [Last(buffer) - 128]
        invariant v < TWO_64 ==> |buffer| <= 10
      {
        if v < TWO_64 {
          VarintAtMostTenBytes(v);
        }
        buffer := buffer + [value % 128 + 128];
        value := value / 128;
      }
      buffer := buffer[|buffer| - 1 := Last(buffer) % 128];
      assert buffer == all;
      ok := Write(buffer);
    }

    // pb_encode_svarint
    method EncodeSvarint(value: int) returns (ok: bool)
      requires OutOk(State()) && -(TWO_64 / 2) <= value < TWO_64 / 2
      modifies this`written, this`pos, buf
      ensures OutOk(State()) && Outcome(old(State()), State(), ok, Some(PbVarint.EncodeVarint(ZigZag(value))))
    {
      ok := EncodeVarint(ZigZag(value));
    }

    // pb_encode_fixed32 and pb_encode_fixed64
    method EncodeFixed(value: nat, width: nat) returns (ok: bool)
      requires OutOk(State())
      modifies this`written, this`pos, buf
      ensures OutOk(State()) && Outcome(old(State()), State(), ok, Some(PbVarint.EncodeFixed(value, width)))
    {
      var bytes: seq<byte> := [];
      var left := value;
      while |bytes| < width
        invariant |bytes| <= width
        invariant PbVarint.EncodeFixed(value, width) == bytes + PbVarint.EncodeFixed(left, width - |bytes|)
      {
        bytes := bytes + [left % 256];
        left := left / 256;
      }
      assert bytes + [] == bytes;
      ok := Write(bytes);
    }

    // pb_encode_tag
    method EncodeTag(wireType: nat, tag: nat) returns (ok: bool)
      requires OutOk(State())
      modifies this`written, this`pos, buf
      ensures OutOk(State()) && Outcome(old(State()), State(), ok, Some(Key(tag, wireType)))
    {
      ok := EncodeVarint(tag * 8 + wireType);
    }

    // pb_encode_string
    method EncodeString(bytes: seq<byte>) returns (ok: bool)
      requires OutOk(State())
      modifies this`written, this`pos, buf
      ensures OutOk(State()) && Outcome(old(State()), State(), ok, Some(Delimited(bytes)))
    {
      hide Outcome, OutOk, Append;
      ghost var a := State();
      ok := EncodeVarint(|bytes|);
      ghost var b := State();
      if !ok {
        OutcomeFailed(a, b, Some(PbVarint.EncodeVarint(|bytes|)), Some(bytes));
        AppendSome(PbVarint.EncodeVarint(|bytes|), bytes);
        return;
      }
      ok := Write(bytes);
      OutcomeThen(a, b, State(), ok, Some(PbVarint.EncodeVarint(|bytes|)), Some(bytes));
      AppendSome(PbVarint.EncodeVarint(|bytes|), bytes);
    }

    // pb_enc_varint, pb_enc_uvarint, pb_enc_svarint, pb_enc_fixed32, pb_enc_fixed64
    method EncNumber(f: Field, v: Value) returns (ok: bool)
      requires OutOk(State()) && Numeric(f.ltype) && ValueShaped(f, v)
      modifies this`written, this`pos, buf
      ensures OutOk(State()) && Outcome(old(State()), State(), ok, ValueBytes(f, v))
    {
      hide Outcome, OutOk, PbVarint.EncodeVarint, PbVarint.EncodeFixed, ZigZag;
      if f.ltype == Fixed32 {
        ok := EncodeFixed(v.n, 4);
      } else if f.ltype == Fixed64 {
        ok := EncodeFixed(v.n, 8);
      } else if f.dataSize !in {1, 2, 4, 8} {
        // "invalid data_size"
        OutcomeNothing(State());
        ok := false;
      } else if f.ltype == SVarint {
        ok := EncodeSvarint(v.n);
      } else if f.ltype == UVarint {
        ok := EncodeVarint(v.n);
      } else {
        ok := EncodeVarint(Word64(v.n));
      }
    }

    // pb_enc_string: up to the terminator, or all there is.
    method EncString(bytes: seq<byte>) returns (ok: bool)
      requires OutOk(State())
      modifies this`written, this`pos, buf
      ensures OutOk(State()) && Outcome(old(State()), State(), ok, Some(Delimited(CString(bytes))))
    {
      hide Outcome, OutOk, Delimited;
      var size := 0;
      while size < |bytes| && bytes[size] != 0
        modifies {}
        invariant size <= |bytes| && CString(bytes) == bytes[..size] + CString(bytes[size..])
      {
        assert CString(bytes[size..]) == [bytes[size]] + CString(bytes[size + 1..]);
        size := size + 1;
      }
      assert CString(bytes) == bytes[..size];
      ok := EncodeString(bytes[..size]);
    }

    // pb_enc_bytes, pb_enc_string, pb_enc_fixed_length_bytes
    method EncData(f: Field, v: Value) returns (ok: bool)
      requires OutOk(State()) && f.ltype in {Bytes, String, FixedLengthBytes} && ValueShaped(f, v)
      modifies this`written, this`pos, buf
      ensures OutOk(State()) && Outcome(old(State()), State(), ok, ValueBytes(f, v))
    {
      hide Outcome, OutOk, Delimited, CString;
      if f.ltype == String {
        ok := EncString(v.bytes);
      } else if f.ltype == Bytes && |v.bytes| + BYTES_HEADER > f.dataSize {
        // "bytes size exceeded"
        OutcomeNothing(State());
        ok := false;
      } else {
        ok := EncodeString(v.bytes);
      }
    }

    // Dispatch through PB_ENCODERS.
    method EncValue(f: Field, v: Value) returns (ok: bool)
      requires OutOk(State()) && ValueShaped(f, v)
      modifies this`written, this`pos, buf
      ensures OutOk(State()) && Outcome(old(State()), State(), ok, ValueBytes(f, v))
      decreases f, 0
    {
      hide Outcome, OutOk, ValueBytes, Shaped;
      if f.ltype == Submessage {
        SubmessageValue(f, v.m);
        ok := EncodeSubmessage(f.sub, v.m);
      } else if Numeric(f.ltype) {
        ok := EncNumber(f, v);
      } else {
        ok := EncData(f, v);
      }
    }

    // pb_encode_submessage: size first, then write, through a substream that
    // cannot hold more.
    method EncodeSubmessage(fields: seq<Field>, m: Message) returns (ok: bool)
      requires OutOk(State()) && Shaped(fields, m)
      modifies this`written, this`pos, buf
      ensures OutOk(State()) && Outcome(old(State()), State(), ok, SubmessageBytes(fields, m))
      decreases fields, 4
    {
      hide Outcome, OutOk, MessageBytes, SubmessageBytes, Shaped;
      ghost var a := State();
      ghost var body := MessageBytes(fields, m);
      var substream := new OStream.Sizing();
      ghost var s := substream.State();
      ok := substream.Encode(fields, m);
      OutcomeSized(s, substream.State(), ok, body);
      if !ok {
        NoSubmessage(a, fields, m);
        return;
      }
      var size := substream.written;
      ok := EncodeVarint(size);
      ghost var b := State();
      SubmessageHead(a, b, ok, fields, m);
      if !ok {
        return;
      }
      if sizing {
        Count(size, body.value);
        return;
      }
      if written + size > maxSize {
        OutcomeFull(b, body.value);
        return false;
      }
      SubstreamOk(b, size);
      substream.sizing, substream.maxSize, substream.written := false, size, 0;
      substream.pos, substream.buf := pos, buf;
      var status := substream.Encode(fields, m);
      ghost var sub := substream.State();
      OutcomeInSubstream(b, sub, status, body.value);
      written := written + substream.written;
      pos := substream.pos;
      if substream.written != size {
        // "submsg size changed" cannot happen.
        assert false;
      }
      ok := status;
      OutcomeOk(b, State(), true, body);
    }

    // pb_encode_tag_for_field and the value
    method EncodeTagged(f: Field, v: Value) returns (ok: bool)
      requires OutOk(State()) && ValueShaped(f, v)
      modifies this`written, this`pos, buf
      ensures OutOk(State()) && Outcome(old(State()), State(), ok, TaggedBytes(f, v))
      decreases f, 1
    {
      hide Outcome, OutOk, ValueBytes, ValueShaped, Key, Append;
      ghost var a := State();
      ghost var key := Some(Key(f.tag, WireType(f.ltype)));
      ok := EncodeTag(WireType(f.ltype), f.tag);
      ghost var b := State();
      if !ok {
        OutcomeFailed(a, b, key, ValueBytes(f, v));
        return;
      }
      ok := EncValue(f, v);
      OutcomeThen(a, b, State(), ok, key, ValueBytes(f, v));
    }

    // The items one after the other, as both passes of encode_array write them.
    method EncodePacked(f: Field, items: seq<Value>) returns (ok: bool)
      requires OutOk(State()) && Numeric(f.ltype) && forall k | 0 <= k < |items| :: ValueShaped(f, items[k])
      modifies this`written, this`pos, buf
      ensures OutOk(State()) && Outcome(old(State()), State(), ok, PackedBytes(f, items))
    {
      hide Outcome, OutOk, ValueBytes, ValueShaped, Append, Progress;
      ghost var a, all := State(), PackedBytes(f, items);
      assert items[0..] == items;
      ProgressStart(a, all);
      var i := 0;
      while i < |items|
        modifies this`written, this`pos, buf
        invariant 0 <= i <= |items| && OutOk(State()) && Progress(a, State(), all, PackedBytes(f, items[i..]))
      {
        ghost var b := State();
        ok := EncNumber(f, items[i]);
        PackedPrefix(f, items, i);
        ProgressStep(a, b, State(), ok, all, PackedBytes(f, items[i..]), ValueBytes(f, items[i]), PackedBytes(f, items[i + 1..]));
        if !ok {
          return;
        }
        i := i + 1;
      }
      ok := true;
      ProgressDone(a, State(), all);
    }

    // encode_array
    method EncodeArray(f: Field, items: seq<Value>) returns (ok: bool)
      requires OutOk(State()) && forall k | 0 <= k < |items| :: ValueShaped(f, items[k])
      modifies this`written, this`pos, buf
      ensures OutOk(State()) && Outcome(old(State()), State(), ok, ArrayBytes(f, items))
      decreases f, 3
    {
      hide Outcome, OutOk, ValueShaped, PackedBytes, ItemsBytes, Progress;
      if |items| == 0 {
        OutcomeNothing(State());
        return true;
      }
      if |items| > f.arraySize {
        OutcomeNothing(State());
        return false;
      }
      if Numeric(f.ltype) {
        ok := EncodePackedArray(f, items);
        return;
      }
      ghost var a, all := State(), ItemsBytes(f, items);
      assert items[0..] == items;
      ProgressStart(a, all);
      var i := 0;
      while i < |items|
        modifies this`written, this`pos, buf
        invariant 0 <= i <= |items| && OutOk(State()) && Progress(a, State(), all, ItemsBytes(f, items[i..]))
      {
        ghost var b := State();
        ok := EncodeTagged(f, items[i]);
        ItemsPrefix(f, items, i);
        ProgressStep(a, b, State(), ok, all, ItemsBytes(f, items[i..]), TaggedBytes(f, items[i]), ItemsBytes(f, items[i + 1..]));
        if !ok {
          return;
        }
        i := i + 1;
      }
      ok := true;
      NoItems(f, items[i..]);
      ProgressDone(a, State(), all);
    }

    // The branch of encode_array for what can be packed
    method EncodePackedArray(f: Field, items: seq<Value>) returns (ok: bool)
      requires OutOk(State()) && Numeric(f.ltype) && forall k | 0 <= k < |items| :: ValueShaped(f, items[k])
      modifies this`written, this`pos, buf
      ensures OutOk(State()) && Outcome(old(State()), State(), ok, PackedArrayBytes(f, items))
      decreases f, 2
    {
      hide Outcome, OutOk, ValueShaped, PackedBytes, Append, PackedArrayBytes;
      ghost var a, payload := State(), PackedBytes(f, items);
      ok := EncodeTag(2, f.tag);
      ghost var b := State();
      PackedHead(a, b, ok, f, items);
      if !ok {
        return;
      }
      var size;
      if f.ltype == Fixed32 {
        PackedFixedLength(f, items);
        size := 4 * |items|;
      } else if f.ltype == Fixed64 {
        PackedFixedLength(f, items);
        size := 8 * |items|;
      } else {
        var sizestream := new OStream.Sizing();
        ghost var s := sizestream.State();
        ok := sizestream.EncodePacked(f, items);
        OutcomeSized(s, sizestream.State(), ok, payload);
        if !ok {
          return;
        }
        size := sizestream.written;
      }
      ok := EncodeVarint(size);
      ghost var c := State();
      PackedLength(a, b, c, ok, f, items);
      if !ok {
        return;
      }
      if sizing {
        Count(size, payload.value);
      } else {
        ok := EncodePacked(f, items);
      }
    }

    // encode_basic_field.  Where there is no has_ flag, presence is worked out.
    method EncodeField(fields: seq<Field>, m: Message, i: nat) returns (ok: bool)
      requires OutOk(State()) && i < |fields| && Shaped(fields, m)
      modifies this`written, this`pos, buf
      ensures OutOk(State()) && Outcome(old(State()), State(), ok, FieldBytes(fields, m, i))
      decreases fields, 0
    {
      assert SlotShaped(fields, m, i);
      hide Outcome, OutOk, ValueShaped, TaggedBytes, ArrayBytes, DefaultValueHeld;
      var f, slot := fields[i], m.slots[i];
      match f.htype {
        case Required =>
          ok := EncodeTagged(f, slot.v);
        case Repeated =>
          ok := EncodeArray(f, slot.items);
        case FixedCount =>
          ok := EncodeArray(f, slot.items);
        case Optional =>
          if slot.has {
            ok := EncodeTagged(f, slot.v);
          } else {
            OutcomeNothing(State());
            ok := true;
          }
        case Singular =>
          var implicitHas := !DefaultValueHeld(f, slot.v);
          if implicitHas {
            ok := EncodeTagged(f, slot.v);
          } else {
            OutcomeNothing(State());
            ok := true;
          }
        case Oneof(g) =>
          if g in m.unions && m.unions[g].which == f.tag {
            ok := EncodeTagged(f, m.unions[g].content);
          } else {
            OutcomeNothing(State());
            ok := true;
          }
      }
    }

    // pb_encode
    method Encode(fields: seq<Field>, m: Message) returns (ok: bool)
      requires OutOk(State()) && Shaped(fields, m)
      modifies this`written, this`pos, buf
      ensures OutOk(State()) && Outcome(old(State()), State(), ok, MessageBytes(fields, m))
      decreases fields, 1
    {
      hide Outcome, OutOk, Shaped, FieldBytes, Progress, Append;
      ghost var a, all := State(), FieldsBytes(fields, m, 0);
      var iter: FieldIter := new FieldIter(fields);
      if fields == [] {
        OutcomeNothing(State());
        return true;
      }
      ProgressStart(a, all);
      var more := true;
      while more
        modifies this`written, this`pos, buf, iter`pos, iter`requiredFieldIndex
        invariant iter.Valid() && iter.fields == fields && OutOk(State())
        invariant Progress(a, State(), all, FieldsBytes(fields, m, if more then iter.pos else |fields|))
        decreases if more then |fields| - iter.pos else 0
      {
        ghost var b, i := State(), iter.pos;
        ok := EncodeField(fields, m, iter.pos);
        ProgressStep(a, b, State(), ok, all, FieldsBytes(fields, m, i), FieldBytes(fields, m, i), FieldsBytes(fields, m, i + 1));
        if !ok {
          return;
        }
        more := iter.Next();
      }
      ok := true;
      ProgressDone(a, State(), all);
    }

    // pb_get_encoded_size
    static method GetEncodedSize(fields: seq<Field>, m: Message) returns (ok: bool, size: nat)
      requires Shaped(fields, m)
      ensures ok <==> MessageBytes(fields, m).Some?
      ensures ok ==> size == |MessageBytes(fields, m).value|
    {
      var stream := new OStream.Sizing();
      ghost var a := stream.State();
      ok := stream.Encode(fields, m);
      OutcomeSized(a, stream.State(), ok, MessageBytes(fields, m));
      size := stream.written;
    }
  }
}
