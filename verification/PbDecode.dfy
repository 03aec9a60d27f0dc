// What pb_decode makes of a byte sequence, and what that says about required
// and unknown fields.
module PbDecode {
  import opened Wire
  import opened PbVarint
  import opened PbMessage

  const MAX_REQUIRED := 64  // PB_MAX_REQUIRED_FIELDS

  // r is what is left of s once something was read.
  predicate Rest(r: seq<byte>, s: seq<byte>) {
    |r| < |s| && r == s[|s| - |r|..]
  }

  // ---- Values ----

  // The signed number an integer is cut down to, in a type holding -half to half - 1.
  function Signed(n: int, half: nat): int
    requires half > 0
  {
    var r := n % (2 * half);
    if r >= half then r - 2 * half else r
  }

  // The checked casts of pb_dec_varint, pb_dec_uvarint and pb_dec_svarint
  function Narrow(f: Field, value: nat): Option<int>
    requires value < TWO_64
  {
    if f.dataSize !in {1, 2, 4, 8} then None
    else if f.ltype == UVarint then (if value < 2 * Half(f.dataSize) then Some(value) else None)
    else
      var n := if f.ltype == SVarint then UnZigZag(value)
               else if f.dataSize == 8 then Signed(value, TWO_64 / 2) else Signed(value, TWO_32 / 2);
      if Signed(n, Half(f.dataSize)) == n then Some(n) else None
  }

  function DecodeNum(f: Field, s: seq<byte>): (r: Option<(int, seq<byte>)>)
    ensures r.Some? ==> Rest(r.value.1, s)
  {
    match f.ltype
    case Fixed32 => if |s| < 4 then None else Some((DecodeFixed(s[..4]), s[4..]))
    case Fixed64 => if |s| < 8 then None else Some((DecodeFixed(s[..8]), s[8..]))
    case _ =>
      var v := DecodeVarint(s);
      if v.None? then None
      else
        var n := Narrow(f, v.value.0);
        if n.None? then None else Some((n.value, v.value.1))
  }

  // pb_make_string_substream and pb_close_string_substream: a length, then that
  // many bytes, then the rest.
  function Chunk(s: seq<byte>): (r: Option<(seq<byte>, seq<byte>)>)
    ensures r.Some? ==> Rest(r.value.1, s) && |r.value.0| + |r.value.1| < |s|
  {
    var n := DecodeVarint32(s);
    if !n.Done? || n.value > |n.rest| then None else Some((n.rest[..n.value], n.rest[n.value..]))
  }

  // pb_dec_bytes, pb_dec_string, pb_dec_fixed_length_bytes
  function DataOf(f: Field, chunk: seq<byte>): Option<Value> {
    match f.ltype
    case Bytes => if |chunk| + BYTES_HEADER > f.dataSize then None else Some(Data(chunk))
    case String => if |chunk| + 1 > f.dataSize then None else Some(Data(chunk))
    case _ =>
      if chunk == [] then Some(Data(Zeros(f.dataSize)))
      else if |chunk| != f.dataSize then None
      else Some(Data(chunk))
  }

  // pb_skip_varint
  function SkipVarint(s: seq<byte>): (r: Option<seq<byte>>)
    ensures r.Some? ==> Rest(r.value, s)
  {
    if s == [] then None else if s[0] >= 128 then SkipVarint(s[1..]) else Some(s[1..])
  }

  // pb_skip_field
  function SkipField(wireType: nat, s: seq<byte>): (r: Option<seq<byte>>)
    ensures r.Some? ==> Rest(r.value, s)
  {
    match wireType
    case 0 => SkipVarint(s)
    case 1 => if |s| < 8 then None else Some(s[8..])
    case 2 => var c := Chunk(s); if c.None? then None else Some(c.value.1)
    case 5 => if |s| < 4 then None else Some(s[4..])
    case _ => None
  }

  // ---- The state of the loop in pb_decode_noinit ----

  // seen are the bits of fields_seen that are set.
  datatype State = State(m: Message, seen: set<nat>, fixedField: Option<nat>, fixedSize: nat)

  // pb_field_iter_find
  function Find(fields: seq<Field>, tag: nat): (r: Option<nat>)
    ensures r.Some? ==> r.value < |fields| && fields[r.value].tag == tag
    ensures r.None? ==> forall i | 0 <= i < |fields| :: fields[i].tag != tag
  {
    if fields == [] then None
    else if fields[0].tag == tag then Some(0)
    else
      var r := Find(fields[1..], tag);
      if r.None? then None else Some(r.value + 1)
  }

  // required_field_index at position i
  function RequiredBefore(fields: seq<Field>, i: nat): nat
    requires i <= |fields|
  {
    if i == 0 then 0 else RequiredBefore(fields, i - 1) + if fields[i - 1].htype.Required? then 1 else 0
  }

  predicate FixedDone(fields: seq<Field>, st: State) {
    st.fixedField.Some? ==> st.fixedField.value < |fields| && st.fixedSize == fields[st.fixedField.value].arraySize
  }

  // What happens before the value of field i is read.
  function Enter(fields: seq<Field>, i: nat, st: State): Option<State>
    requires i < |fields|
  {
    match fields[i].htype
    case Required => Some(if RequiredBefore(fields, i) < MAX_REQUIRED then st.(seen := st.seen + {RequiredBefore(fields, i)}) else st)
    case FixedCount =>
      if st.fixedField == Some(i) then Some(st)
      else if !FixedDone(fields, st) then None
      else Some(st.(fixedField := Some(i), fixedSize := 0))
    case _ => Some(st)
  }

  function SetSlot(st: State, i: nat, slot: Slot): State
    requires i < |st.m.slots|
  {
    st.(m := st.m.(slots := st.m.slots[i := slot]))
  }

  // One more item of an array: None when it is full.
  function Put(f: Field, i: nat, st: State, v: Value): Option<State>
    requires i < |st.m.slots|
  {
    match (f.htype, st.m.slots[i])
    case (Repeated, Many(items)) =>
      if |items| >= f.arraySize then None else Some(SetSlot(st, i, Many(items + [v])))
    case (FixedCount, Many(items)) =>
      if st.fixedSize >= f.arraySize || st.fixedSize >= |items| then None
      else Some(SetSlot(st, i, Many(items[st.fixedSize := v])).(fixedSize := st.fixedSize + 1))
    case _ => None
  }

  function DecodePacked(f: Field, i: nat, s: seq<byte>, st: State): (r: Option<State>)
    requires i < |st.m.slots|
    ensures r.Some? ==> |r.value.m.slots| == |st.m.slots|
    decreases |s|
  {
    if s == [] then Some(st)
    else
      var n := DecodeNum(f, s);
      if n.None? then None
      else
        var st' := Put(f, i, st, Num(n.value.0));
        if st'.None? then None else DecodePacked(f, i, n.value.1, st'.value)
  }

  // ---- Fields and messages ----

  // What a submessage is decoded onto.
  function Start(f: Field, prior: Value): Message {
    if (f.htype.Required? || f.htype.Optional? || f.htype.Singular?) && prior.Msg? then prior.m else DefaultMessage(f.sub)
  }

  // The pb_dec_* functions
  function DecodeValue(f: Field, s: seq<byte>, prior: Value): (r: Option<(Value, seq<byte>)>)
    ensures r.Some? ==> Rest(r.value.1, s)
    decreases |s|, 0
  {
    if Numeric(f.ltype) then
      var n := DecodeNum(f, s);
      if n.None? then None else Some((Num(n.value.0), n.value.1))
    else
      var c := Chunk(s);
      if c.None? then None
      else if f.ltype == Submessage then
        var r := DecodeNoinit(f.sub, c.value.0, Start(f, prior));
        if r.None? then None else Some((Msg(r.value.0), c.value.1))
      else
        var d := DataOf(f, c.value.0);
        if d.None? then None else Some((d.value, c.value.1))
  }

  // decode_static_field
  function DecodeField(f: Field, i: nat, wireType: nat, s: seq<byte>, st: State): (r: Option<(State, seq<byte>)>)
    requires i < |st.m.slots|
    ensures r.Some? ==> Rest(r.value.1, s) && |r.value.0.m.slots| == |st.m.slots|
    decreases |s|, 1
  {
    if (f.htype.Repeated? || f.htype.FixedCount?) && wireType == 2 && Numeric(f.ltype) then
      var c := Chunk(s);
      if c.None? then None
      else
        var st' := DecodePacked(f, i, c.value.0, st);
        if st'.None? then None else Some((st'.value, c.value.1))
    else
      var v := DecodeValue(f, s, OldValue(f, i, st));
      if v.None? then None
      else
        var st' := Store(f, i, st, v.value.0);
        if st'.None? then None else Some((st'.value, v.value.1))
  }

  function OldValue(f: Field, i: nat, st: State): Value
    requires i < |st.m.slots|
  {
    if st.m.slots[i].Single? then st.m.slots[i].v else Num(0)
  }

  function Store(f: Field, i: nat, st: State, v: Value): (r: Option<State>)
    requires i < |st.m.slots|
    ensures r.Some? ==> |r.value.m.slots| == |st.m.slots|
  {
    match f.htype
    case Optional => Some(SetSlot(st, i, Single(true, v)))
    case Oneof(g) => Some(st.(m := st.m.(unions := st.m.unions[g := Union(f.tag, v)])))
    case Repeated => Put(f, i, st, v)
    case FixedCount => Put(f, i, st, v)
    case _ => Some(SetSlot(st, i, Single(false, v)))
  }

  // One pass of the loop.
  datatype Pass = Error | Stop(rest: seq<byte>) | Next(tag: nat, st: State, rest: seq<byte>)

  function DecodePass(fields: seq<Field>, s: seq<byte>, st: State): (r: Pass)
    requires |st.m.slots| == |fields|
    ensures r.Next? ==> Rest(r.rest, s) && |r.st.m.slots| == |fields|
    decreases |s|, 2
  {
    match DecodeVarint32(s)
    case Eof => Stop([])
    case Failed => Error
    case Done(v, rest) =>
      if v == 0 then Stop(rest) else TaggedPass(fields, v / 8, v % 8, rest, st)
  }

  function TaggedPass(fields: seq<Field>, tag: nat, wireType: nat, s: seq<byte>, st: State): (r: Pass)
    requires |st.m.slots| == |fields|
    ensures r.Next? ==> Rest(r.rest, s) && |r.st.m.slots| == |fields|
    decreases |s|, 2
  {
    match Find(fields, tag)
    case None =>
      // In an empty message type, tag 0 is found: it is the terminator, a field of no valid size.
      if fields == [] && tag == 0 then Error
      else
        var r := SkipField(wireType, s);
        if r.None? then Error else Next(tag, st, r.value)
    case Some(i) =>
      var entered := Enter(fields, i, st);
      if entered.None? then Error
      else
        var r := DecodeField(fields[i], i, wireType, s, entered.value);
        if r.None? then Error else Next(tag, r.value.0, r.value.1)
  }

  function DecodeLoop(fields: seq<Field>, s: seq<byte>, st: State): (r: Option<(State, seq<byte>)>)
    requires |st.m.slots| == |fields|
    decreases |s|, 3
  {
    match DecodePass(fields, s, st)
    case Error => None
    case Stop(rest) => Some((st, rest))
    case Next(_, st', rest) => DecodeLoop(fields, rest, st')
  }

  function CheckedRequired(fields: seq<Field>): nat {
    var n := RequiredBefore(fields, |fields|);
    if n > MAX_REQUIRED then MAX_REQUIRED else n
  }

  predicate Complete(fields: seq<Field>, st: State) {
    FixedDone(fields, st) && forall k | 0 <= k < CheckedRequired(fields) :: k in st.seen
  }

  // pb_decode_noinit: the message, and the bytes left after a terminating zero.
  function DecodeNoinit(fields: seq<Field>, s: seq<byte>, m: Message): Option<(Message, seq<byte>)>
    decreases |s|, 4
  {
    if |m.slots| != |fields| then None
    else
      var r := DecodeLoop(fields, s, State(m, {}, None, 0));
      if r.None? || !Complete(fields, r.value.0) then None else Some((r.value.0.m, r.value.1))
  }

  // pb_decode
  function Decode(fields: seq<Field>, s: seq<byte>): Option<(Message, seq<byte>)> {
    DecodeNoinit(fields, s, DefaultMessage(fields))
  }

  // ---- Required fields ----

  // The tags met at this level.
  function TagsMet(fields: seq<Field>, s: seq<byte>, st: State): seq<nat>
    requires |st.m.slots| == |fields|
    decreases |s|
  {
    match DecodePass(fields, s, st)
    case Next(tag, st', rest) => [tag] + TagsMet(fields, rest, st')
    case _ => []
  }

  ghost predicate Checked(fields: seq<Field>, i: nat) {
    i < |fields| && fields[i].htype.Required? && RequiredBefore(fields, i) < MAX_REQUIRED
  }

  ghost predicate TagsDistinct(fields: seq<Field>) {
    forall i, j | 0 <= i < j < |fields| :: fields[i].tag != fields[j].tag
  }

  lemma FindFinds(fields: seq<Field>, i: nat)
    requires TagsDistinct(fields) && i < |fields|
    ensures Find(fields, fields[i].tag) == Some(i)
  {
  }

  // A field is not marked twice under different numbers.
  lemma {:induction false} RequiredGrows(fields: seq<Field>, i: nat, j: nat)
    requires i < j <= |fields|
    ensures RequiredBefore(fields, i) + (if fields[i].htype.Required? then 1 else 0) <= RequiredBefore(fields, j)
    decreases j
  {
    if i < j - 1 {
      RequiredGrows(fields, i, j - 1);
    }
  }

  lemma {:induction false} RequiredAt(fields: seq<Field>, k: nat, n: nat) returns (i: nat)
    requires n <= |fields| && k < RequiredBefore(fields, n)
    ensures i < n && fields[i].htype.Required? && RequiredBefore(fields, i) == k
    decreases n
  {
    if k < RequiredBefore(fields, n - 1) {
      i := RequiredAt(fields, k, n - 1);
    } else {
      i := n - 1;
    }
  }

  lemma PutKeepsSeen(f: Field, i: nat, st: State, v: Value)
    requires i < |st.m.slots|
    ensures var r := Put(f, i, st, v); r.Some? ==> r.value.seen == st.seen
  {
  }

  lemma {:induction false} PackedKeepsSeen(f: Field, i: nat, s: seq<byte>, st: State)
    requires i < |st.m.slots| && DecodePacked(f, i, s, st).Some?
    ensures DecodePacked(f, i, s, st).value.seen == st.seen
    decreases |s|
  {
    if s != [] {
      var n := DecodeNum(f, s).value;
      PutKeepsSeen(f, i, st, Num(n.0));
      PackedKeepsSeen(f, i, n.1, Put(f, i, st, Num(n.0)).value);
    }
  }

  lemma FieldKeepsSeen(f: Field, i: nat, wireType: nat, s: seq<byte>, st: State)
    requires i < |st.m.slots| && DecodeField(f, i, wireType, s, st).Some?
    ensures DecodeField(f, i, wireType, s, st).value.0.seen == st.seen
  {
    hide DecodePacked, DecodeValue;
    if (f.htype.Repeated? || f.htype.FixedCount?) && wireType == 2 && Numeric(f.ltype) {
      PackedKeepsSeen(f, i, Chunk(s).value.0, st);
    }
  }

  // One pass marks the field it met, if it is one that is checked.
  lemma PassMarks(fields: seq<Field>, s: seq<byte>, st: State, i: nat)
    requires |st.m.slots| == |fields| && TagsDistinct(fields) && Checked(fields, i)
    requires DecodePass(fields, s, st).Next?
    ensures var r := DecodePass(fields, s, st);
      RequiredBefore(fields, i) in r.st.seen <==> RequiredBefore(fields, i) in st.seen || r.tag == fields[i].tag
  {
    var Done(v, rest) := DecodeVarint32(s);
    var found := Find(fields, v / 8);
    hide DecodeField, Find, RequiredBefore, DecodeVarint32, SkipField;
    FindFinds(fields, i);
    if found.Some? {
      var j := found.value;
      FieldKeepsSeen(fields[j], j, v % 8, rest, Enter(fields, j, st).value);
      if i < j {
        RequiredGrows(fields, i, j);
      } else if j < i {
        RequiredGrows(fields, j, i);
      }
    }
  }

  lemma {:induction false} LoopMarks(fields: seq<Field>, s: seq<byte>, st: State, i: nat)
    requires |st.m.slots| == |fields| && TagsDistinct(fields) && Checked(fields, i)
    requires DecodeLoop(fields, s, st).Some?
    ensures RequiredBefore(fields, i) in DecodeLoop(fields, s, st).value.0.seen
        <==> RequiredBefore(fields, i) in st.seen || fields[i].tag in TagsMet(fields, s, st)
    decreases |s|
  {
    var p := DecodePass(fields, s, st);
    hide DecodePass, TagsDistinct, Checked, RequiredBefore;
    if p.Next? {
      PassMarks(fields, s, st, i);
      LoopMarks(fields, p.rest, p.st, i);
    }
  }

  // pb_decode_noinit succeeds exactly when every pass did, the last fixed-count
  // array is complete, and each of the first 64 required fields was met.
  lemma RequiredFieldsWereSeen(fields: seq<Field>, s: seq<byte>, m: Message)
    requires |m.slots| == |fields| && TagsDistinct(fields)
    ensures var st := State(m, {}, None, 0);
      var r := DecodeLoop(fields, s, st);
      DecodeNoinit(fields, s, m).Some? <==>
        r.Some? && FixedDone(fields, r.value.0) && forall i: nat | Checked(fields, i) :: fields[i].tag in TagsMet(fields, s, st)
  {
    var st := State(m, {}, None, 0);
    var r := DecodeLoop(fields, s, st);
    if r.Some? {
      forall i: nat | Checked(fields, i)
        ensures RequiredBefore(fields, i) < CheckedRequired(fields)
        ensures RequiredBefore(fields, i) in r.value.0.seen <==> fields[i].tag in TagsMet(fields, s, st)
      {
        RequiredGrows(fields, i, |fields|);
        LoopMarks(fields, s, st, i);
      }
      if forall i: nat | Checked(fields, i) :: fields[i].tag in TagsMet(fields, s, st) {
        forall k | 0 <= k < CheckedRequired(fields)
          ensures k in r.value.0.seen
        {
          var i := RequiredAt(fields, k, |fields|);
          assert Checked(fields, i);
        }
      }
    }
  }

  // ---- Unknown fields ----

  // What a decoder took, it takes whatever follows.
  lemma {:induction false} VarintIsLocal(p: seq<byte>, b: seq<byte>, c: seq<byte>, k: nat, acc: nat)
    requires DecodeVarintFrom(p + b, k, acc).Some? && DecodeVarintFrom(p + b, k, acc).value.1 == b
    ensures DecodeVarintFrom(p + c, k, acc) == Some((DecodeVarintFrom(p + b, k, acc).value.0, c))
    decreases |p|
  {
    hide AddBits;
    if p == [] {
      SameLength(p, b);
    } else {
      assert (p + b)[0] == p[0] == (p + c)[0];
      assert (p + b)[1..] == p[1..] + b && (p + c)[1..] == p[1..] + c;
      if p[0] >= 128 {
        VarintIsLocal(p[1..], b, c, k + 7, AddBits(acc, p[0], k, 64));
      } else {
        SameLength(p[1..], b);
      }
    }
  }

  lemma SameLength(p: seq<byte>, b: seq<byte>)
    requires p == [] || p + b == b
    ensures p == [] && p + b == b && forall c: seq<byte> :: p + c == c
  {
    assert |p + b| == |p| + |b|;
    forall c: seq<byte>
      ensures p + c == c
    {
    }
  }

  lemma {:induction false} Varint32FromIsLocal(p: seq<byte>, b: seq<byte>, c: seq<byte>, k: nat, acc: nat)
    requires DecodeVarint32From(p + b, k, acc).Done? && |DecodeVarint32From(p + b, k, acc).rest| >= |b|
    ensures var r := DecodeVarint32From(p + b, k, acc);
      |r.rest| <= |p + b| && r.rest == (p + b)[|p + b| - |r.rest|..]
      && DecodeVarint32From(p + c, k, acc) == Done(r.value, p[|p + b| - |r.rest|..] + c)
    decreases |p|
  {
    hide AddBits32, Overflows;
    if p == [] {
      SameLength(p, b);
    } else {
      assert (p + b)[0] == p[0] == (p + c)[0];
      assert (p + b)[1..] == p[1..] + b && (p + c)[1..] == p[1..] + c;
      if p[0] >= 128 {
        Varint32FromIsLocal(p[1..], b, c, (k + 7) % 256, AddBits32(acc, p[0], k));
      }
    }
  }

  // A 32-bit varint that ends within p.
  lemma Varint32IsLocal(p: seq<byte>, b: seq<byte>, c: seq<byte>) returns (p': seq<byte>)
    requires DecodeVarint32(p + b).Done? && |DecodeVarint32(p + b).rest| >= |b|
    ensures |p'| < |p|
    ensures DecodeVarint32(p + b).rest == p' + b && DecodeVarint32(p + c) == Done(DecodeVarint32(p + b).value, p' + c)
  {
    var r := DecodeVarint32(p + b);
    hide DecodeVarint32From;
    if p == [] {
      p' := [];
      SameLength(p, b);
    } else {
      p' := p[|p + b| - |r.rest|..];
      assert (p + b)[0] == p[0] == (p + c)[0];
      assert (p + b)[1..] == p[1..] + b && (p + c)[1..] == p[1..] + c;
      if p[0] >= 128 {
        Varint32FromIsLocal(p[1..], b, c, 7, p[0] % 128);
        assert p[1..][|p[1..] + b| - |r.rest|..] == p';
      } else {
        assert p' == p[1..];
      }
    }
  }

  lemma ChunkIsLocal(p: seq<byte>, b: seq<byte>, c: seq<byte>)
    requires Chunk(p + b).Some? && Chunk(p + b).value.1 == b
    ensures Chunk(p + c) == Some((Chunk(p + b).value.0, c))
  {
    var n := DecodeVarint32(p + b);
    var p' := Varint32IsLocal(p, b, c);
    hide DecodeVarint32;
    assert |p'| == n.value;
    assert (p' + b)[..n.value] == p' == (p' + c)[..n.value];
    assert (p' + c)[n.value..] == c;
  }

  lemma NumIsLocal(f: Field, p: seq<byte>, b: seq<byte>, c: seq<byte>)
    requires DecodeNum(f, p + b).Some? && DecodeNum(f, p + b).value.1 == b
    ensures DecodeNum(f, p + c) == Some((DecodeNum(f, p + b).value.0, c))
  {
    if f.ltype == Fixed32 {
      FixedIsLocal(p, b, c, 4);
    } else if f.ltype == Fixed64 {
      FixedIsLocal(p, b, c, 8);
    } else {
      VarintIsLocal(p, b, c, 0, 0);
    }
  }

  lemma FixedIsLocal(p: seq<byte>, b: seq<byte>, c: seq<byte>, n: nat)
    requires n <= |p + b| && (p + b)[n..] == b
    ensures n == |p| && (p + b)[..n] == p == (p + c)[..n] && (p + c)[n..] == c
  {
    assert |(p + b)[n..]| == |p| + |b| - n;
  }

  lemma ValueIsLocal(f: Field, p: seq<byte>, b: seq<byte>, c: seq<byte>, prior: Value)
    requires DecodeValue(f, p + b, prior).Some? && DecodeValue(f, p + b, prior).value.1 == b
    ensures DecodeValue(f, p + c, prior) == Some((DecodeValue(f, p + b, prior).value.0, c))
  {
    hide DecodeNum, Chunk, DecodeNoinit, DataOf;
    if Numeric(f.ltype) {
      NumIsLocal(f, p, b, c);
    } else {
      ChunkIsLocal(p, b, c);
    }
  }

  lemma FieldIsLocal(f: Field, i: nat, wireType: nat, p: seq<byte>, b: seq<byte>, c: seq<byte>, st: State)
    requires i < |st.m.slots|
    requires DecodeField(f, i, wireType, p + b, st).Some? && DecodeField(f, i, wireType, p + b, st).value.1 == b
    ensures DecodeField(f, i, wireType, p + c, st) == Some((DecodeField(f, i, wireType, p + b, st).value.0, c))
  {
    hide Chunk, DecodePacked, DecodeValue, Store;
    if (f.htype.Repeated? || f.htype.FixedCount?) && wireType == 2 && Numeric(f.ltype) {
      ChunkIsLocal(p, b, c);
    } else {
      ValueIsLocal(f, p, b, c, OldValue(f, i, st));
    }
  }

  lemma {:induction false} SkipVarintIsLocal(p: seq<byte>, b: seq<byte>, c: seq<byte>)
    requires SkipVarint(p + b) == Some(b)
    ensures SkipVarint(p + c) == Some(c)
    decreases |p|
  {
    if p == [] {
      SameLength(p, b);
    } else {
      assert (p + b)[1..] == p[1..] + b && (p + c)[1..] == p[1..] + c;
      if p[0] >= 128 {
        SkipVarintIsLocal(p[1..], b, c);
      } else {
        SameLength(p[1..], b);
      }
    }
  }

  lemma SkipIsLocal(wireType: nat, p: seq<byte>, b: seq<byte>, c: seq<byte>)
    requires SkipField(wireType, p + b) == Some(b)
    ensures SkipField(wireType, p + c) == Some(c)
  {
    hide SkipVarint, Chunk;
    if wireType == 0 {
      SkipVarintIsLocal(p, b, c);
    } else if wireType == 2 {
      ChunkIsLocal(p, b, c);
    } else {
      FixedIsLocal(p, b, c, if wireType == 1 then 8 else 4);
    }
  }

  lemma PassIsLocal(fields: seq<Field>, p: seq<byte>, b: seq<byte>, c: seq<byte>, st: State)
    requires |st.m.slots| == |fields|
    requires DecodePass(fields, p + b, st).Next? && DecodePass(fields, p + b, st).rest == b
    ensures DecodePass(fields, p + c, st) == DecodePass(fields, p + b, st).(rest := c)
  {
    var v := DecodeVarint32(p + b);
    hide DecodeVarint32, Find, Enter, DecodeField, SkipField;
    var p' := Varint32IsLocal(p, b, c);
    var found := Find(fields, v.value / 8);
    if found.Some? {
      FieldIsLocal(fields[found.value], found.value, v.value % 8, p', b, c, Enter(fields, found.value, st).value);
    } else {
      SkipIsLocal(v.value % 8, p', b, c);
    }
  }

  // Field by field, p takes st to st'.
  predicate Fields(fields: seq<Field>, p: seq<byte>, st: State, st': State)
    requires |st.m.slots| == |fields|
    decreases |p|
  {
    if p == [] then st == st'
    else
      var r := DecodePass(fields, p, st);
      r.Next? && Fields(fields, r.rest, r.st, st')
  }

  // Each pass leaves fewer bytes, the last part of those it was given.
  lemma PassLeavesRest(fields: seq<Field>, s: seq<byte>, st: State)
    requires |st.m.slots| == |fields| && DecodePass(fields, s, st).Next?
    ensures Rest(DecodePass(fields, s, st).rest, s)
  {
  }

  lemma {:induction false} FieldsThenRest(fields: seq<Field>, p: seq<byte>, b: seq<byte>, st: State, st': State)
    requires |st.m.slots| == |fields| && Fields(fields, p, st, st')
    ensures |st'.m.slots| == |fields| && DecodeLoop(fields, p + b, st) == DecodeLoop(fields, b, st')
    decreases |p|
  {
    if p == [] {
      SameLength(p, b);
    } else {
      var r := DecodePass(fields, p, st);
      hide *;
      PassThenRest(fields, p, b, st);
      LoopUnfolds(fields, p + b, st);
      FieldsThenRest(fields, r.rest, b, r.st, st');
    }
  }

  lemma PassThenRest(fields: seq<Field>, p: seq<byte>, b: seq<byte>, st: State)
    requires |st.m.slots| == |fields| && DecodePass(fields, p, st).Next?
    ensures var r := DecodePass(fields, p, st);
      |r.rest| < |p| && DecodePass(fields, p + b, st) == Next(r.tag, r.st, r.rest + b)
  {
    var r := DecodePass(fields, p, st);
    hide DecodePass;
    PassLeavesRest(fields, p, st);
    var q := p[..|p| - |r.rest|];
    assert p == q + r.rest && p + b == q + (r.rest + b);
    PassIsLocal(fields, q, r.rest, r.rest + b, st);
  }

  lemma LoopUnfolds(fields: seq<Field>, s: seq<byte>, st: State)
    requires |st.m.slots| == |fields| && DecodePass(fields, s, st).Next?
    ensures var r := DecodePass(fields, s, st); |r.st.m.slots| == |fields| && DecodeLoop(fields, s, st) == DecodeLoop(fields, r.rest, r.st)
  {
  }

  // A well-formed field that the type does not declare.
  ghost predicate UnknownField(fields: seq<Field>, u: seq<byte>, tag: nat, wireType: nat, payload: seq<byte>) {
    && 1 <= tag < 0x2000_0000 && wireType < 8
    && (forall i | 0 <= i < |fields| :: fields[i].tag != tag)
    && u == Key(tag, wireType) + payload
    && SkipField(wireType, payload) == Some([])
  }

  lemma UnknownFieldSkipped(fields: seq<Field>, u: seq<byte>, tag: nat, wireType: nat, payload: seq<byte>, b: seq<byte>, st: State)
    requires |st.m.slots| == |fields| && UnknownField(fields, u, tag, wireType, payload)
    ensures DecodePass(fields, u + b, st) == Next(tag, st, b)
  {
    hide *;
    UnknownParts(fields, u, tag, wireType, payload);
    KeyDecodes(tag, wireType, payload + b);
    assert u + b == Key(tag, wireType) + (payload + b) && payload + [] == payload;
    SkipIsLocal(wireType, payload, [], b);
    UnknownPass(fields, u + b, tag, wireType, payload + b, st);
  }

  lemma UnknownParts(fields: seq<Field>, u: seq<byte>, tag: nat, wireType: nat, payload: seq<byte>)
    requires UnknownField(fields, u, tag, wireType, payload)
    ensures 1 <= tag < 0x2000_0000 && wireType < 8
    ensures forall i | 0 <= i < |fields| :: fields[i].tag != tag
    ensures u == Key(tag, wireType) + payload && SkipField(wireType, payload) == Some([])
  {
  }

  lemma KeyDecodes(tag: nat, wireType: nat, rest: seq<byte>)
    requires tag < 0x2000_0000 && wireType < 8
    ensures DecodeVarint32(Key(tag, wireType) + rest) == Done(tag * 8 + wireType, rest)
  {
    hide DecodeVarint32, EncodeVarint;
    Varint32Outcome(tag * 8 + wireType, rest);
  }

  lemma UnknownPass(fields: seq<Field>, s: seq<byte>, tag: nat, wireType: nat, rest: seq<byte>, st: State)
    requires |st.m.slots| == |fields| && tag >= 1 && wireType < 8
    requires forall i | 0 <= i < |fields| :: fields[i].tag != tag
    requires DecodeVarint32(s) == Done(tag * 8 + wireType, rest) && SkipField(wireType, rest).Some?
    ensures DecodePass(fields, s, st) == Next(tag, st, SkipField(wireType, rest).value)
  {
    hide DecodeVarint32, SkipField;
    assert (tag * 8 + wireType) / 8 == tag && (tag * 8 + wireType) % 8 == wireType;
  }

  // Put between two fields, or before the first or after the last, it changes nothing.
  lemma UnknownFieldIgnored(fields: seq<Field>, p: seq<byte>, u: seq<byte>, b: seq<byte>, tag: nat, wireType: nat,
                            payload: seq<byte>, m: Message, st: State)
    requires |m.slots| == |fields| && UnknownField(fields, u, tag, wireType, payload)
    requires Fields(fields, p, State(m, {}, None, 0), st)
    ensures DecodeNoinit(fields, p + u + b, m) == DecodeNoinit(fields, p + b, m)
  {
    var start := State(m, {}, None, 0);
    assert p + u + b == p + (u + b);
    hide DecodePass, Fields;
    FieldsThenRest(fields, p, u + b, start, st);
    FieldsThenRest(fields, p, b, start, st);
    UnknownFieldSkipped(fields, u, tag, wireType, payload, b, st);
  }
}
