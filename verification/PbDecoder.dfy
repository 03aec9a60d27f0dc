// The nanopb decoder: an input stream, and the loop that fills a message.
module PbFieldsSeen {
  import opened Wire
  import opened PbVarint

  // Bit k of an unsigned integer
  predicate NatBit(w: nat, k: nat) {
    if k == 0 then w % 2 == 1 else NatBit(w / 2, k - 1)
  }

  lemma {:induction false} NoBitOfZero(k: nat)
    ensures !NatBit(0, k)
  {
    if k != 0 {
      NoBitOfZero(k - 1);
    }
  }

  lemma {:induction false} NatBitOfOr(a: nat, b: nat, k: nat)
    ensures NatBit(Or(a, b), k) <==> NatBit(a, k) || NatBit(b, k)
    decreases k
  {
    if a == 0 {
      NoBitOfZero(k);
    } else if k != 0 {
      assert Or(a, b) / 2 == Or(a / 2, b / 2);
      NatBitOfOr(a / 2, b / 2, k - 1);
    }
  }

  lemma {:induction false} NatBitOfPower(j: nat, k: nat)
    ensures NatBit(Pow2(j), k) <==> j == k
    decreases k
  {
    if j == 0 && k != 0 {
      NoBitOfZero(k - 1);
    } else if j != 0 && k != 0 {
      NatBitOfPower(j - 1, k - 1);
    }
  }

  ghost predicate LowBits(w: nat, n: nat) {
    forall k: nat :: NatBit(w, k) <==> k < n
  }

  lemma {:induction false} AllOnes(w: nat, n: nat)
    ensures LowBits(w, n) <==> w == Pow2(n) - 1
    decreases n
  {
    if n == 0 {
      if w != 0 {
        var k := HasBit(w);
      } else {
        forall k: nat
          ensures !NatBit(0, k)
        {
          NoBitOfZero(k);
        }
      }
    } else {
      AllOnes(w / 2, n - 1);
      if LowBits(w, n) {
        forall k: nat
          ensures NatBit(w / 2, k) <==> k < n - 1
        {
          assert NatBit(w, k + 1) <==> k + 1 < n;
        }
        assert NatBit(w, 0);
      }
      if w == Pow2(n) - 1 {
        forall k: nat
          ensures NatBit(w, k) <==> k < n
        {
          if k != 0 {
            assert NatBit(w / 2, k - 1) <==> k - 1 < n - 1;
          }
        }
      }
    }
  }

  lemma {:induction false} HasBit(w: nat) returns (k: nat)
    requires w != 0
    ensures NatBit(w, k)
  {
    if w % 2 == 1 {
      k := 0;
    } else {
      k := HasBit(w / 2);
      k := k + 1;
    }
  }

  // w >> k
  function Shr(w: nat, k: nat): nat {
    if k == 0 then w else Shr(w / 2, k - 1)
  }

  lemma {:induction false} ShiftedOnes(n: nat, k: nat)
    ensures Shr(Pow2(n + k) - 1, k) == Pow2(n) - 1
    decreases k
  {
    if k != 0 {
      assert (Pow2(n + k) - 1) / 2 == Pow2(n + (k - 1)) - 1;
      ShiftedOnes(n, k - 1);
    }
  }

  // The words of fields_seen hold exactly the marked indices.
  ghost predicate Holds(words: seq<nat>, seen: set<nat>) {
    |words| == 2 && forall j, k: nat | 0 <= j < 2 :: NatBit(words[j], k) <==> k < 32 && 32 * j + k in seen
  }

  lemma NothingSeen()
    ensures Holds([0, 0], {})
  {
    forall k: nat
      ensures !NatBit(0, k)
    {
      NoBitOfZero(k);
    }
  }

  // fields_seen[i >> 5] |= 1 << (i & 31)
  function Mark(words: seq<nat>, i: nat): seq<nat>
    requires |words| == 2 && i < 64
  {
    words[i / 32 := Or(words[i / 32], Shl(1, i % 32, 32))]
  }

  lemma MarkHolds(words: seq<nat>, seen: set<nat>, i: nat)
    requires Holds(words, seen) && i < 64
    ensures Holds(Mark(words, i), seen + {i})
  {
    var bit := Shl(1, i % 32, 32);
    assert bit == Pow2(i % 32) by {
      Pow2Add(i % 32, 32 - i % 32);
      assert Pow2(32 - i % 32) >= 2;
      Below(Pow2(i % 32), Pow2(32 - i % 32));
      SmallMod(Pow2(i % 32), Pow2(32));
    }
    forall j, k: nat | 0 <= j < 2
      ensures NatBit(Mark(words, i)[j], k) <==> k < 32 && 32 * j + k in seen + {i}
    {
      NatBitOfOr(words[j], bit, k);
      NatBitOfPower(i % 32, k);
    }
  }

  lemma Below(a: nat, b: nat)
    requires a >= 1 && b >= 2
    ensures a < a * b
  {
    assert a * 2 <= a * b;
  }

  // One whole word, or the last bits
  lemma WordSeen(words: seq<nat>, seen: set<nat>, j: nat, n: nat)
    requires Holds(words, seen) && j < 2 && n <= 32
    requires forall i | i in seen && i >= 32 * j && i < 32 * j + 32 :: i < 32 * j + n
    ensures words[j] == Pow2(n) - 1 <==> forall i | 32 * j <= i < 32 * j + n :: i in seen
  {
    AllOnes(words[j], n);
    hide NatBit, Pow2;
    if forall i | 32 * j <= i < 32 * j + n :: i in seen {
      forall k: nat
        ensures NatBit(words[j], k) <==> k < n
      {
        assert NatBit(words[j], k) <==> k < 32 && 32 * j + k in seen;
      }
    }
    if LowBits(words[j], n) {
      forall i: nat | 32 * j <= i < 32 * j + n
        ensures i in seen
      {
        assert NatBit(words[j], i - 32 * j);
      }
    }
  }

  lemma WordSize(words: seq<nat>, seen: set<nat>)
    requires Holds(words, seen)
    ensures |words| == 2
  {
  }

  // The check at the end of pb_decode_noinit, for n required fields
  method AllSeen(words: seq<nat>, n: nat, ghost seen: set<nat>) returns (all: bool)
    requires Holds(words, seen) && n <= 64 && forall i | i in seen :: i < n
    ensures all <==> forall i | 0 <= i < n :: i in seen
  {
    hide Holds, Shr, Pow2;
    Pow2Values();
    WordSize(words, seen);
    var whole, part := n / 32, n % 32;
    if n > 0 {
      var i := 0;
      while i < whole
        invariant i <= whole && forall k | 0 <= k < 32 * i :: k in seen
      {
        WordSeen(words, seen, i, 32);
        if words[i] != TWO_32 - 1 {
          return false;
        }
        i := i + 1;
      }
      if part != 0 {
        ShiftedOnes(part, 32 - part);
        WordSeen(words, seen, whole, part);
        if words[whole] != Shr(TWO_32 - 1, 32 - part) {
          return false;
        }
      }
    }
    return true;
  }
}

module PbDecoder {
  import opened Wire
  import opened PbVarint
  import opened PbMessage
  import opened PbDecode
  import opened PbFieldIter
  import opened PbFieldsSeen

  // The method did what its specification says: the value, and the bytes left.
  ghost predicate Took<T>(ok: bool, value: T, left: seq<byte>, spec: Option<(T, seq<byte>)>) {
    (ok <==> spec.Some?) && (ok ==> spec.value == (value, left))
  }

  lemma NothingToDecode(s: seq<byte>, k: nat, acc: nat)
    ensures k >= 64 || s == [] ==> DecodeVarintFrom(s, k, acc).None?
  {
  }

  // Descriptor tables the decoder can search: at every level the tags are
  // distinct and none is zero.
  ghost predicate FieldTable(f: Field)
    decreases f
  {
    f.tag >= 1 && f.dataSize < TWO_32 && (f.ltype == Submessage ==> Table(f.sub))
  }

  ghost predicate Table(fields: seq<Field>)
    decreases fields
  {
    TagsDistinct(fields) && forall i | 0 <= i < |fields| :: FieldTable(fields[i])
  }

  lemma {:induction false} OkTypeIsTable(fields: seq<Field>)
    requires TypeOk(fields)
    ensures Table(fields)
    decreases fields
  {
    forall i | 0 <= i < |fields|
      ensures FieldTable(fields[i])
    {
      if fields[i].ltype == Submessage {
        OkTypeIsTable(fields[i].sub);
      }
    }
  }

  function DecodeDelimited(f: Field, s: seq<byte>): Option<(Value, seq<byte>)> {
    var c := Chunk(s);
    if c.None? then None
    else
      var d := DataOf(f, c.value.0);
      if d.None? then None else Some((d.value, c.value.1))
  }

  lemma DelimitedIsValue(f: Field, s: seq<byte>, prior: Value)
    ensures f.ltype in {Bytes, String, FixedLengthBytes} ==> DecodeValue(f, s, prior) == DecodeDelimited(f, s)
  {
    hide Chunk, DataOf;
  }

  // ---- Steps of the loops below ----

  lemma PackedNext(f: Field, i: nat, s: seq<byte>, st: State)
    requires i < |st.m.slots| && s != []
    ensures var n := DecodeNum(f, s);
      DecodePacked(f, i, s, st)
      == if n.None? then None
         else
           var st' := Put(f, i, st, Num(n.value.0));
           if st'.None? then None else DecodePacked(f, i, n.value.1, st'.value)
  {
    hide DecodeNum, Put;
  }

  lemma PackedEnd(f: Field, i: nat, st: State)
    requires i < |st.m.slots|
    ensures DecodePacked(f, i, [], st) == Some(st)
  {
  }

  // Bytes are left, but no room.
  lemma PackedFull(f: Field, i: nat, s: seq<byte>, st: State)
    requires i < |st.m.slots| && s != []
    requires (if st.m.slots[i].Many? && f.htype.Repeated? then |st.m.slots[i].items| else st.fixedSize) >= f.arraySize
    ensures DecodePacked(f, i, s, st).None?
  {
    PackedNext(f, i, s, st);
    hide DecodePacked, DecodeNum;
  }

  lemma SizeAfterPut(f: Field, i: nat, st: State, v: Value)
    requires i < |st.m.slots| && Put(f, i, st, v).Some?
    ensures var st' := Put(f, i, st, v).value;
      |st'.m.slots| == |st.m.slots|
      && st.m.slots[i].Many? && st'.m.slots[i].Many?
      && (if f.htype.Repeated? then |st'.m.slots[i].items| == |st.m.slots[i].items| + 1 else st'.fixedSize == st.fixedSize + 1)
  {
  }

  ghost predicate SeenInRange(fields: seq<Field>, seen: set<nat>) {
    forall k | k in seen :: k < CheckedRequired(fields)
  }

  lemma SeenSafe(fields: seq<Field>, seen: set<nat>)
    requires seen == {}
    ensures SeenInRange(fields, seen)
  {
  }

  lemma SeenMore(fields: seq<Field>, seen: set<nat>, i: nat)
    requires SeenInRange(fields, seen) && i < |fields| && fields[i].htype.Required? && RequiredBefore(fields, i) < MAX_REQUIRED
    ensures SeenInRange(fields, seen + {RequiredBefore(fields, i)})
  {
    RequiredGrows(fields, i, |fields|);
  }

  lemma LoopStops(fields: seq<Field>, s: seq<byte>, st: State)
    requires |st.m.slots| == |fields|
    ensures match DecodeVarint32(s)
      case Failed => DecodeLoop(fields, s, st).None?
      case Done(v, rest) => v == 0 ==> DecodeLoop(fields, s, st) == Some((st, rest))
      case Eof => true
  {
    hide DecodeVarint32;
  }

  lemma LoopEmpty(fields: seq<Field>, st: State)
    requires |st.m.slots| == |fields|
    ensures DecodeLoop(fields, [], st) == Some((st, []))
  {
  }

  // What happens to the field that was found
  function FoundField(fields: seq<Field>, i: nat, wireType: nat, s: seq<byte>, st: State): (r: Option<(State, seq<byte>)>)
    requires i < |fields| == |st.m.slots|
    ensures r.Some? ==> |r.value.0.m.slots| == |fields| && |r.value.1| < |s|
  {
    var e := Enter(fields, i, st);
    if e.None? then None else DecodeField(fields[i], i, wireType, s, e.value)
  }

  // The loop, once the tag is read
  function LoopAfterTag(fields: seq<Field>, tag: nat, wireType: nat, s: seq<byte>, st: State): Option<(State, seq<byte>)>
    requires |st.m.slots| == |fields|
  {
    match PbDecode.Find(fields, tag)
    case None =>
      if fields == [] && tag == 0 then None
      else
        var r := PbDecode.SkipField(wireType, s);
        if r.None? then None else DecodeLoop(fields, r.value, st)
    case Some(i) =>
      var r := FoundField(fields, i, wireType, s, st);
      if r.None? then None else DecodeLoop(fields, r.value.1, r.value.0)
  }

  lemma PassAfterTag(fields: seq<Field>, tag: nat, wireType: nat, s: seq<byte>, st: State)
    requires |st.m.slots| == |fields|
    ensures var p := TaggedPass(fields, tag, wireType, s, st);
      && !p.Stop?
      && (p.Error? ==> LoopAfterTag(fields, tag, wireType, s, st).None?)
      && (p.Next? ==> LoopAfterTag(fields, tag, wireType, s, st) == DecodeLoop(fields, p.rest, p.st))
  {
    hide PbDecode.Find, PbDecode.SkipField, Enter, DecodeField, DecodeLoop;
  }

  lemma LoopTagged(fields: seq<Field>, s: seq<byte>, st: State)
    requires |st.m.slots| == |fields| && DecodeVarint32(s).Done? && DecodeVarint32(s).value != 0
    ensures var d := DecodeVarint32(s);
      DecodeLoop(fields, s, st) == LoopAfterTag(fields, d.value / 8, d.value % 8, d.rest, st)
  {
    var d := DecodeVarint32(s);
    PassAfterTag(fields, d.value / 8, d.value % 8, d.rest, st);
    hide DecodeVarint32, TaggedPass, LoopAfterTag;
  }

  // Searching round the table finds what searching from its start does.
  lemma FindIs(fields: seq<Field>, tag: nat, pos: nat, found: bool)
    requires Table(fields)
    requires found <==> (fields == [] && tag == 0) || exists i :: 0 <= i < |fields| && fields[i].tag == tag
    requires found && fields != [] ==> pos < |fields| && fields[pos].tag == tag
    ensures PbDecode.Find(fields, tag) == if found && fields != [] then Some(pos) else None
    ensures found && fields == [] ==> tag == 0
    ensures !found ==> fields != [] || tag != 0
  {
    if found && fields != [] {
      FindFinds(fields, pos);
    }
  }

  lemma FieldOf(fields: seq<Field>, i: nat)
    requires Table(fields) && i < |fields|
    ensures FieldTable(fields[i])
  {
  }

  lemma TagsNonZero(fields: seq<Field>)
    requires Table(fields)
    ensures forall i | 0 <= i < |fields| :: fields[i].tag >= 1
  {
    forall i | 0 <= i < |fields|
      ensures fields[i].tag >= 1
    {
      FieldOf(fields, i);
    }
  }

  lemma GroupsNext(fields: seq<Field>, k: nat)
    requires k < |fields|
    ensures Groups(fields[..k + 1]) == Groups(fields[..k]) + if fields[k].htype.Oneof? then {fields[k].htype.group} else {}
  {
    var a, b := fields[..k], fields[..k + 1];
    forall g | g in Groups(b)
      ensures g in Groups(a) || (fields[k].htype.Oneof? && g == fields[k].htype.group)
    {
      var i :| 0 <= i < |b| && b[i].htype.Oneof? && b[i].htype.group == g;
      if i < k {
        assert a[i] == b[i];
      }
    }
    forall g | g in Groups(a)
      ensures g in Groups(b)
    {
      var i :| 0 <= i < |a| && a[i].htype.Oneof? && a[i].htype.group == g;
      assert b[i] == a[i];
    }
    if fields[k].htype.Oneof? {
      assert b[k] == fields[k];
    }
  }

  // pb_istream_t over a buffer
  class IStream {
    const data: seq<byte>
    var pos: nat
    var bytesLeft: nat

    ghost predicate Valid()
      reads this
    {
      pos + bytesLeft <= |data|
    }

    function Left(): (s: seq<byte>)
      requires Valid()
      reads this
      ensures |s| == bytesLeft
    {
      data[pos..pos + bytesLeft]
    }

    ghost function End(): nat
      reads this
    {
      pos + bytesLeft
    }

    // pb_istream_from_buffer, and the copies made for substreams
    constructor (d: seq<byte>, p: nat, n: nat)
      requires p + n <= |d|
      ensures Valid() && data == d && pos == p && bytesLeft == n
    {
      data, pos, bytesLeft := d, p, n;
    }

    // pb_readbyte
    method ReadByte() returns (ok: bool, b: byte)
      requires Valid()
      modifies this
      ensures Valid() && End() == old(End())
      ensures ok <==> old(Left()) != []
      ensures if ok then b == old(Left())[0] && Left() == old(Left())[1..] else Left() == []
    {
      if bytesLeft == 0 {
        return false, 0;
      }
      b := data[pos];
      pos := pos + 1;
      bytesLeft := bytesLeft - 1;
      ok := true;
    }

    // pb_read: what is read, or skipped where there is no buffer
    method Read(count: nat) returns (ok: bool, bytes: seq<byte>)
      requires Valid()
      modifies this
      ensures Valid() && End() == old(End())
      ensures ok <==> count <= |old(Left())|
      ensures if ok then bytes == old(Left())[..count] && Left() == old(Left())[count..] else Left() == old(Left())
    {
      if bytesLeft < count {
        return false, [];
      }
      bytes := data[pos..pos + count];
      pos := pos + count;
      bytesLeft := bytesLeft - count;
      ok := true;
    }

    // pb_decode_varint32_eof
    method DecodeVarint32Eof() returns (ok: bool, value: nat, eof: bool)
      requires Valid()
      modifies this
      ensures Valid() && End() == old(End())
      ensures eof <==> old(Left()) == []
      ensures ok <==> DecodeVarint32(old(Left())).Done?
      ensures ok ==> DecodeVarint32(old(Left())) == Done(value, Left())
    {
      ghost var all := Left();
      eof, value := false, 0;
      var b;
      ok, b := ReadByte();
      if !ok {
        eof := bytesLeft == 0;
        return;
      }
      if b < 128 {
        value := b;
        return;
      }
      var bitpos := 7;
      value := b % 128;
      var more := true;
      while more
        invariant Valid() && End() == old(End()) && 0 <= bitpos < 256
        invariant more ==> DecodeVarint32(all) == DecodeVarint32From(Left(), bitpos, value)
        invariant !more ==> DecodeVarint32(all) == if bitpos == 35 && b / 16 % 8 != 0 then Failed else Done(value, Left())
        decreases if more then bytesLeft + 1 else 0
      {
        ok, b := ReadByte();
        if !ok {
          return;
        }
        if bitpos >= 32 {
          var signExtension := if bitpos < 63 then 0xFF else 0x01;
          if b % 128 != 0 && (value < TWO_32 / 2 || b != signExtension) {
            // "varint overflow"
            return false, value, false;
          }
        } else {
          value := AddBits(value, b, bitpos, 32);
        }
        bitpos := (bitpos + 7) % 256;
        more := b >= 128;
      }
      // Of a last byte at bit position 28, only four bits fit.
      ok := !(bitpos == 35 && b / 16 % 8 != 0);
    }

    // pb_decode_varint
    method DecodeVarint() returns (ok: bool, value: nat)
      requires Valid()
      modifies this
      ensures Valid() && End() == old(End())
      ensures Took(ok, value, Left(), PbVarint.DecodeVarint(old(Left())))
    {
      ghost var all := Left();
      var bitpos, more, b := 0, true, 0;
      value := 0;
      hide AddBits, DecodeVarintFrom;
      while more
        invariant Valid() && End() == old(End()) && 0 <= bitpos <= 70
        invariant more ==> PbVarint.DecodeVarint(all) == DecodeVarintFrom(Left(), bitpos, value)
        invariant !more ==> PbVarint.DecodeVarint(all) == Some((value, Left()))
        decreases if more then bytesLeft + 1 else 0
      {
        NothingToDecode(Left(), bitpos, value);
        if bitpos >= 64 {
          // "varint overflow"
          return false, value;
        }
        ghost var left := Left();
        ok, b := ReadByte();
        if !ok {
          return;
        }
        UnfoldDecode(left, bitpos, value);
        value := AddBits(value, b, bitpos, 64);
        SmallMod(bitpos + 7, 256);
        bitpos := (bitpos + 7) % 256;
        more := b >= 128;
      }
      ok := true;
    }

    // pb_skip_varint
    method SkipVarint() returns (ok: bool)
      requires Valid()
      modifies this
      ensures Valid() && End() == old(End())
      ensures ok <==> PbDecode.SkipVarint(old(Left())).Some?
      ensures ok ==> PbDecode.SkipVarint(old(Left())) == Some(Left())
    {
      ghost var all := Left();
      var more := true;
      while more
        invariant Valid() && End() == old(End())
        invariant PbDecode.SkipVarint(all) == if more then PbDecode.SkipVarint(Left()) else Some(Left())
        decreases if more then bytesLeft + 1 else 0
      {
        var bytes;
        ok, bytes := Read(1);
        if !ok {
          return;
        }
        more := bytes[0] >= 128;
      }
      ok := true;
    }

    // pb_make_string_substream.  The stream itself only moves on when the
    // substream is closed.
    method MakeSubstream() returns (ok: bool, sub: IStream)
      requires Valid()
      modifies this
      ensures Valid() && sub.Valid() && fresh(sub)
      ensures ok <==> Chunk(old(Left())).Some?
      ensures ok ==>
        sub.data == data && sub.Left() == Chunk(old(Left())).value.0 && sub.bytesLeft < old(bytesLeft)
        && sub.End() + bytesLeft == old(End()) && data[sub.End()..sub.End() + bytesLeft] == Chunk(old(Left())).value.1
      ensures !ok ==> End() == old(End())
    {
      hide DecodeVarint32;
      var size, eof;
      ok, size, eof := DecodeVarint32Eof();
      sub := new IStream(data, pos, bytesLeft);
      if !ok {
        return;
      }
      if sub.bytesLeft < size {
        // "parent stream too short"
        return false, sub;
      }
      sub.bytesLeft := size;
      bytesLeft := bytesLeft - size;
    }

    // pb_close_string_substream
    method CloseSubstream(sub: IStream)
      requires Valid() && sub.Valid() && sub != this && sub.data == data && sub.End() + bytesLeft <= |data|
      modifies this`pos, sub
      ensures Valid() && Left() == old(data[sub.End()..sub.End() + bytesLeft]) && End() == old(sub.End() + bytesLeft)
    {
      if sub.bytesLeft != 0 {
        var ok, skipped := sub.Read(sub.bytesLeft);
      }
      pos := sub.pos;
    }

    // pb_skip_field
    method SkipField(wireType: nat) returns (ok: bool)
      requires Valid()
      modifies this
      ensures Valid() && End() == old(End())
      ensures ok <==> PbDecode.SkipField(wireType, old(Left())).Some?
      ensures ok ==> PbDecode.SkipField(wireType, old(Left())) == Some(Left())
    {
      ghost var all := Left();
      var bytes;
      if wireType == 0 {
        ok := SkipVarint();
      } else if wireType == 1 {
        ok, bytes := Read(8);
      } else if wireType == 2 {
        // pb_skip_string
        var length, eof;
        ok, length, eof := DecodeVarint32Eof();
        if ok {
          ok, bytes := Read(length);
        }
      } else if wireType == 5 {
        ok, bytes := Read(4);
      } else {
        // "invalid wire_type"
        ok := false;
      }
    }

    // pb_decode_tag
    method DecodeTag() returns (ok: bool, wireType: nat, tag: nat, eof: bool)
      requires Valid()
      modifies this
      ensures Valid() && End() == old(End())
      ensures match DecodeVarint32(old(Left()))
        case Eof => !ok && eof
        case Failed => !ok && !eof
        case Done(v, rest) => Left() == rest && if v == 0 then !ok && eof else ok && !eof && tag == v / 8 && wireType == v % 8
    {
      hide DecodeVarint32;
      wireType, tag := 0, 0;
      var temp;
      ok, temp, eof := DecodeVarint32Eof();
      if !ok {
        return;
      }
      if temp == 0 {
        // A message may also end with a zero.
        return false, 0, 0, true;
      }
      tag, wireType := temp / 8, temp % 8;
    }

    // pb_dec_varint, pb_dec_uvarint, pb_dec_svarint, pb_dec_fixed32 and pb_dec_fixed64
    method DecNumber(f: Field) returns (ok: bool, n: int)
      requires Valid() && Numeric(f.ltype)
      modifies this
      ensures Valid() && End() == old(End())
      ensures Took(ok, n, Left(), DecodeNum(f, old(Left())))
    {
      hide PbVarint.DecodeVarint, DecodeFixed;
      n := 0;
      if f.ltype == Fixed32 || f.ltype == Fixed64 {
        var bytes;
        ok, bytes := Read(if f.ltype == Fixed32 then 4 else 8);
        if ok {
          n := DecodeFixed(bytes);
        }
        return;
      }
      var value;
      ok, value := DecodeVarint();
      if !ok {
        return false, 0;
      }
      ok, n := Cast(f, value);
    }

    // The casts to the size of the field, which must not change the value.
    static method Cast(f: Field, value: nat) returns (ok: bool, n: int)
      requires value < TWO_64 && f.ltype in {Varint, UVarint, SVarint}
      ensures if ok then Narrow(f, value) == Some(n) else Narrow(f, value) == None
    {
      var size := f.dataSize;
      if size !in {1, 2, 4, 8} {
        // "invalid data_size"
        return false, 0;
      }
      if f.ltype == UVarint {
        n := if size == 8 then value else if size == 4 then value % TWO_32 else if size == 2 then value % 0x1_0000 else value % 0x100;
        ok := n == value;
        return;
      }
      var svalue;
      if f.ltype == SVarint {
        svalue := UnZigZag(value);
      } else {
        // Fields of up to 32 bits are cast to 32 bits first.
        svalue := if size == 8 then Signed(value, TWO_64 / 2) else Signed(value, TWO_32 / 2);
      }
      n := if size == 8 then svalue else Signed(svalue, Half(size));
      ok := n == svalue;
    }

    // pb_dec_bytes, pb_dec_string, pb_dec_fixed_length_bytes
    method DecData(f: Field) returns (ok: bool, v: Value)
      requires Valid() && f.ltype in {Bytes, String, FixedLengthBytes} && f.dataSize < TWO_32
      modifies this
      ensures Valid() && End() == old(End())
      ensures Took(ok, v, Left(), DecodeDelimited(f, old(Left())))
    {
      hide DecodeVarint32;
      v := Data([]);
      var size, eof, bytes;
      ok, size, eof := DecodeVarint32Eof();
      if !ok {
        return;
      }
      if f.ltype == Bytes {
        if size + BYTES_HEADER > f.dataSize {
          // "bytes overflow"
          return false, v;
        }
      } else if f.ltype == String {
        // The size with a terminator, in 32 bits
        var allocSize := (size + 1) % TWO_32;
        if allocSize < size || allocSize > f.dataSize {
          // "string overflow"
          return false, v;
        }
      } else {
        if size == 0 {
          return true, Data(Zeros(f.dataSize));
        }
        if size != f.dataSize {
          // "incorrect fixed length bytes size"
          return false, v;
        }
      }
      ok, bytes := Read(size);
      v := Data(bytes);
    }

    // pb_dec_submessage
    method DecSubmessage(f: Field, prior: Value) returns (ok: bool, v: Value)
      requires Valid() && f.ltype == Submessage && Table(f.sub)
      modifies this
      ensures Valid() && (ok ==> End() == old(End()))
      ensures Took(ok, v, Left(), DecodeValue(f, old(Left()), prior))
      decreases bytesLeft, 0
    {
      hide Chunk, PbDecode.DecodeNoinit, DefaultMessage, Table;
      v := Num(0);
      var sub, m;
      ok, sub := MakeSubstream();
      if !ok {
        return;
      }
      if (f.htype.Required? || f.htype.Optional? || f.htype.Singular?) && prior.Msg? {
        ok, m := sub.DecodeNoinit(f.sub, prior.m);
      } else {
        // New array entries, and union members, start from the defaults.
        ok, m := sub.Decode(f.sub);
      }
      if ok {
        v := Msg(m);
        CloseSubstream(sub);
      }
    }

    // Dispatch through PB_DECODERS.
    method DecValue(f: Field, prior: Value) returns (ok: bool, v: Value)
      requires Valid() && FieldTable(f)
      modifies this
      ensures Valid() && (ok ==> End() == old(End()))
      ensures Took(ok, v, Left(), DecodeValue(f, old(Left()), prior))
      decreases bytesLeft, 1
    {
      hide DecodeNum, DecodeDelimited, Table;
      DelimitedIsValue(f, Left(), prior);
      if f.ltype == Submessage {
        ok, v := DecSubmessage(f, prior);
      } else if Numeric(f.ltype) {
        var n;
        ok, n := DecNumber(f);
        v := Num(n);
      } else {
        ok, v := DecData(f);
      }
    }

    // One more item of an array, where there is room.
    static method PutItem(f: Field, i: nat, m: Message, count: nat, v: Value, ghost st: State)
      returns (ok: bool, m': Message, count': nat)
      requires i < |m.slots| && st.m == m && st.fixedSize == count && (f.htype.Repeated? || f.htype.FixedCount?)
      ensures |m'.slots| == |m.slots|
      ensures Put(f, i, st, v) == if ok then Some(st.(m := m', fixedSize := count')) else None
    {
      m', count' := m, count;
      if !m.slots[i].Many? {
        return false, m, count;
      }
      var items := m.slots[i].items;
      var size := if f.htype.Repeated? then |items| else count;
      if size >= f.arraySize || size > |items| || (f.htype.FixedCount? && size == |items|) {
        // "array overflow"
        return false, m, count;
      }
      if f.htype.Repeated? {
        m' := m.(slots := m.slots[i := Many(items + [v])]);
      } else {
        m', count' := m.(slots := m.slots[i := Many(items[size := v])]), size + 1;
      }
      ok := true;
    }

    // The packed branch of decode_static_field
    method DecodePackedArray(f: Field, i: nat, m: Message, count: nat, ghost st: State)
      returns (ok: bool, m': Message, count': nat)
      requires Valid() && Numeric(f.ltype) && (f.htype.Repeated? || f.htype.FixedCount?)
      requires i < |m.slots| && st.m == m && st.fixedSize == count
      modifies this
      ensures Valid() && |m'.slots| == |m.slots| && (ok ==> End() == old(End()))
      ensures ok <==> DecodeField(f, i, 2, old(Left()), st).Some?
      ensures ok ==> DecodeField(f, i, 2, old(Left()), st).value == (st.(m := m', fixedSize := count'), Left())
    {
      hide Chunk, DecodeNum, DecodePacked, Put;
      m', count' := m, count;
      var sub: IStream;
      ok, sub := MakeSubstream();
      if !ok {
        return;
      }
      ghost var chunk := sub.Left();
      ghost var end := sub.End();
      var status := true;
      var size := if m.slots[i].Many? && f.htype.Repeated? then |m.slots[i].items| else count;
      while sub.bytesLeft > 0 && size < f.arraySize && status
        modifies sub
        invariant Valid() && sub.Valid() && sub.End() == end && i < |m'.slots| == |m.slots|
        invariant status ==> DecodePacked(f, i, chunk, st) == DecodePacked(f, i, sub.Left(), st.(m := m', fixedSize := count'))
        invariant status ==> size == if m'.slots[i].Many? && f.htype.Repeated? then |m'.slots[i].items| else count'
        invariant !status ==> DecodePacked(f, i, chunk, st).None?
        decreases if status then sub.bytesLeft + 1 else 0
      {
        ghost var left, st' := sub.Left(), st.(m := m', fixedSize := count');
        var n;
        status, n := sub.DecNumber(f);
        PackedNext(f, i, left, st');
        if status {
          status, m', count' := PutItem(f, i, m', count', Num(n), st');
          if status {
            SizeAfterPut(f, i, st', Num(n));
          }
          size := size + 1;
        }
      }
      if sub.bytesLeft != 0 {
        // "array overflow"
        if status {
          PackedFull(f, i, sub.Left(), st.(m := m', fixedSize := count'));
        }
        return false, m', count';
      }
      CloseSubstream(sub);
      ok := status;
      if status {
        PackedEnd(f, i, st.(m := m', fixedSize := count'));
      }
    }

    // decode_static_field
    method DecodeStaticField(f: Field, i: nat, wireType: nat, m: Message, count: nat, ghost st: State)
      returns (ok: bool, m': Message, count': nat)
      requires Valid() && FieldTable(f) && i < |m.slots| && st.m == m && st.fixedSize == count
      modifies this
      ensures Valid() && |m'.slots| == |m.slots| && (ok ==> End() == old(End()))
      ensures ok <==> DecodeField(f, i, wireType, old(Left()), st).Some?
      ensures ok ==> DecodeField(f, i, wireType, old(Left()), st).value == (st.(m := m', fixedSize := count'), Left())
      decreases bytesLeft, 2
    {
      hide Chunk, DecodeValue, DecodePacked, Put, FieldTable;
      m', count' := m, count;
      var isArray := f.htype.Repeated? || f.htype.FixedCount?;
      if isArray && wireType == 2 && Numeric(f.ltype) {
        ok, m', count' := DecodePackedArray(f, i, m, count, st);
        return;
      }
      var v;
      ok, v := DecValue(f, if m.slots[i].Single? then m.slots[i].v else Num(0));
      if !ok {
        return;
      }
      if isArray {
        ok, m', count' := PutItem(f, i, m, count, v, st);
      } else if f.htype.Oneof? {
        m' := m.(unions := m.unions[f.htype.group := Union(f.tag, v)]);
      } else {
        m' := m.(slots := m.slots[i := Single(f.htype.Optional?, v)]);
      }
    }

    // The part of pb_decode_noinit that reads the field the iterator found
    method DecodeKnownField(iter: FieldIter, wireType: nat, m: Message, fixedField: Option<nat>, fixedSize: nat,
                            fieldsSeen: seq<nat>, ghost st: State)
      returns (ok: bool, m': Message, fixedField': Option<nat>, fixedSize': nat, fieldsSeen': seq<nat>, ghost st': State)
      requires Valid() && iter.Valid() && iter.fields != [] && Table(iter.fields)
      requires |m.slots| == |iter.fields| && st == State(m, st.seen, fixedField, fixedSize)
      requires Holds(fieldsSeen, st.seen) && SeenInRange(iter.fields, st.seen)
      modifies this
      ensures Valid() && (ok ==> End() == old(End()))
      ensures |m'.slots| == |iter.fields| && st' == State(m', st'.seen, fixedField', fixedSize')
      ensures Holds(fieldsSeen', st'.seen) && SeenInRange(iter.fields, st'.seen)
      ensures FoundField(iter.fields, iter.pos, wireType, old(Left()), st) == if ok then Some((st', Left())) else None
      decreases bytesLeft, 3
    {
      hide Table, Holds, DecodeField, RequiredBefore, SeenInRange, Mark;
      var i, fields := iter.pos, iter.fields;
      FieldOf(fields, i);
      var f := fields[i];
      m', fixedField', fixedSize', fieldsSeen', st' := m, fixedField, fixedSize, fieldsSeen, st;
      if f.htype.FixedCount? && fixedField != Some(i) {
        if fixedField.Some? && (fixedField.value >= |fields| || fixedSize != fields[fixedField.value].arraySize) {
          // "wrong size for fixed count field"
          return false, m', fixedField', fixedSize', fieldsSeen', st';
        }
        fixedField', fixedSize' := Some(i), 0;
      }
      if f.htype.Required? && iter.requiredFieldIndex < MAX_REQUIRED {
        WordSize(fieldsSeen, st.seen);
        MarkHolds(fieldsSeen, st.seen, iter.requiredFieldIndex);
        SeenMore(fields, st.seen, i);
        fieldsSeen' := Mark(fieldsSeen, iter.requiredFieldIndex);
      }
      ghost var entered := Enter(fields, i, st).value;
      ok, m', fixedSize' := DecodeStaticField(f, i, wireType, m', fixedSize', entered);
      st' := entered.(m := m', fixedSize := fixedSize');
    }

    // The loop of pb_decode_noinit
    method ReadFields(iter: FieldIter, m: Message, ghost start: State)
      returns (ok: bool, m': Message, fixedCountField: Option<nat>, fixedCountSize: nat, fieldsSeen: seq<nat>, ghost st: State)
      requires Valid() && iter.Valid() && Table(iter.fields) && |m.slots| == |iter.fields| && start == State(m, {}, None, 0)
      modifies this, iter
      ensures Valid() && (ok ==> End() == old(End()))
      ensures iter.Valid() && iter.fields == old(iter.fields) && |m'.slots| == |iter.fields|
      ensures Took(ok, st, Left(), DecodeLoop(iter.fields, old(Left()), start))
      ensures st == State(m', st.seen, fixedCountField, fixedCountSize)
      ensures Holds(fieldsSeen, st.seen) && SeenInRange(iter.fields, st.seen)
      decreases bytesLeft, 4
    {
      hide Table, DecodeLoop, Holds, FoundField, RequiredBefore, PbDecode.Find, PbDecode.SkipField, SeenInRange, DecodeVarint32;
      var fields := iter.fields;
      ghost var all := Left();
      m', fieldsSeen, fixedCountField, fixedCountSize, st := m, [0, 0], None, 0, start;
      NothingSeen();
      SeenSafe(fields, {});
      var eof := false;
      while bytesLeft > 0 && !eof
        modifies this, iter
        invariant Valid() && End() == old(End()) && bytesLeft <= old(bytesLeft)
        invariant iter.Valid() && iter.fields == fields && |m'.slots| == |fields|
        invariant st == State(m', st.seen, fixedCountField, fixedCountSize)
        invariant Holds(fieldsSeen, st.seen) && SeenInRange(fields, st.seen)
        invariant DecodeLoop(fields, all, start) == if eof then Some((st, Left())) else DecodeLoop(fields, Left(), st)
        decreases bytesLeft, !eof
      {
        ghost var left := Left();
        var tag, wireType, found;
        ok, wireType, tag, eof := DecodeTag();
        if !ok {
          LoopStops(fields, left, st);
          if !eof {
            return;
          }
        } else {
          LoopTagged(fields, left, st);
          found := iter.Find(tag);
          FindIs(fields, tag, iter.pos, found);
          if !found {
            ok := SkipField(wireType);
            if !ok {
              return;
            }
          } else if fields == [] {
            // The terminator was found: a field of no valid size.
            ok := false;
            return;
          } else {
            ok, m', fixedCountField, fixedCountSize, fieldsSeen, st :=
              DecodeKnownField(iter, wireType, m', fixedCountField, fixedCountSize, fieldsSeen, st);
            if !ok {
              return;
            }
          }
        }
      }
      ok := true;
      if !eof {
        LoopEmpty(fields, st);
        assert Left() == [];
      }
    }

    // pb_decode_noinit.  The fields not met keep what m has for them.
    method DecodeNoinit(fields: seq<Field>, m: Message) returns (ok: bool, m': Message)
      requires Valid() && Table(fields)
      modifies this
      ensures Valid() && (ok ==> End() == old(End()))
      ensures Took(ok, m', Left(), PbDecode.DecodeNoinit(fields, old(Left()), m))
      decreases bytesLeft, 5
    {
      m' := m;
      if |m.slots| != |fields| {
        return false, m;
      }
      hide Table, DecodeLoop, Holds, SeenInRange, Complete;
      var iter: FieldIter := new FieldIter(fields);
      var fixedCountField, fixedCountSize, fieldsSeen;
      ghost var st;
      ok, m', fixedCountField, fixedCountSize, fieldsSeen, st := ReadFields(iter, m, State(m, {}, None, 0));
      if ok {
        ok := CheckEnd(fields, iter, fixedCountField, fixedCountSize, fieldsSeen, st);
      }
    }

    // The checks after the loop: the last fixed-count array is complete, and so
    // are the required fields.
    static method CheckEnd(fields: seq<Field>, iter: FieldIter, fixedField: Option<nat>, fixedSize: nat, fieldsSeen: seq<nat>, ghost st: State)
      returns (ok: bool)
      requires iter.Valid() && iter.fields == fields && Table(fields)
      requires st.fixedField == fixedField && st.fixedSize == fixedSize
      requires Holds(fieldsSeen, st.seen) && SeenInRange(fields, st.seen)
      modifies iter
      ensures ok <==> Complete(fields, st)
    {
      if fixedField.Some? && (fixedField.value >= |fields| || fixedSize != fields[fixedField.value].arraySize) {
        // "wrong size for fixed count field"
        return false;
      }
      TagsNonZero(fields);
      hide Holds, Table, RequiredBefore;
      var count := RequiredCount(iter);
      if count > MAX_REQUIRED {
        count := MAX_REQUIRED;
      }
      ok := AllSeen(fieldsSeen, count, st.seen);
    }

    // The number of required fields, from wherever the iterator stands.
    static method RequiredCount(iter: FieldIter) returns (count: nat)
      requires iter.Valid() && forall i | 0 <= i < |iter.fields| :: iter.fields[i].tag >= 1
      modifies iter
      ensures count == RequiredBefore(iter.fields, |iter.fields|)
      ensures iter.fields == old(iter.fields)
    {
      var lastRequired, more := false, true;
      count := 0;
      while more
        modifies iter
        invariant iter.Valid() && iter.fields == old(iter.fields)
        invariant !more && iter.fields != [] ==>
          count == RequiredBefore(iter.fields, |iter.fields| - 1) && lastRequired == iter.fields[|iter.fields| - 1].htype.Required?
        invariant !more && iter.fields == [] ==> count == 0 && lastRequired
        decreases if more then |iter.fields| + 1 - iter.pos else 0
      {
        count := iter.requiredFieldIndex;
        lastRequired := iter.fields == [] || iter.fields[iter.pos].htype.Required?;
        more := iter.Next();
      }
      if lastRequired && iter.Tag() != 0 {
        count := count + 1;
      }
    }

    // pb_decode
    method Decode(fields: seq<Field>) returns (ok: bool, m: Message)
      requires Valid() && Table(fields)
      modifies this
      ensures Valid() && (ok ==> End() == old(End()))
      ensures Took(ok, m, Left(), PbDecode.Decode(fields, old(Left())))
      decreases bytesLeft, 6
    {
      m := SetToDefaults(fields);
      ok, m := DecodeNoinit(fields, m);
    }
  }

  // pb_message_set_to_defaults
  method SetToDefaults(fields: seq<Field>) returns (m: Message)
    ensures m == DefaultMessage(fields)
    decreases fields
  {
    hide DefaultSlot;
    var slots: seq<Slot> := [];
    var unions: map<nat, Union> := map[];
    if fields == [] {
      m := Message(slots, unions);
      assert m.unions == DefaultMessage(fields).unions;
      return;
    }
    var iter: FieldIter := new FieldIter(fields);
    var more := true;
    while more
      modifies iter
      invariant iter.Valid() && iter.fields == fields && |slots| == if more then iter.pos else |fields|
      invariant forall k | 0 <= k < |slots| :: slots[k] == DefaultSlot(fields[k])
      invariant unions == map g | g in Groups(fields[..|slots|]) :: Union(0, Num(0))
      decreases |fields| - |slots|
    {
      var f := fields[iter.pos];
      var slot := FieldDefault(f);
      GroupsNext(fields, |slots|);
      slots := slots + [slot];
      if f.htype.Oneof? {
        // which_field is 0; the content is left alone.
        unions := unions[f.htype.group := Union(0, Num(0))];
      }
      more := iter.Next();
    }
    assert fields[..|slots|] == fields;
    assert slots == DefaultSlots(fields);
    m := Message(slots, unions);
  }

  // pb_field_set_to_default
  method FieldDefault(f: Field) returns (slot: Slot)
    ensures slot == DefaultSlot(f)
    decreases f
  {
    match f.htype
    case Repeated => slot := Many([]);
    case FixedCount => slot := Many(seq(f.arraySize, _ => Num(0)));
    case Oneof(_) => slot := InUnion;
    case _ =>
      if f.ltype == Submessage {
        var m := SetToDefaults(f.sub);
        slot := Single(false, Msg(m));
      } else {
        slot := Single(false, DefaultValue(f));
      }
  }
}
