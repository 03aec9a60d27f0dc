// The reassembly bit mask of one incoming DTLS handshake message
// (dtls1_hm_fragment_new, bit_range and dtls1_hm_fragment_mark).
module BitMask {

  // 1u << k, as a table: the solver is slow on shifts by an integer amount.
  function OneShiftedBy(k: nat): bv32
    requires k <= 8
  {
    if k == 0 then 0x01 else if k == 1 then 0x02 else if k == 2 then 0x04 else if k == 3 then 0x08
    else if k == 4 then 0x10 else if k == 5 then 0x20 else if k == 6 then 0x40 else if k == 7 then 0x80
    else 0x100
  }

  // Bits start, inclusive, to end, exclusive, of one byte.
  function BitRange(start: nat, end: nat): bv8
    requires start <= 8 && end <= 8
  {
    (!(OneShiftedBy(start) - 1) & (OneShiftedBy(end) - 1) & 0xff) as bv8
  }

  predicate Bit(b: bv8, k: nat)
    requires k < 8
  {
    b & (OneShiftedBy(k) as bv8) != 0
  }

  lemma BitOfRange(start: nat, end: nat, k: nat)
    requires start <= end <= 8 && k < 8
    ensures Bit(BitRange(start, end), k) <==> start <= k < end
  {
  }

  lemma BitOfOr(a: bv8, b: bv8, k: nat)
    requires k < 8
    ensures Bit(a | b, k) <==> Bit(a, k) || Bit(b, k)
  {
  }

  // Bytes with the same bits are the same byte.
  lemma BitsDetermine(a: bv8, b: bv8)
    requires forall k | 0 <= k < 8 :: Bit(a, k) == Bit(b, k)
    ensures a == b
  {
    assert Bit(a, 0) == Bit(b, 0) && Bit(a, 1) == Bit(b, 1) && Bit(a, 2) == Bit(b, 2) && Bit(a, 3) == Bit(b, 3);
    assert Bit(a, 4) == Bit(b, 4) && Bit(a, 5) == Bit(b, 5) && Bit(a, 6) == Bit(b, 6) && Bit(a, 7) == Bit(b, 7);
  }

  // Index i of a mask that packs eight indices into a byte.
  predicate Marked(mask: seq<bv8>, i: nat) {
    i / 8 < |mask| && Bit(mask[i / 8], i % 8)
  }

  // Setting [lo, hi) inside byte b of the mask marks exactly 8b+lo .. 8b+hi.
  lemma MarkByte(mask: seq<bv8>, b: nat, lo: nat, hi: nat, i: nat)
    requires b < |mask| && lo <= hi <= 8
    ensures Marked(mask[b := mask[b] | BitRange(lo, hi)], i)
        <==> Marked(mask, i) || 8 * b + lo <= i < 8 * b + hi
  {
    if i / 8 == b {
      BitOfOr(mask[b], BitRange(lo, hi), i % 8);
      BitOfRange(lo, hi, i % 8);
    }
  }

  lemma MarkWholeByte(mask: seq<bv8>, b: nat, i: nat)
    requires b < |mask|
    ensures Marked(mask[b := 0xff], i) <==> Marked(mask, i) || 8 * b <= i < 8 * b + 8
  {
    if i / 8 == b {
      BitOfRange(0, 8, i % 8);
      assert BitRange(0, 8) == 0xff;
    }
  }

  // After [lo, hi) has been marked on top of was.
  ghost predicate MarkedBetween(was: seq<bv8>, lo: nat, hi: nat, now: seq<bv8>) {
    |now| == |was| && forall i: nat :: Marked(now, i) <==> Marked(was, i) || lo <= i < hi
  }

  lemma MarkPart(was: seq<bv8>, start: nat, mask: seq<bv8>, b: nat, lo: nat, hi: nat)
    requires start <= 8 * b + lo && b < |mask| && lo <= hi <= 8
    requires MarkedBetween(was, start, 8 * b + lo, mask)
    ensures MarkedBetween(was, start, 8 * b + hi, mask[b := mask[b] | BitRange(lo, hi)])
  {
    var now := mask[b := mask[b] | BitRange(lo, hi)];
    forall i: nat
      ensures Marked(now, i) <==> Marked(was, i) || start <= i < 8 * b + hi
    {
      MarkByte(mask, b, lo, hi, i);
      assert Marked(mask, i) <==> Marked(was, i) || start <= i < 8 * b + lo;
    }
  }

  lemma MarkWhole(was: seq<bv8>, start: nat, mask: seq<bv8>, b: nat)
    requires start <= 8 * b && b < |mask|
    requires MarkedBetween(was, start, 8 * b, mask)
    ensures MarkedBetween(was, start, 8 * b + 8, mask[b := 0xff])
  {
    var now := mask[b := 0xff];
    forall i: nat
      ensures Marked(now, i) <==> Marked(was, i) || start <= i < 8 * b + 8
    {
      MarkWholeByte(mask, b, i);
      assert Marked(mask, i) <==> Marked(was, i) || start <= i < 8 * b;
    }
  }

  // What the completeness test of dtls1_hm_fragment_mark looks at, byte by byte.
  ghost predicate AllOnes(mask: seq<bv8>, n: nat)
    requires |mask| == (n + 7) / 8
  {
    && (forall b | 0 <= b < n / 8 :: mask[b] == 0xff)
    && (n % 8 != 0 ==> mask[n / 8] == BitRange(0, n % 8))
  }

  // Given that no bit past n is set, the byte test means: every index is marked.
  lemma AllOnesIffAllMarked(mask: seq<bv8>, n: nat)
    requires |mask| == (n + 7) / 8
    requires forall i: nat | n <= i :: !Marked(mask, i)
    ensures AllOnes(mask, n) <==> forall i: nat | i < n :: Marked(mask, i)
  {
    assert BitRange(0, 8) == 0xff;
    hide Bit, BitRange;
    if AllOnes(mask, n) {
      forall i: nat | i < n
        ensures Marked(mask, i)
      {
        if i / 8 < n / 8 {
          BitOfRange(0, 8, i % 8);
        } else {
          BitOfRange(0, n % 8, i % 8);
        }
      }
    }
    if forall i: nat | i < n :: Marked(mask, i) {
      forall b: nat | b < n / 8
        ensures mask[b] == 0xff
      {
        forall k | 0 <= k < 8
          ensures Bit(mask[b], k) == Bit(0xff, k)
        {
          assert Marked(mask, 8 * b + k);
          BitOfRange(0, 8, k);
        }
        BitsDetermine(mask[b], 0xff);
      }
      if n % 8 != 0 {
        var b := n / 8;
        forall k | 0 <= k < 8
          ensures Bit(mask[b], k) == Bit(BitRange(0, n % 8), k)
        {
          assert Marked(mask, 8 * b + k) == Bit(mask[b], k);
          BitOfRange(0, n % 8, k);
        }
        BitsDetermine(mask[b], BitRange(0, n % 8));
      }
    }
  }
}

// One incoming handshake message, possibly not yet assembled (hm_fragment).
module Reassembly {
  import opened Wire
  import opened BitMask

  const HM_HEADER_LENGTH := 12

  datatype Header = Header(ty: byte, msgLen: nat, num: nat, fragOff: nat, fragLen: nat)

  ghost predicate FitsHeader(h: Header) {
    h.msgLen < 0x100_0000 && h.num < 0x1_0000 && h.fragOff < 0x100_0000 && h.fragLen < 0x100_0000
  }

  function HeaderBytes(h: Header): (s: seq<byte>)
    requires FitsHeader(h)
    ensures |s| == HM_HEADER_LENGTH
  {
    [h.ty] + U24(h.msgLen) + U16(h.num) + U24(h.fragOff) + U24(h.fragLen)
  }

  // dtls1_parse_fragment: the header, the body, and what follows.
  function ParseFragment(s: seq<byte>): (f: Option<(Header, seq<byte>, seq<byte>)>)
    ensures f.Some? ==> FitsHeader(f.value.0) && |f.value.1| == f.value.0.fragLen
    ensures f.Some? ==> |f.value.2| == |s| - HM_HEADER_LENGTH - f.value.0.fragLen
  {
    if |s| < HM_HEADER_LENGTH then None
    else
      var h := Header(s[0], Get24(s[1..4]), Get16(s[4..6]), Get24(s[6..9]), Get24(s[9..12]));
      if |s| < HM_HEADER_LENGTH + h.fragLen then None
      else Some((h, s[HM_HEADER_LENGTH..HM_HEADER_LENGTH + h.fragLen], s[HM_HEADER_LENGTH + h.fragLen..]))
  }

  lemma ParseOfHeaderBytes(h: Header, body: seq<byte>, rest: seq<byte>)
    requires FitsHeader(h) && |body| == h.fragLen
    ensures ParseFragment(HeaderBytes(h) + body + rest) == Some((h, body, rest))
  {
    var s := HeaderBytes(h) + body + rest;
    assert s[1..4] == U24(h.msgLen) && s[4..6] == U16(h.num) && s[6..9] == U24(h.fragOff) && s[9..12] == U24(h.fragLen);
    Get24OfU24(h.msgLen);
    Get16OfU16(h.num);
    Get24OfU24(h.fragOff);
    Get24OfU24(h.fragLen);
    hide U16, U24, Get16, Get24;
    assert s[HM_HEADER_LENGTH..HM_HEADER_LENGTH + h.fragLen] == body;
    assert s[HM_HEADER_LENGTH + h.fragLen..] == rest;
  }

  // What is known of a message: its identity and the bytes received so far.
  datatype Frag = Frag(ty: byte, msgLen: nat, num: nat, got: map<nat, byte>) {
    ghost predicate WellFormed() {
      msgLen < 0x100_0000 && num < 0x1_0000 && forall i | i in got :: i < msgLen
    }

    ghost predicate Complete() {
      forall i: nat | i < msgLen :: i in got
    }

    // The serialised message, as if it had never been cut.
    ghost function Raw(): (s: seq<byte>)
      requires WellFormed() && Complete()
      ensures |s| == HM_HEADER_LENGTH + msgLen
    {
      HeaderBytes(Header(ty, msgLen, num, 0, msgLen)) + seq(msgLen, i requires 0 <= i < msgLen => got[i])
    }

    // The effect of one fragment carrying body at fragOff.
    ghost function Receive(fragOff: nat, body: seq<byte>): Frag {
      this.(got := got + Piece(fragOff, body))
    }
  }

  // Byte i of a message, out of a fragment that starts at fragOff.
  ghost function ByteAt(body: seq<byte>, fragOff: nat, i: nat): byte
    requires fragOff <= i < fragOff + |body|
  {
    body[i - fragOff]
  }

  ghost function Piece(fragOff: nat, body: seq<byte>): map<nat, byte> {
    map i: nat | fragOff <= i < fragOff + |body| :: ByteAt(body, fragOff, i)
  }

  // mask[b] |= bit_range(lo, hi), as the next part of marking from start on.
  method OrByte(mask: array<bv8>, b: nat, lo: nat, hi: nat, ghost was: seq<bv8>, ghost start: nat)
    requires start <= 8 * b + lo && b < mask.Length && lo <= hi <= 8
    requires MarkedBetween(was, start, 8 * b + lo, mask[..])
    modifies mask
    ensures MarkedBetween(was, start, 8 * b + hi, mask[..])
  {
    MarkPart(was, start, mask[..], b, lo, hi);
    ghost var before := mask[..];
    mask[b] := mask[b] | BitRange(lo, hi);
    assert mask[..] == before[b := before[b] | BitRange(lo, hi)];
  }

  method SetBits(mask: array<bv8>, start: nat, end: nat)
    requires start < end <= 8 * mask.Length
    modifies mask
    ensures MarkedBetween(old(mask[..]), start, end, mask[..])
  {
    ghost var was := mask[..];
    assert 8 * (start / 8) + start % 8 == start && 8 * (end / 8) + end % 8 == end;
    if start / 8 == end / 8 {
      OrByte(mask, start / 8, start % 8, end % 8, was, start);
      return;
    }
    OrByte(mask, start / 8, start % 8, 8, was, start);
    var b := start / 8 + 1;
    while b < end / 8
      invariant start / 8 < b <= end / 8
      invariant MarkedBetween(was, start, 8 * b, mask[..])
    {
      MarkWhole(was, start, mask[..], b);
      ghost var before := mask[..];
      mask[b] := 0xff;
      assert mask[..] == before[b := 0xff];
      b := b + 1;
    }
    if end % 8 != 0 {
      OrByte(mask, end / 8, 0, end % 8, was, start);
    }
  }

  method HasAllOnes(mask: array<bv8>, n: nat) returns (complete: bool)
    requires mask.Length == (n + 7) / 8
    ensures complete <==> AllOnes(mask[..], n)
  {
    var b := 0;
    while b < n / 8
      invariant 0 <= b <= n / 8
      invariant forall k | 0 <= k < b :: mask[k] == 0xff
    {
      if mask[b] != 0xff {
        return false;
      }
      b := b + 1;
    }
    return !(n % 8 != 0 && mask[n / 8] != BitRange(0, n % 8));
  }

  // The mask of an unfinished message of n bytes: exactly as long as needed, no
  // bit past the message, and some byte still missing.
  ghost predicate MaskValid(mask: seq<bv8>, n: nat) {
    && |mask| == (n + 7) / 8
    && (forall i: nat | n <= i :: !Marked(mask, i))
    && exists i: nat :: i < n && !Marked(mask, i)
  }

  // dtls1_hm_fragment_mark: marks [start, end), and gives the mask up exactly
  // when every byte of the message has been received.
  method Mark(mask: array<bv8>, msgLen: nat, start: nat, end: nat) returns (reassembly: array?<bv8>)
    requires MaskValid(mask[..], msgLen)
    requires start <= end <= msgLen
    modifies mask
    ensures reassembly == null || reassembly == mask
    ensures reassembly == null ==> forall i: nat | i < msgLen :: old(Marked(mask[..], i)) || start <= i < end
    ensures reassembly != null ==> MaskValid(mask[..], msgLen) && MarkedBetween(old(mask[..]), start, end, mask[..])
  {
    if start == end {
      return mask;
    }
    SetBits(mask, start, end);
    var complete := HasAllOnes(mask, msgLen);
    AllOnesIffAllMarked(mask[..], msgLen);
    return if complete then null else mask;
  }

  class HmFragment {
    const ty: byte
    const num: nat
    const msgLen: nat
    const data: array<byte>
    var reassembly: array?<bv8>
    ghost var got: map<nat, byte>  // the bytes of the body received so far

    ghost function Footprint(): set<object>
      reads this
    {
      {this, data} + if reassembly == null then {} else {reassembly}
    }

    ghost predicate Valid()
      reads this, data, reassembly
    {
      && msgLen < 0x100_0000 && num < 0x1_0000
      && data.Length == HM_HEADER_LENGTH + msgLen
      && data[..HM_HEADER_LENGTH] == HeaderBytes(Header(ty, msgLen, num, 0, msgLen))
      && (reassembly == null || ((reassembly as object) != data && MaskValid(reassembly[..], msgLen)))
      && (forall i: nat :: i in got <==> Received(i))
      && (forall i: nat | i in got :: got[i] == data[HM_HEADER_LENGTH + i])
    }

    ghost predicate Received(i: nat)
      reads this, reassembly
    {
      i < msgLen && (reassembly == null || Marked(reassembly[..], i))
    }

    ghost function View(): (f: Frag)
      requires Valid()
      reads this, data, reassembly
      ensures f.WellFormed()
      ensures f.Complete() <==> reassembly == null
    {
      assert reassembly != null ==> exists i: nat :: i < msgLen && !Marked(reassembly[..], i) && !Received(i);
      Frag(ty, msgLen, num, got)
    }

    // Once complete, the buffer is the serialised message.
    lemma WholeMessage()
      requires Valid() && reassembly == null
      ensures data[..] == View().Raw()
    {
      assert data[..] == data[..HM_HEADER_LENGTH] + data[HM_HEADER_LENGTH..];
      var received := got;
      assert forall i: nat | i < msgLen :: Received(i);
      assert data[HM_HEADER_LENGTH..] == seq(msgLen, i requires 0 <= i < msgLen => received[i]);
    }

    constructor (h: Header)
      requires FitsHeader(h)
      ensures Valid() && fresh(data) && (reassembly != null ==> fresh(reassembly))
      ensures View() == Frag(h.ty, h.msgLen, h.num, map[])
    {
      ty, num, msgLen := h.ty, h.num, h.msgLen;
      var header := HeaderBytes(Header(h.ty, h.msgLen, h.num, 0, h.msgLen));
      var d := new byte[HM_HEADER_LENGTH + h.msgLen];
      for i := 0 to HM_HEADER_LENGTH
        invariant d[..i] == header[..i]
      {
        d[i] := header[i];
      }
      data := d;
      reassembly, got := null, map[];
      if h.msgLen > 0 {
        reassembly := new bv8[(h.msgLen + 7) / 8](_ => 0);
      }
      new;
      if reassembly != null {
        assert forall b | 0 <= b < reassembly.Length :: reassembly[..][b] == 0;
        assert !Marked(reassembly[..], 0);
      }
    }

    // Copies the body of one fragment into place and marks [fragOff, fragOff + |body|)
    // as received; the mask is released exactly when nothing is missing any more.
    method Receive(fragOff: nat, body: seq<byte>)
      requires Valid() && reassembly != null
      requires fragOff + |body| <= msgLen
      modifies this, reassembly, data
      ensures Valid()
      ensures reassembly == null || reassembly == old(reassembly)
      ensures View() == old(View()).Receive(fragOff, body)
    {
      forall k | 0 <= k < |body| {
        data[HM_HEADER_LENGTH + fragOff + k] := body[k];
      }
      assert data[..HM_HEADER_LENGTH] == old(data[..HM_HEADER_LENGTH]);
      assert reassembly[..] == old(reassembly[..]);
      got := got + Piece(fragOff, body);
      reassembly := Mark(reassembly, msgLen, fragOff, fragOff + |body|);
    }
  }
}
