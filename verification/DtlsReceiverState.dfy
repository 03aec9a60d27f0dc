// incoming_messages, the ring buffer of handshake messages that are being
// reassembled.  The ring owns its fragments and their buffers.
module IncomingRing {
  import opened Wire
  import opened Reassembly

  // A slot whose objects are all in part, and whose meaning is content.
  ghost predicate SlotHolds(frag: HmFragment?, part: set<object>, content: Option<Frag>)
    reads part
  {
    if frag == null then content == None
    else frag in part && frag.Footprint() <= part && frag.Valid() && content == Some(frag.View())
  }

  class Ring {
    const slots: array<HmFragment?>
    ghost var contents: seq<Option<Frag>>
    ghost var parts: seq<set<object>>  // the objects each slot may use
    ghost var repr: set<object>

    ghost predicate Valid()
      reads this, repr
    {
      && {this, slots} <= repr
      && slots.Length == |contents| == |parts|
      && (forall i | 0 <= i < |parts| :: parts[i] <= repr - {this, slots})
      && (forall i, j | 0 <= i < j < |parts| :: parts[i] !! parts[j])
      && (forall i | 0 <= i < |parts| :: SlotHolds(slots[i], parts[i], contents[i]))
    }

    constructor (size: nat)
      ensures Valid() && fresh(repr)
      ensures contents == seq(size, _ => None)
    {
      slots := new HmFragment?[size](_ => null);
      contents := seq(size, _ => None);
      parts := seq(size, _ => {});
      new;
      repr := {this, slots};
    }

    method Insert(i: nat, h: Header)
      requires Valid() && i < |contents| && slots[i] == null && FitsHeader(h)
      modifies this, slots
      ensures Valid() && fresh(repr - old(repr))
      ensures contents == old(contents)[i := Some(Frag(h.ty, h.msgLen, h.num, map[]))]
      ensures slots[i] != null
    {
      hide HmFragment.Valid;
      var frag := new HmFragment(h);
      slots[i] := frag;
      contents := contents[i := Some(Frag(h.ty, h.msgLen, h.num, map[]))];
      parts := parts[i := frag.Footprint()];
      repr := repr + frag.Footprint();
    }

    method Receive(i: nat, fragOff: nat, body: seq<byte>)
      requires Valid() && i < |contents| && slots[i] != null && slots[i].reassembly != null
      requires fragOff + |body| <= slots[i].msgLen
      modifies repr
      ensures Valid() && fresh(repr - old(repr))
      ensures contents == old(contents)[i := Some(old(contents)[i].value.Receive(fragOff, body))]
    {
      hide HmFragment.Valid;
      assert SlotHolds(slots[i], parts[i], contents[i]);
      slots[i].Receive(fragOff, body);
      contents := contents[i := Some(contents[i].value.Receive(fragOff, body))];
      assert SlotHolds(slots[i], parts[i], contents[i]);
    }

    method Clear(i: nat)
      requires Valid() && i < |contents|
      modifies this, slots
      ensures Valid() && fresh(repr - old(repr))
      ensures contents == old(contents)[i := None]
    {
      hide HmFragment.Valid;
      slots[i] := null;
      contents := contents[i := None];
      parts := parts[i := {}];
    }
  }
}

// The receiving half of DTLS1_STATE, updated in place.  Each method is tied to
// the function of the same name in DtlsReceive.
module DtlsReceiverState {
  import opened Wire
  import opened Reassembly
  import opened ReplayWindow
  import opened DtlsReceive
  import opened IncomingRing

  class Dtls1State {
    var readShutdown: bool
    var cipherVersion: Option<nat>
    var rEpoch: nat
    const bitmap: Bitmap
    const maxMessageLen: nat
    var handshakeReadSeq: nat
    const incoming: Ring
    var hasChangeCipherSpec: bool
    var hasMessage: bool

    ghost predicate Valid()
      reads this, bitmap, incoming, incoming.repr
    {
      && this !in incoming.repr && bitmap !in incoming.repr
      && bitmap.Valid() && incoming.Valid()
      && View().Valid()
    }

    ghost function View(): Receiver
      reads this, bitmap, incoming
    {
      Receiver(readShutdown, cipherVersion, rEpoch, bitmap.recorded, bitmap.maxSeqNum, maxMessageLen,
               handshakeReadSeq, incoming.contents, hasChangeCipherSpec, hasMessage)
    }

    constructor (maxMessageLen: nat)
      ensures Valid() && fresh(bitmap) && fresh(incoming.repr)
      ensures View() == Receiver(false, None, 0, {}, 0, maxMessageLen, 0, seq(7, _ => None), false, false)
    {
      readShutdown, cipherVersion, rEpoch := false, None, 0;
      var window := new Bitmap();
      bitmap := window;
      this.maxMessageLen := maxMessageLen;
      handshakeReadSeq, hasChangeCipherSpec, hasMessage := 0, false, false;
      var ring := new Ring(MAX_HANDSHAKE_FLIGHT);
      incoming := ring;
    }

    predicate VersionMatches(version: nat)
      reads this
    {
      if cipherVersion.None? then version / 0x100 == DTLS1_VERSION_MAJOR else version == cipherVersion.value
    }

    // dtls_open_record
    method OpenRecord(input: seq<byte>, open: Aead) returns (result: OpenResult, consumed: nat)
      requires Valid()
      modifies bitmap
      ensures Valid()
      ensures (View(), result, consumed) == DtlsReceive.OpenRecord(old(View()), input, open)
    {
      if readShutdown {
        return CloseNotify, 0;
      }
      if input == [] {
        return Partial, 0;
      }
      var parsed := ParseRecord(input);
      if parsed.None? || !VersionMatches(parsed.value.version) {
        return Discard, |input|;
      }
      var rec := parsed.value;
      if rec.epoch != rEpoch || bitmap.ShouldDiscard(rec.SeqNum()) {
        return Discard, rec.size;
      }
      var body := open(rec);
      if body.None? {
        return Discard, rec.size;
      }
      if |body.value| > MAX_PLAIN_LENGTH {
        return Failed(RecordOverflow), rec.size;
      }
      bitmap.Record(rec.SeqNum());
      return if rec.ty == RT_ALERT then AlertRecord(body.value) else Opened(rec.ty, body.value), rec.size;
    }

    // dtls1_get_incoming_message: the slot of the message h belongs to.
    method GetIncomingMessage(h: Header) returns (alert: Option<Alert>)
      requires Valid() && FitsHeader(h)
      modifies incoming, incoming.slots
      ensures Valid() && fresh(incoming.repr - old(incoming.repr))
      ensures (View(), alert) == IncomingMessage(old(View()), h)
      ensures alert.None? ==> incoming.slots[h.num % MAX_HANDSHAKE_FLIGHT] != null
    {
      if h.num < handshakeReadSeq || h.num - handshakeReadSeq >= MAX_HANDSHAKE_FLIGHT {
        return Some(InternalError);
      }
      var idx := h.num % MAX_HANDSHAKE_FLIGHT;
      var frag := incoming.slots[idx];
      assert SlotHolds(frag, incoming.parts[idx], incoming.contents[idx]);
      if frag != null {
        SlotHoldsTheMessage(View(), h.num);
        assert frag.num == h.num;
        if frag.ty != h.ty || frag.msgLen != h.msgLen {
          return Some(IllegalParameter);
        }
        return None;
      }
      SetSlotKeepsRing(View(), Frag(h.ty, h.msgLen, h.num, map[]));
      incoming.Insert(idx, h);
      return None;
    }

    // One turn of the loop of dtls1_open_handshake.
    method ReceiveFragment(h: Header, body: seq<byte>) returns (alert: Option<Alert>)
      requires Valid() && FitsHeader(h) && |body| == h.fragLen
      modifies incoming.repr
      ensures Valid() && fresh(incoming.repr - old(incoming.repr))
      ensures (View(), alert) == DtlsReceive.ReceiveFragment(old(View()), h, body)
    {
      FragmentKeepsRing(View(), h, body);
      if h.fragOff + h.fragLen > h.msgLen || h.msgLen > maxMessageLen {
        return Some(IllegalParameter);
      }
      if rEpoch == 1 && h.num != handshakeReadSeq {
        return Some(UnexpectedMessage);
      }
      if h.num < handshakeReadSeq || h.num > handshakeReadSeq + MAX_HANDSHAKE_FLIGHT {
        return None;
      }
      alert := GetIncomingMessage(h);
      if alert.Some? {
        return;
      }
      var idx := h.num % MAX_HANDSHAKE_FLIGHT;
      var frag := incoming.slots[idx];
      assert SlotHolds(frag, incoming.parts[idx], incoming.contents[idx]);
      assert frag.msgLen == h.msgLen;
      if frag.reassembly == null {
        return;
      }
      incoming.Receive(idx, h.fragOff, body);
    }

    // dtls1_open_handshake
    method OpenHandshake(input: seq<byte>, open: Aead) returns (result: OpenResult, consumed: nat)
      requires Valid()
      modifies this`hasChangeCipherSpec, bitmap, incoming.repr
      ensures Valid() && fresh(incoming.repr - old(incoming.repr))
      ensures (View(), result, consumed) == DtlsReceive.OpenHandshake(old(View()), input, open)
    {
      result, consumed := OpenRecord(input, open);
      if !result.Opened? {
        return;
      }
      if result.ty == RT_APPLICATION_DATA {
        return if cipherVersion.None? then Failed(UnexpectedMessage) else Discard, consumed;
      }
      if result.ty == RT_CHANGE_CIPHER_SPEC {
        if cipherVersion.Some? {
          return Failed(UnexpectedMessage), consumed;
        }
        if result.plaintext != [MT_CCS] {
          return Failed(IllegalParameter), consumed;
        }
        hasChangeCipherSpec := true;
        return;
      }
      if result.ty != RT_HANDSHAKE {
        return Failed(UnexpectedMessage), consumed;
      }
      var cbs := result.plaintext;
      ghost var start := View();
      while cbs != []
        invariant Valid() && fresh(incoming.repr - old(incoming.repr))
        invariant ReceiveFragments(View(), cbs) == ReceiveFragments(start, result.plaintext)
        decreases |cbs|
      {
        var parsed := ParseFragment(cbs);
        if parsed.None? {
          return Failed(DecodeError), consumed;
        }
        var (h, body, rest) := parsed.value;
        var alert := ReceiveFragment(h, body);
        if alert.Some? {
          return Failed(alert.value), consumed;
        }
        cbs := rest;
      }
    }

    // dtls1_get_message: whether the current message is complete and, if so, its
    // type and its serialisation as if it had never been cut.
    method GetMessage() returns (found: bool, ty: byte, raw: seq<byte>)
      requires Valid()
      modifies this`hasMessage
      ensures Valid()
      ensures found <==> old(View()).CurrentComplete()
      ensures found ==> ty == View().Current().value.ty && raw == View().Current().value.Raw()
      ensures View() == if found then old(View()).(hasMessage := true) else old(View())
    {
      var idx := handshakeReadSeq % MAX_HANDSHAKE_FLIGHT;
      var frag := incoming.slots[idx];
      assert SlotHolds(frag, incoming.parts[idx], incoming.contents[idx]);
      if frag == null || frag.reassembly != null {
        return false, 0, [];
      }
      frag.WholeMessage();
      hasMessage := true;
      return true, frag.ty, frag.data[..];
    }

    // dtls1_next_message
    method NextMessage()
      requires Valid() && hasMessage && View().CurrentComplete()
      modifies this, incoming, incoming.slots
      ensures Valid() && fresh(incoming.repr - old(incoming.repr))
      ensures View() == DtlsReceive.NextMessage(old(View()))
    {
      NextMessageKeepsRing(View());
      incoming.Clear(handshakeReadSeq % MAX_HANDSHAKE_FLIGHT);
      handshakeReadSeq := (handshakeReadSeq + 1) % 0x1_0000;
      hasMessage := false;
    }

    // dtls_has_unprocessed_handshake_data
    method HasUnprocessedHandshakeData() returns (b: bool)
      requires Valid()
      ensures b <==> HasUnprocessedData(View())
    {
      if hasChangeCipherSpec {
        return true;
      }
      var current := handshakeReadSeq % MAX_HANDSHAKE_FLIGHT;
      for i := 0 to MAX_HANDSHAKE_FLIGHT
        invariant forall k | 0 <= k < i && !(hasMessage && k == current) :: incoming.contents[k].None?
      {
        assert SlotHolds(incoming.slots[i], incoming.parts[i], incoming.contents[i]);
        if !(hasMessage && i == current) && incoming.slots[i] != null {
          return true;
        }
      }
      return false;
    }

    // dtls1_set_read_state
    method SetReadState(version: nat) returns (ok: bool)
      requires Valid()
      modifies this, bitmap
      ensures Valid()
      ensures ok <==> !HasUnprocessedData(old(View()))
      ensures View() == if ok then DtlsReceive.SetReadState(old(View()), version) else old(View())
    {
      var unprocessed := HasUnprocessedHandshakeData();
      if unprocessed {
        return false;
      }
      rEpoch := (rEpoch + 1) % 0x1_0000;
      bitmap.Reset();
      cipherVersion := Some(version);
      return true;
    }
  }
}
