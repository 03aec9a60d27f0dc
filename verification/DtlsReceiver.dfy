// What a DTLS endpoint does with incoming handshake records, as functions from
// state to state: dtls_open_record, dtls1_open_handshake, dtls1_get_message,
// dtls1_next_message and the read half of an epoch change.
module DtlsReceive {
  import opened Wire
  import opened Reassembly

  const MAX_HANDSHAKE_FLIGHT := 7
  const RT_HEADER_LENGTH := 13
  const MAX_ENCRYPTED_LENGTH := 16384 + 256 + 64
  const MAX_PLAIN_LENGTH := 16384
  const DTLS1_VERSION_MAJOR := 0xFE
  const RT_CHANGE_CIPHER_SPEC: byte := 20
  const RT_ALERT: byte := 21
  const RT_HANDSHAKE: byte := 22
  const RT_APPLICATION_DATA: byte := 23
  const MT_CCS: byte := 1

  datatype Alert = UnexpectedMessage | RecordOverflow | IllegalParameter | DecodeError | InternalError

  // SSL_MAX_HANDSHAKE_FLIGHT slots: message number n lives in slot n % 7.
  datatype Receiver = Receiver(
    readShutdown: bool,             // close_notify has been received
    cipherVersion: Option<nat>,     // None for the null cipher
    epoch: nat,
    recorded: set<nat>,             // the replay window of the current epoch
    maxSeqNum: nat,
    maxMessageLen: nat,
    readSeq: nat,                   // handshake_read_seq
    slots: seq<Option<Frag>>,       // incoming_messages
    hasCcs: bool,
    hasMessage: bool
  ) {
    // The ring invariant: an occupied slot holds a message of the current
    // window, in the slot its number selects.
    ghost predicate Valid() {
      && epoch < 0x1_0000 && readSeq < 0x1_0000
      && (maxSeqNum == 0 || maxSeqNum in recorded)
      && (forall s | s in recorded :: s <= maxSeqNum)
      && |slots| == MAX_HANDSHAKE_FLIGHT
      && forall i | 0 <= i < |slots| && slots[i].Some? :: SlotValid(i, slots[i].value)
    }

    ghost predicate SlotValid(i: nat, f: Frag) {
      f.WellFormed() && f.num % MAX_HANDSHAKE_FLIGHT == i && readSeq <= f.num < readSeq + MAX_HANDSHAKE_FLIGHT
    }

    function Current(): Option<Frag>
      requires |slots| == MAX_HANDSHAKE_FLIGHT
    {
      slots[readSeq % MAX_HANDSHAKE_FLIGHT]
    }

    ghost predicate CurrentComplete()
      requires |slots| == MAX_HANDSHAKE_FLIGHT
    {
      Current().Some? && Current().value.Complete()
    }
  }

  // ---- Records ----

  datatype Record = Record(ty: byte, version: nat, epoch: nat, num: nat, body: seq<byte>, size: nat) {
    // The eight sequence bytes as one big-endian integer.
    function SeqNum(): nat {
      epoch * 0x1_0000_0000_0000 + num
    }
  }

  function ParseRecord(input: seq<byte>): (r: Option<Record>)
    ensures r.Some? ==> RT_HEADER_LENGTH <= r.value.size <= |input|
    ensures r.Some? ==> r.value.epoch < 0x1_0000 && r.value.num < 0x1_0000_0000_0000
  {
    if |input| < RT_HEADER_LENGTH then None
    else
      var len := Get16(input[11..13]);
      if |input| < RT_HEADER_LENGTH + len || len > MAX_ENCRYPTED_LENGTH then None
      else Some(Record(input[0], Get16(input[1..3]), Get16(input[3..5]), Get48(input[5..11]),
                       input[RT_HEADER_LENGTH..RT_HEADER_LENGTH + len], RT_HEADER_LENGTH + len))
  }

  // The AEAD of the read state: opens the body of a record, or fails.
  type Aead = Record -> Option<seq<byte>>

  datatype OpenResult =
    | Partial
    | CloseNotify
    | Discard
    | AlertRecord(alertBody: seq<byte>)
    | Failed(alert: Alert)
    | Opened(ty: byte, plaintext: seq<byte>)

  predicate VersionOk(r: Receiver, version: nat) {
    if r.cipherVersion.None? then version / 0x100 == DTLS1_VERSION_MAJOR else version == r.cipherVersion.value
  }

  function Max(a: nat, b: nat): nat {
    if a > b then a else b
  }

  predicate Replayed(r: Receiver, seqNum: nat) {
    seqNum in r.recorded || seqNum + 64 <= r.maxSeqNum
  }

  // dtls_open_record: the new state, the result, and how much was consumed.
  function OpenRecord(r: Receiver, input: seq<byte>, open: Aead): (Receiver, OpenResult, nat) {
    if r.readShutdown then (r, CloseNotify, 0)
    else if input == [] then (r, Partial, 0)
    else
      var parsed := ParseRecord(input);
      if parsed.None? || !VersionOk(r, parsed.value.version) then (r, Discard, |input|)
      else
        var rec := parsed.value;
        if rec.epoch != r.epoch || Replayed(r, rec.SeqNum()) then (r, Discard, rec.size)
        else if open(rec).None? then (r, Discard, rec.size)
        else
          var plaintext := open(rec).value;
          if |plaintext| > MAX_PLAIN_LENGTH then (r, Failed(RecordOverflow), rec.size)
          else
            var r' := r.(recorded := r.recorded + {rec.SeqNum()}, maxSeqNum := Max(rec.SeqNum(), r.maxSeqNum));
            (r', if rec.ty == RT_ALERT then AlertRecord(plaintext) else Opened(rec.ty, plaintext), rec.size)
  }

  // ---- Handshake fragments ----

  // dtls1_get_incoming_message: the message the fragment belongs to, made if it
  // is the first fragment.
  ghost function IncomingMessage(r: Receiver, h: Header): (Receiver, Option<Alert>)
    requires |r.slots| == MAX_HANDSHAKE_FLIGHT && FitsHeader(h)
  {
    if h.num < r.readSeq || h.num - r.readSeq >= MAX_HANDSHAKE_FLIGHT then (r, Some(InternalError))
    else
      var idx := h.num % MAX_HANDSHAKE_FLIGHT;
      if r.slots[idx].None? then (r.(slots := r.slots[idx := Some(Frag(h.ty, h.msgLen, h.num, map[]))]), None)
      else if r.slots[idx].value.ty != h.ty || r.slots[idx].value.msgLen != h.msgLen then (r, Some(IllegalParameter))
      else (r, None)
  }

  ghost function ReceiveFragment(r: Receiver, h: Header, body: seq<byte>): (Receiver, Option<Alert>)
    requires |r.slots| == MAX_HANDSHAKE_FLIGHT && FitsHeader(h)
  {
    if h.fragOff + h.fragLen > h.msgLen || h.msgLen > r.maxMessageLen then (r, Some(IllegalParameter))
    else if r.epoch == 1 && h.num != r.readSeq then (r, Some(UnexpectedMessage))
    // Outside the window: dropped without a word.
    else if h.num < r.readSeq || h.num > r.readSeq + MAX_HANDSHAKE_FLIGHT then (r, None)
    else
      var (r', alert) := IncomingMessage(r, h);
      if alert.Some? then (r', alert)
      else
        var idx := h.num % MAX_HANDSHAKE_FLIGHT;
        if r'.slots[idx].value.Complete() then (r', None)
        else (r'.(slots := r'.slots[idx := Some(r'.slots[idx].value.Receive(h.fragOff, body))]), None)
  }

  ghost function ReceiveFragments(r: Receiver, plaintext: seq<byte>): (Receiver, Option<Alert>)
    requires |r.slots| == MAX_HANDSHAKE_FLIGHT
    decreases |plaintext|
  {
    if plaintext == [] then (r, None)
    else
      var parsed := ParseFragment(plaintext);
      if parsed.None? then (r, Some(DecodeError))
      else
        var (h, body, rest) := parsed.value;
        var (r', alert) := ReceiveFragment(r, h, body);
        if alert.Some? then (r', alert) else ReceiveFragments(r', rest)
  }

  // ---- dtls1_open_handshake ----

  ghost function DispatchRecord(r: Receiver, ty: byte, plaintext: seq<byte>): (Receiver, OpenResult)
    requires |r.slots| == MAX_HANDSHAKE_FLIGHT
  {
    if ty == RT_APPLICATION_DATA then
      (r, if r.cipherVersion.None? then Failed(UnexpectedMessage) else Discard)
    else if ty == RT_CHANGE_CIPHER_SPEC then
      if r.cipherVersion.Some? then (r, Failed(UnexpectedMessage))
      else if plaintext != [MT_CCS] then (r, Failed(IllegalParameter))
      else (r.(hasCcs := true), Opened(ty, plaintext))
    else if ty == RT_HANDSHAKE then
      var (r', alert) := ReceiveFragments(r, plaintext);
      (r', if alert.Some? then Failed(alert.value) else Opened(ty, plaintext))
    else
      (r, Failed(UnexpectedMessage))
  }

  ghost function OpenHandshake(r: Receiver, input: seq<byte>, open: Aead): (Receiver, OpenResult, nat)
    requires |r.slots| == MAX_HANDSHAKE_FLIGHT
  {
    var (r', result, consumed) := OpenRecord(r, input, open);
    if !result.Opened? then (r', result, consumed)
    else
      var (r'', result') := DispatchRecord(r', result.ty, result.plaintext);
      (r'', result', consumed)
  }

  // ---- Handing messages on ----

  // dtls1_next_message
  ghost function NextMessage(r: Receiver): Receiver
    requires |r.slots| == MAX_HANDSHAKE_FLIGHT
  {
    r.(slots := r.slots[r.readSeq % MAX_HANDSHAKE_FLIGHT := None],
       readSeq := (r.readSeq + 1) % 0x1_0000,
       hasMessage := false)
  }

  // dtls_has_unprocessed_handshake_data
  ghost predicate HasUnprocessedData(r: Receiver)
    requires |r.slots| == MAX_HANDSHAKE_FLIGHT
  {
    || r.hasCcs
    || exists i :: 0 <= i < MAX_HANDSHAKE_FLIGHT && !(r.hasMessage && i == r.readSeq % MAX_HANDSHAKE_FLIGHT) && r.slots[i].Some?
  }

  // dtls1_set_read_state, when there is no leftover data.
  ghost function SetReadState(r: Receiver, cipherVersion: nat): Receiver {
    r.(epoch := (r.epoch + 1) % 0x1_0000, recorded := {}, maxSeqNum := 0, cipherVersion := Some(cipherVersion))
  }

  // ---- The ring invariant ----

  lemma SlotIsUnique(a: nat, b: nat, lo: nat)
    requires lo <= a < lo + MAX_HANDSHAKE_FLIGHT && lo <= b < lo + MAX_HANDSHAKE_FLIGHT
    requires a % MAX_HANDSHAKE_FLIGHT == b % MAX_HANDSHAKE_FLIGHT
    ensures a == b
  {
  }

  lemma ReceiveIsWellFormed(f: Frag, fragOff: nat, body: seq<byte>)
    requires f.WellFormed() && fragOff + |body| <= f.msgLen
    ensures f.Receive(fragOff, body).WellFormed()
  {
  }

  // The assertion frag->seq == msg_hdr->seq of dtls1_get_incoming_message.
  lemma SlotHoldsTheMessage(r: Receiver, num: nat)
    requires r.Valid() && r.readSeq <= num < r.readSeq + MAX_HANDSHAKE_FLIGHT
    requires r.slots[num % MAX_HANDSHAKE_FLIGHT].Some?
    ensures r.slots[num % MAX_HANDSHAKE_FLIGHT].value.num == num
    ensures r.slots[num % MAX_HANDSHAKE_FLIGHT].value.WellFormed()
  {
    var idx := num % MAX_HANDSHAKE_FLIGHT;
    var f := r.slots[idx].value;
    assert r.SlotValid(idx, f);
    SlotIsUnique(f.num, num, r.readSeq);
  }

  // A slot that is overwritten by a message of the window keeps the ring valid.
  lemma SetSlotKeepsRing(r: Receiver, f: Frag)
    requires r.Valid() && f.WellFormed() && r.readSeq <= f.num < r.readSeq + MAX_HANDSHAKE_FLIGHT
    ensures r.(slots := r.slots[f.num % MAX_HANDSHAKE_FLIGHT := Some(f)]).Valid()
  {
    var r' := r.(slots := r.slots[f.num % MAX_HANDSHAKE_FLIGHT := Some(f)]);
    forall i | 0 <= i < |r'.slots| && r'.slots[i].Some?
      ensures r'.SlotValid(i, r'.slots[i].value)
    {
      if i != f.num % MAX_HANDSHAKE_FLIGHT { assert r.SlotValid(i, r.slots[i].value); }
    }
  }

  lemma FragmentKeepsRing(r: Receiver, h: Header, body: seq<byte>)
    requires r.Valid() && FitsHeader(h) && |body| == h.fragLen
    ensures ReceiveFragment(r, h, body).0.Valid()
    ensures var r' := ReceiveFragment(r, h, body).0;
      r' == r.(slots := r'.slots)
    // Behind the first ChangeCipherSpec only the current message is received.
    ensures r.epoch == 1 ==>
      forall i | 0 <= i < |r.slots| && i != r.readSeq % MAX_HANDSHAKE_FLIGHT :: ReceiveFragment(r, h, body).0.slots[i] == r.slots[i]
  {
    assert |r.slots| == MAX_HANDSHAKE_FLIGHT;
    if h.fragOff + h.fragLen <= h.msgLen && r.readSeq <= h.num < r.readSeq + MAX_HANDSHAKE_FLIGHT {
      hide Receiver.Valid;
      var (r', alert) := IncomingMessage(r, h);
      var idx := h.num % MAX_HANDSHAKE_FLIGHT;
      if r.slots[idx].None? {
        SetSlotKeepsRing(r, Frag(h.ty, h.msgLen, h.num, map[]));
      } else {
        SlotHoldsTheMessage(r, h.num);
      }
      if alert.None? {
        ReceiveIsWellFormed(r'.slots[idx].value, h.fragOff, body);
        SetSlotKeepsRing(r', r'.slots[idx].value.Receive(h.fragOff, body));
      }
    }
  }

  lemma {:induction false} FragmentsKeepRing(r: Receiver, plaintext: seq<byte>)
    requires r.Valid()
    ensures ReceiveFragments(r, plaintext).0.Valid()
    ensures var r' := ReceiveFragments(r, plaintext).0;
      r' == r.(slots := r'.slots)
    decreases |plaintext|
  {
    var parsed := ParseFragment(plaintext);
    if plaintext != [] && parsed.Some? {
      var (h, body, rest) := parsed.value;
      FragmentKeepsRing(r, h, body);
      var (r', alert) := ReceiveFragment(r, h, body);
      if alert.None? { FragmentsKeepRing(r', rest); }
    }
  }

  // Every receive keeps the ring invariant, whatever the bytes.
  lemma OpenKeepsRing(r: Receiver, input: seq<byte>, open: Aead)
    requires r.Valid()
    ensures OpenHandshake(r, input, open).0.Valid()
  {
    var (r', result, _) := OpenRecord(r, input, open);
    if result.Opened? && result.ty == RT_HANDSHAKE {
      FragmentsKeepRing(r', result.plaintext);
    }
  }

  // So does taking the current message, also when handshake_read_seq wraps.
  lemma NextMessageKeepsRing(r: Receiver)
    requires r.Valid()
    ensures NextMessage(r).Valid()
  {
    var r' := NextMessage(r);
    forall i | 0 <= i < |r'.slots| && r'.slots[i].Some?
      ensures r'.SlotValid(i, r'.slots[i].value)
    {
      assert r.SlotValid(i, r.slots[i].value);
      var n := r.slots[i].value.num;
      assert i != r.readSeq % MAX_HANDSHAKE_FLIGHT;
      assert n != r.readSeq;
    }
  }

  // No slot ever holds a message longer than what is allowed.
  ghost predicate LengthsAllowed(r: Receiver) {
    forall i | 0 <= i < |r.slots| && r.slots[i].Some? :: r.slots[i].value.msgLen <= r.maxMessageLen
  }

  lemma FragmentKeepsLengths(r: Receiver, h: Header, body: seq<byte>)
    requires |r.slots| == MAX_HANDSHAKE_FLIGHT && LengthsAllowed(r) && FitsHeader(h)
    ensures var r' := ReceiveFragment(r, h, body).0;
      |r'.slots| == MAX_HANDSHAKE_FLIGHT && r'.maxMessageLen == r.maxMessageLen && LengthsAllowed(r')
    ensures h.msgLen > r.maxMessageLen ==> ReceiveFragment(r, h, body) == (r, Some(IllegalParameter))
  {
  }

  lemma {:induction false} FragmentsKeepLengths(r: Receiver, plaintext: seq<byte>)
    requires |r.slots| == MAX_HANDSHAKE_FLIGHT && LengthsAllowed(r)
    ensures LengthsAllowed(ReceiveFragments(r, plaintext).0)
    decreases |plaintext|
  {
    var parsed := ParseFragment(plaintext);
    if plaintext != [] && parsed.Some? {
      var (h, body, rest) := parsed.value;
      FragmentKeepsLengths(r, h, body);
      var (r', alert) := ReceiveFragment(r, h, body);
      hide ReceiveFragment, ParseFragment, LengthsAllowed;
      if alert.None? { FragmentsKeepLengths(r', rest); }
    }
  }

  lemma OpenKeepsLengths(r: Receiver, input: seq<byte>, open: Aead)
    requires |r.slots| == MAX_HANDSHAKE_FLIGHT && LengthsAllowed(r)
    ensures LengthsAllowed(OpenHandshake(r, input, open).0)
  {
    var (r', result, _) := OpenRecord(r, input, open);
    if result.Opened? && result.ty == RT_HANDSHAKE {
      FragmentsKeepLengths(r', result.plaintext);
    }
  }

  // One past the window is not ignored as being too far ahead: it is an error.
  lemma OnePastTheWindowIsAnError(r: Receiver, h: Header, body: seq<byte>)
    requires r.Valid() && FitsHeader(h) && |body| == h.fragLen
    requires h.fragOff + h.fragLen <= h.msgLen <= r.maxMessageLen && r.epoch != 1
    ensures ReceiveFragment(r, h, body) == (r, Some(InternalError)) <==> h.num == r.readSeq + MAX_HANDSHAKE_FLIGHT
    ensures ReceiveFragment(r, h, body) == (r, None) <== h.num > r.readSeq + MAX_HANDSHAKE_FLIGHT
  {
  }
}
