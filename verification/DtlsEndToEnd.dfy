// A DTLS sender and receiver joined by a network that may lose, duplicate,
// reorder and inject records: what the receiver hands on is what the sender
// said, message by message, however it was cut (sections 4.2.3 and 4.2.6 of
// RFC 6347).
module DtlsEndToEnd {
  import opened Wire
  import opened Reassembly
  import opened DtlsSent
  import opened DtlsCipher
  import opened DtlsQueue
  import opened DtlsReceive
  import A = AeadContext
  import Records = DtlsRecords

  // The sender's log, the receiver, and the messages the receiver has handed on.
  datatype Connection = Connection(log: Log, receiver: Receiver, delivered: seq<seq<byte>>)

  // ---- The steps ----

  datatype Step =
    | SenderStep(log': Log)                          // says more, seals more
    | Arrival(input: seq<byte>, open: Aead)          // a record reaches the receiver
    | TakeMessage                                    // dtls1_get_message, then dtls1_next_message
    | ConsumeChangeCipherSpec
    | ChangeReadEpoch(version: nat)

  // What opens is what was sealed under the same epoch and number.  Anything may
  // arrive, in any order and any number of times, but only such records open.
  ghost predicate Authentic(log: Log, epoch: nat, input: seq<byte>, open: Aead) {
    var parsed := ParseRecord(input);
    parsed.Some? && parsed.value.epoch == epoch && open(parsed.value).Some? ==>
      exists i :: 0 <= i < |log.sent| && log.sent[i].epoch == epoch && log.sent[i].num == parsed.value.num
        && log.sent[i].ty == parsed.value.ty && log.sent[i].plaintext == open(parsed.value).value
  }

  ghost predicate Enabled(c: Connection, step: Step)
    requires |c.receiver.slots| == MAX_HANDSHAKE_FLIGHT
  {
    match step
    // Message numbers have 16 bits: the sender is at most 2^16 messages ahead.
    case SenderStep(log') => c.log.GrowsTo(log') && |log'.history| <= |c.delivered| + SEQ_SPACE
    case Arrival(input, open) => Authentic(c.log, c.receiver.epoch, input, open)
    case TakeMessage => c.receiver.CurrentComplete()
    case ConsumeChangeCipherSpec => c.receiver.hasCcs
    // The 16-bit epoch does not wrap around.
    case ChangeReadEpoch(version) => !HasUnprocessedData(c.receiver) && c.receiver.epoch + 1 < 0x1_0000
  }

  ghost function Next(c: Connection, step: Step): Connection
    requires |c.receiver.slots| == MAX_HANDSHAKE_FLIGHT && Enabled(c, step)
    requires step.TakeMessage? ==> c.receiver.Current().value.WellFormed()
  {
    match step
    case SenderStep(log') => c.(log := log')
    case Arrival(input, open) => c.(receiver := OpenHandshake(c.receiver, input, open).0)
    case TakeMessage => c.(receiver := NextMessage(c.receiver), delivered := c.delivered + [c.receiver.Current().value.Raw()])
    case ConsumeChangeCipherSpec => c.(receiver := c.receiver.(hasCcs := false))
    case ChangeReadEpoch(version) => c.(receiver := SetReadState(c.receiver, version))
  }

  // ---- The invariant ----

  // Some accepted record of the current epoch carried a piece of message k.
  ghost predicate Witnessed(log: Log, r: Receiver, k: nat) {
    exists i :: 0 <= i < |log.sent| && CarriesMessage(log, i, k) && log.sent[i].epoch == r.epoch && RecordNumber(log.sent[i]) in r.recorded
  }

  ghost predicate CarriesMessage(log: Log, i: nat, k: nat)
    requires i < |log.sent|
  {
    log.sent[i].k == Some(k)
  }

  ghost function RecordNumber(s: Sent): nat {
    s.epoch * 0x1_0000_0000_0000 + s.num
  }

  // Message k has reached the receiver in the current epoch or an earlier one.
  ghost predicate Arrived(log: Log, r: Receiver, k: nat) {
    && k < |log.history| && log.history[k].epoch <= r.epoch
    && (log.history[k].epoch == r.epoch ==> Witnessed(log, r, k))
  }

  // The fragment buffer holds bytes of message k and nothing else.
  ghost predicate PartOf(log: Log, f: Frag, k: nat) {
    && k < |log.history|
    && f.ty == log.history[k].ty && f.msgLen == |log.history[k].body|
    && forall i | i in f.got :: i < |log.history[k].body| && f.got[i] == log.history[k].body[i]
  }

  ghost predicate SlotMatches(c: Connection, f: Frag) {
    && f.num >= c.receiver.readSeq
    && var k := |c.delivered| + f.num - c.receiver.readSeq;
    && PartOf(c.log, f, k) && Arrived(c.log, c.receiver, k)
  }

  ghost predicate DeliveredOk(log: Log, r: Receiver, delivered: seq<seq<byte>>) {
    && |delivered| <= |log.history| && BodiesFit(log.history)
    && forall k | 0 <= k < |delivered| :: delivered[k] == Serialized(log.history[k], k) && Arrived(log, r, k)
  }

  ghost predicate SlotsOk(c: Connection)
    requires |c.receiver.slots| == MAX_HANDSHAKE_FLIGHT
  {
    forall i | 0 <= i < MAX_HANDSHAKE_FLIGHT && c.receiver.slots[i].Some? :: SlotMatches(c, c.receiver.slots[i].value)
  }

  ghost predicate Inv(c: Connection) {
    && c.log.Valid() && c.receiver.Valid()
    && |c.delivered| <= |c.log.history| <= |c.delivered| + SEQ_SPACE
    && c.receiver.readSeq == MessageNumber(|c.delivered|)
    && DeliveredOk(c.log, c.receiver, c.delivered)
    && SlotsOk(c)
  }

  // ---- A message number identifies the message ----

  // Starting from a record of message k, every seventh later message was
  // carried by a later record, so the record numbers have moved on by as much.
  lemma {:induction false} NumbersMoveOn(log: Log, r: Receiver, i: nat, k: nat, j: nat) returns (w: nat)
    requires log.Valid() && i < |log.sent| && CarriesMessage(log, i, k) && log.sent[i].epoch == r.epoch
    requires forall m | 0 < m <= j :: Witnessed(log, r, k + FLIGHT * m)
    ensures w < |log.sent| && CarriesMessage(log, w, k + FLIGHT * j) && log.sent[w].epoch == r.epoch
    ensures j == 0 ==> w == i
    ensures j > 0 ==> RecordNumber(log.sent[w]) in r.recorded
    ensures log.sent[w].num >= log.sent[i].num + j
    decreases j
  {
    if j == 0 {
      w := i;
    } else {
      var v := NumbersMoveOn(log, r, i, k, j - 1);
      assert Witnessed(log, r, k + FLIGHT * j);
      w :| 0 <= w < |log.sent| && CarriesMessage(log, w, k + FLIGHT * j) && log.sent[w].epoch == r.epoch && RecordNumber(log.sent[w]) in r.recorded;
      assert w > v;
      assert log.sent[v].num < log.sent[w].num;
    }
  }

  // A record of a message from a whole number space ago has fallen out of the
  // replay window.
  lemma OldMessagesAreReplays(c: Connection, i: nat, k: nat)
    requires Inv(c) && i < |c.log.sent| && c.log.FragmentOf(c.log.sent[i])
    requires CarriesMessage(c.log, i, k) && c.log.sent[i].epoch == c.receiver.epoch
    requires k + FLIGHT * 64 < |c.delivered|
    ensures Replayed(c.receiver, RecordNumber(c.log.sent[i]))
  {
    forall m | 0 < m <= 64
      ensures Witnessed(c.log, c.receiver, k + FLIGHT * m)
    {
      assert Arrived(c.log, c.receiver, k + FLIGHT * m);
      assert c.log.history[k].epoch <= c.log.history[k + FLIGHT * m].epoch;
    }
    var w := NumbersMoveOn(c.log, c.receiver, i, k, 64);
    assert RecordNumber(c.log.sent[w]) <= c.receiver.maxSeqNum;
  }

  // A fragment that is not a replay and whose number lies in the window belongs
  // to the message of that position: not to one 2^16 earlier or later.
  lemma NumberIdentifiesMessage(c: Connection, i: nat, k: nat)
    requires Inv(c) && i < |c.log.sent| && CarriesMessage(c.log, i, k) && c.log.sent[i].epoch == c.receiver.epoch
    requires !Replayed(c.receiver, RecordNumber(c.log.sent[i]))
    requires c.receiver.readSeq <= MessageNumber(k) < c.receiver.readSeq + MAX_HANDSHAKE_FLIGHT
    ensures k == |c.delivered| + MessageNumber(k) - c.receiver.readSeq
  {
    assert c.log.FragmentOf(c.log.sent[i]);
    if k + FLIGHT * 64 < |c.delivered| {
      OldMessagesAreReplays(c, i, k);
    } else {
      SameResidue(k, |c.delivered|, MessageNumber(k) - c.receiver.readSeq);
    }
  }

  lemma SameResidue(k: nat, n: nat, d: nat)
    requires MessageNumber(k) == MessageNumber(n) + d
    requires -SEQ_SPACE < k - n - d < SEQ_SPACE
    ensures k == n + d
  {
  }

  // ---- Every step keeps the invariant ----

  lemma ArrivedStays(log: Log, r: Receiver, log': Log, r': Receiver, k: nat)
    requires Arrived(log, r, k) && log.history <= log'.history && log.sent <= log'.sent
    requires r'.epoch == r.epoch && r.recorded <= r'.recorded
    ensures Arrived(log', r', k)
  {
    if Witnessed(log, r, k) {
      var i :| 0 <= i < |log.sent| && CarriesMessage(log, i, k) && log.sent[i].epoch == r.epoch && RecordNumber(log.sent[i]) in r.recorded;
      assert CarriesMessage(log', i, k);
    }
  }

  lemma DeliveredStays(log: Log, r: Receiver, log': Log, r': Receiver, delivered: seq<seq<byte>>)
    requires DeliveredOk(log, r, delivered) && log.history <= log'.history && log.sent <= log'.sent && BodiesFit(log'.history)
    requires r'.epoch == r.epoch && r.recorded <= r'.recorded
    ensures DeliveredOk(log', r', delivered)
  {
    forall k | 0 <= k < |delivered|
      ensures delivered[k] == Serialized(log'.history[k], k) && Arrived(log', r', k)
    {
      ArrivedStays(log, r, log', r', k);
    }
  }

  lemma SlotMatchesStays(c: Connection, log': Log, r': Receiver, f: Frag)
    requires SlotMatches(c, f) && c.log.history <= log'.history && c.log.sent <= log'.sent
    requires r'.epoch == c.receiver.epoch && r'.readSeq == c.receiver.readSeq && c.receiver.recorded <= r'.recorded
    ensures SlotMatches(c.(log := log', receiver := r'), f)
  {
    ArrivedStays(c.log, c.receiver, log', r', |c.delivered| + f.num - c.receiver.readSeq);
  }

  // The log grows, more numbers are recorded, or flags change; the ring is as it was.
  lemma GrowingKeepsInv(c: Connection, log': Log, r': Receiver)
    requires Inv(c) && c.log.GrowsTo(log') && |log'.history| <= |c.delivered| + SEQ_SPACE
    requires r'.Valid() && r'.epoch == c.receiver.epoch && r'.readSeq == c.receiver.readSeq && r'.slots == c.receiver.slots
    requires c.receiver.recorded <= r'.recorded
    ensures Inv(c.(log := log', receiver := r'))
  {
    DeliveredStays(c.log, c.receiver, log', r', c.delivered);
    hide Serialized, PartOf, Arrived, DeliveredOk;
    forall i | 0 <= i < MAX_HANDSHAKE_FLIGHT && r'.slots[i].Some?
      ensures SlotMatches(c.(log := log', receiver := r'), r'.slots[i].value)
    {
      SlotMatchesStays(c, log', r', r'.slots[i].value);
    }
  }

  lemma SenderStepKeepsInv(c: Connection, log': Log)
    requires Inv(c) && Enabled(c, SenderStep(log'))
    ensures Inv(Next(c, SenderStep(log')))
  {
    GrowingKeepsInv(c, log', c.receiver);
  }

  lemma RecordingEffect(r: Receiver, input: seq<byte>, open: Aead)
    requires r.Valid()
    ensures var r' := OpenRecord(r, input, open).0;
      r'.Valid() && r' == r.(recorded := r'.recorded, maxSeqNum := r'.maxSeqNum) && r.recorded <= r'.recorded
  {
    var r' := OpenRecord(r, input, open).0;
    forall i | 0 <= i < |r'.slots| && r'.slots[i].Some?
      ensures r'.SlotValid(i, r'.slots[i].value)
    {
      assert r.SlotValid(i, r.slots[i].value);
    }
  }

  // Recording a number changes nothing else.
  lemma RecordingKeepsInv(c: Connection, input: seq<byte>, open: Aead)
    requires Inv(c)
    ensures Inv(c.(receiver := OpenRecord(c.receiver, input, open).0))
  {
    RecordingEffect(c.receiver, input, open);
    GrowingKeepsInv(c, c.log, OpenRecord(c.receiver, input, open).0);
  }

  // A record that opens is one that was sealed, and it was not a replay.
  lemma OpenedWasSealed(c: Connection, input: seq<byte>, open: Aead) returns (i: nat)
    requires Inv(c) && Authentic(c.log, c.receiver.epoch, input, open)
    requires OpenRecord(c.receiver, input, open).1.Opened?
    ensures i < |c.log.sent|
    ensures var (r', result, _) := OpenRecord(c.receiver, input, open);
      && c.log.sent[i].epoch == c.receiver.epoch && c.log.sent[i].ty == result.ty && c.log.sent[i].plaintext == result.plaintext
      && !Replayed(c.receiver, RecordNumber(c.log.sent[i]))
      && r'.recorded == c.receiver.recorded + {RecordNumber(c.log.sent[i])}
      && r'.slots == c.receiver.slots && r'.readSeq == c.receiver.readSeq && r'.epoch == c.receiver.epoch
  {
    var rec := ParseRecord(input).value;
    i :| 0 <= i < |c.log.sent| && c.log.sent[i].epoch == c.receiver.epoch && c.log.sent[i].num == rec.num
      && c.log.sent[i].ty == rec.ty && c.log.sent[i].plaintext == open(rec).value;
  }

  // The header and the body of a sealed fragment.
  ghost function CutHeader(log: Log, s: Sent): (h: Header)
    requires s.k.Some? && log.FragmentOf(s)
    ensures FitsHeader(h) && h.num == MessageNumber(s.k.value) && h.fragLen == s.len
  {
    var m := log.history[s.k.value];
    Header(m.ty, |m.body|, MessageNumber(s.k.value), s.off, s.len)
  }

  ghost function CutBody(log: Log, s: Sent): (body: seq<byte>)
    requires s.k.Some? && log.FragmentOf(s)
    ensures |body| == s.len
  {
    log.history[s.k.value].body[s.off..s.off + s.len]
  }

  // A sealed fragment parses as exactly one fragment.
  lemma SealedFragmentParses(log: Log, s: Sent)
    requires s.k.Some? && log.FragmentOf(s)
    ensures ParseFragment(s.plaintext) == Some((CutHeader(log, s), CutBody(log, s), [])) && s.plaintext != []
  {
    ParseOfHeaderBytes(CutHeader(log, s), CutBody(log, s), []);
    assert s.plaintext == HeaderBytes(CutHeader(log, s)) + CutBody(log, s) + [];
  }

  lemma OneFragment(log: Log, r: Receiver, s: Sent)
    requires |r.slots| == MAX_HANDSHAKE_FLIGHT && s.k.Some? && log.FragmentOf(s)
    ensures ReceiveFragments(r, s.plaintext) == ReceiveFragment(r, CutHeader(log, s), CutBody(log, s))
  {
    SealedFragmentParses(log, s);
    hide ParseFragment, ReceiveFragment, CutHeader, CutBody, Log.FragmentOf;
    var r' := ReceiveFragment(r, CutHeader(log, s), CutBody(log, s)).0;
    assert |r'.slots| == MAX_HANDSHAKE_FLIGHT by { ReceiveFragmentSlots(r, CutHeader(log, s), CutBody(log, s)); }
    assert ReceiveFragments(r', []) == (r', None);
  }

  lemma ReceiveFragmentSlots(r: Receiver, h: Header, body: seq<byte>)
    requires |r.slots| == MAX_HANDSHAKE_FLIGHT && FitsHeader(h)
    ensures |ReceiveFragment(r, h, body).0.slots| == MAX_HANDSHAKE_FLIGHT
  {
  }

  // Storing a piece of message k keeps its slot a part of message k.
  lemma PieceOfMessage(log: Log, f: Frag, k: nat, off: nat, len: nat)
    requires PartOf(log, f, k) && off + len <= |log.history[k].body|
    ensures PartOf(log, f.Receive(off, log.history[k].body[off..off + len]), k)
  {
  }

  // Record i, of message k, has just been recorded; its fragment is received.
  lemma FragmentKeepsInv(c: Connection, i: nat, k: nat)
    requires Inv(c) && i < |c.log.sent| && c.log.sent[i].k == Some(k) && c.log.FragmentOf(c.log.sent[i])
    requires c.log.sent[i].epoch == c.receiver.epoch && RecordNumber(c.log.sent[i]) in c.receiver.recorded
    requires c.receiver.readSeq <= MessageNumber(k) < c.receiver.readSeq + MAX_HANDSHAKE_FLIGHT
      ==> k == |c.delivered| + MessageNumber(k) - c.receiver.readSeq
    ensures var s := c.log.sent[i];
      Inv(c.(receiver := ReceiveFragment(c.receiver, CutHeader(c.log, s), CutBody(c.log, s)).0))
  {
    var s, r := c.log.sent[i], c.receiver;
    var h, body := CutHeader(c.log, s), CutBody(c.log, s);
    var r' := ReceiveFragment(r, h, body).0;
    FragmentKeepsRing(r, h, body);
    FragmentEffect(r, h, body);
    RecordArrived(c.log, r, i, k);
    DeliveredStays(c.log, r, c.log, r', c.delivered);
    if r'.slots == r.slots {
      GrowingKeepsInv(c, c.log, r');
    } else {
      var f := r'.slots[h.num % MAX_HANDSHAKE_FLIGHT].value;
      StoredIsPart(c, s, k, f);
      SetSlotKeepsSlots(c, k, r', f);
      hide DeliveredOk, SlotsOk, ReceiveFragment, Log.FragmentOf, PartOf, Arrived, Existing, MessageNumber, CutHeader, CutBody;
    }
  }

  lemma RecordArrived(log: Log, r: Receiver, i: nat, k: nat)
    requires log.Valid() && i < |log.sent| && log.sent[i].k == Some(k) && log.FragmentOf(log.sent[i])
    requires log.sent[i].epoch == r.epoch && RecordNumber(log.sent[i]) in r.recorded
    ensures Arrived(log, r, k)
  {
    assert CarriesMessage(log, i, k);
  }

  // What the slot of a fragment of message k holds is part of message k.
  lemma StoredIsPart(c: Connection, s: Sent, k: nat, f: Frag)
    requires c.receiver.Valid() && SlotsOk(c) && s.k == Some(k) && c.log.FragmentOf(s)
    requires f == Existing(c.receiver, CutHeader(c.log, s))
          || f == Existing(c.receiver, CutHeader(c.log, s)).Receive(CutHeader(c.log, s).fragOff, CutBody(c.log, s))
    requires var before := Existing(c.receiver, CutHeader(c.log, s));
      before.ty == CutHeader(c.log, s).ty && before.msgLen == CutHeader(c.log, s).msgLen
    requires c.receiver.readSeq <= MessageNumber(k) < c.receiver.readSeq + MAX_HANDSHAKE_FLIGHT
    requires k == |c.delivered| + MessageNumber(k) - c.receiver.readSeq
    ensures PartOf(c.log, f, k) && f.num == MessageNumber(k)
  {
    var h := CutHeader(c.log, s);
    var before := Existing(c.receiver, h);
    if c.receiver.slots[h.num % MAX_HANDSHAKE_FLIGHT].Some? {
      SlotHoldsTheMessage(c.receiver, h.num);
      assert SlotMatches(c, before);
    }
    PieceOfMessage(c.log, before, k, s.off, s.len);
  }

  lemma SetSlotKeepsSlots(c: Connection, k: nat, r': Receiver, f: Frag)
    requires |c.receiver.slots| == MAX_HANDSHAKE_FLIGHT && SlotsOk(c)
    requires Arrived(c.log, c.receiver, k) && PartOf(c.log, f, k)
    requires f.num == MessageNumber(k) >= c.receiver.readSeq && k == |c.delivered| + f.num - c.receiver.readSeq
    requires r' == c.receiver.(slots := c.receiver.slots[f.num % MAX_HANDSHAKE_FLIGHT := Some(f)])
    ensures SlotsOk(c.(receiver := r'))
  {
    hide PartOf, Arrived;
    var c' := c.(receiver := r');
    ArrivedStays(c.log, c.receiver, c.log, r', k);
    forall j | 0 <= j < MAX_HANDSHAKE_FLIGHT && r'.slots[j].Some?
      ensures SlotMatches(c', r'.slots[j].value)
    {
      if j != f.num % MAX_HANDSHAKE_FLIGHT {
        SlotMatchesStays(c, c.log, r', r'.slots[j].value);
      }
    }
  }

  // The buffer a fragment goes to: the one of its slot, or a new one.
  ghost function Existing(r: Receiver, h: Header): Frag
    requires |r.slots| == MAX_HANDSHAKE_FLIGHT
  {
    var slot := r.slots[h.num % MAX_HANDSHAKE_FLIGHT];
    if slot.Some? then slot.value else Frag(h.ty, h.msgLen, h.num, map[])
  }

  lemma FragmentEffect(r: Receiver, h: Header, body: seq<byte>)
    requires r.Valid() && FitsHeader(h) && |body| == h.fragLen
    ensures var r', idx := ReceiveFragment(r, h, body).0, h.num % MAX_HANDSHAKE_FLIGHT;
      && r' == r.(slots := r'.slots) && |r'.slots| == |r.slots|
      && (r'.slots == r.slots
          || (&& r.readSeq <= h.num < r.readSeq + MAX_HANDSHAKE_FLIGHT
              && Existing(r, h).ty == h.ty && Existing(r, h).msgLen == h.msgLen
              && (r'.slots == r.slots[idx := Some(Existing(r, h))]
                  || r'.slots == r.slots[idx := Some(Existing(r, h).Receive(h.fragOff, body))])))
  {
  }

  // r is the receiver once it has recorded the number of record i.
  lemma HandshakeRecordKeepsInv(c: Connection, r: Receiver, i: nat)
    requires Inv(c) && Inv(c.(receiver := r))
    requires i < |c.log.sent| && c.log.sent[i].ty == RT_HANDSHAKE && c.log.sent[i].epoch == c.receiver.epoch == r.epoch
    requires !Replayed(c.receiver, RecordNumber(c.log.sent[i])) && RecordNumber(c.log.sent[i]) in r.recorded
    requires r.readSeq == c.receiver.readSeq
    ensures Inv(c.(receiver := ReceiveFragments(r, c.log.sent[i].plaintext).0))
  {
    var s := c.log.sent[i];
    assert c.log.FragmentOf(s) && |r.slots| == MAX_HANDSHAKE_FLIGHT;
    OneFragment(c.log, r, s);
    WindowIdentifies(c, i, s.k.value);
    FragmentKeepsInv(c.(receiver := r), i, s.k.value) by {
      hide Inv, ReceiveFragments, ReceiveFragment, MessageNumber, Replayed, CutHeader, CutBody;
    }
  }

  lemma WindowIdentifies(c: Connection, i: nat, k: nat)
    requires Inv(c) && i < |c.log.sent| && c.log.sent[i].k == Some(k) && c.log.sent[i].epoch == c.receiver.epoch
    requires !Replayed(c.receiver, RecordNumber(c.log.sent[i]))
    ensures c.receiver.readSeq <= MessageNumber(k) < c.receiver.readSeq + MAX_HANDSHAKE_FLIGHT
      ==> k == |c.delivered| + MessageNumber(k) - c.receiver.readSeq
  {
    assert CarriesMessage(c.log, i, k);
    if c.receiver.readSeq <= MessageNumber(k) < c.receiver.readSeq + MAX_HANDSHAKE_FLIGHT {
      NumberIdentifiesMessage(c, i, k);
    }
  }

  lemma CcsKeepsInv(c: Connection)
    requires Inv(c)
    ensures Inv(c.(receiver := c.receiver.(hasCcs := true)))
  {
    FlagsKeepRing(c.receiver, true);
    GrowingKeepsInv(c, c.log, c.receiver.(hasCcs := true));
  }

  lemma FlagsKeepRing(r: Receiver, hasCcs: bool)
    requires r.Valid()
    ensures r.(hasCcs := hasCcs).Valid()
  {
    forall i | 0 <= i < |r.slots| && r.slots[i].Some?
      ensures r.(hasCcs := hasCcs).SlotValid(i, r.slots[i].value)
    {
      assert r.SlotValid(i, r.slots[i].value);
    }
  }

  lemma ArrivalKeepsInv(c: Connection, input: seq<byte>, open: Aead)
    requires Inv(c) && Enabled(c, Arrival(input, open))
    ensures Inv(Next(c, Arrival(input, open)))
  {
    RecordingKeepsInv(c, input, open);
    var (r, result, _) := OpenRecord(c.receiver, input, open);
    if result.Opened? {
      var i := OpenedWasSealed(c, input, open);
      hide Inv, ReceiveFragments, OpenRecord, Authentic;
      if result.ty == RT_HANDSHAKE {
        HandshakeRecordKeepsInv(c, r, i);
      } else if result.ty == RT_CHANGE_CIPHER_SPEC {
        CcsKeepsInv(c.(receiver := r));
      }
    }
  }

  // The current message, once complete, is the sender's next message, whole.
  lemma CurrentIsNextMessage(c: Connection)
    requires Inv(c) && c.receiver.CurrentComplete()
    ensures c.receiver.Current().value.WellFormed() && |c.delivered| < |c.log.history|
    ensures c.receiver.Current().value.Raw() == Serialized(c.log.history[|c.delivered|], |c.delivered|)
    ensures Arrived(c.log, c.receiver, |c.delivered|)
  {
    var r, k := c.receiver, |c.delivered|;
    var idx := r.readSeq % MAX_HANDSHAKE_FLIGHT;
    var f := r.Current().value;
    SlotHoldsTheMessage(r, r.readSeq);
    assert SlotMatches(c, r.slots[idx].value);
    var m := c.log.history[k];
    assert seq(f.msgLen, i requires 0 <= i < f.msgLen => f.got[i]) == m.body;
  }

  // Numbers do not wrap around inside the ring.
  lemma AheadAfterTaking(num: nat, readSeq: nat, readSeq': nat)
    requires readSeq < num < SEQ_SPACE && readSeq' == (readSeq + 1) % SEQ_SPACE
    ensures readSeq' == readSeq + 1
  {
  }

  lemma TakeKeepsDelivered(c: Connection)
    requires Inv(c) && c.receiver.CurrentComplete()
    ensures c.receiver.Current().value.WellFormed()
    ensures var c' := Next(c, TakeMessage);
      DeliveredOk(c'.log, c'.receiver, c'.delivered)
  {
    CurrentIsNextMessage(c);
    hide Serialized, Frag.Raw;
    var c' := Next(c, TakeMessage);
    DeliveredStays(c.log, c.receiver, c.log, c'.receiver, c.delivered);
    ArrivedStays(c.log, c.receiver, c.log, c'.receiver, |c.delivered|);
  }

  lemma TakeKeepsSlots(c: Connection)
    requires Inv(c) && c.receiver.CurrentComplete() && c.receiver.Current().value.WellFormed()
    ensures SlotsOk(Next(c, TakeMessage))
  {
    hide DeliveredOk, Log.Valid, PartOf, Frag.Raw, Arrived;
    NextMessageKeepsRing(c.receiver);
    var c' := Next(c, TakeMessage);
    var r, r' := c.receiver, c'.receiver;
    forall i | 0 <= i < MAX_HANDSHAKE_FLIGHT && r'.slots[i].Some?
      ensures SlotMatches(c', r'.slots[i].value)
    {
      var f := r'.slots[i].value;
      assert r.SlotValid(i, f) && r'.SlotValid(i, f) && SlotMatches(c, f);
      AheadAfterTaking(f.num, r.readSeq, r'.readSeq);
      ArrivedStays(c.log, r, c.log, r', |c.delivered| + f.num - r.readSeq);
    }
  }

  lemma NextNumber(n: nat)
    ensures MessageNumber(n + 1) == (MessageNumber(n) + 1) % SEQ_SPACE
  {
  }

  lemma TakeKeepsInv(c: Connection)
    requires Inv(c) && Enabled(c, TakeMessage)
    ensures c.receiver.Current().value.WellFormed() && Inv(Next(c, TakeMessage))
  {
    CurrentIsNextMessage(c);
    NextMessageKeepsRing(c.receiver);
    TakeKeepsDelivered(c);
    TakeKeepsSlots(c);
    NextNumber(|c.delivered|);
    hide DeliveredOk, SlotsOk, Frag.Raw, Log.Valid, Receiver.Valid, Serialized, MessageNumber;
  }

  lemma ConsumeKeepsInv(c: Connection)
    requires Inv(c) && Enabled(c, ConsumeChangeCipherSpec)
    ensures Inv(Next(c, ConsumeChangeCipherSpec))
  {
    FlagsKeepRing(c.receiver, false);
    GrowingKeepsInv(c, c.log, c.receiver.(hasCcs := false));
  }

  lemma EpochKeepsInv(c: Connection, version: nat)
    requires Inv(c) && Enabled(c, ChangeReadEpoch(version))
    ensures Inv(Next(c, ChangeReadEpoch(version)))
  {
    hide Serialized, PartOf;
    var c' := Next(c, ChangeReadEpoch(version));
    forall i | 0 <= i < MAX_HANDSHAKE_FLIGHT
      ensures c'.receiver.slots[i].Some? ==> c'.receiver.SlotValid(i, c'.receiver.slots[i].value) && SlotMatches(c', c'.receiver.slots[i].value)
    {
      if c'.receiver.slots[i].Some? {
        assert c.receiver.SlotValid(i, c'.receiver.slots[i].value) && SlotMatches(c, c'.receiver.slots[i].value);
      }
    }
    forall k | 0 <= k < |c.delivered|
      ensures Arrived(c.log, c'.receiver, k)
    {
      assert Arrived(c.log, c.receiver, k);
    }
  }

  lemma StepKeepsInv(c: Connection, step: Step)
    requires Inv(c) && Enabled(c, step)
    ensures step.TakeMessage? ==> c.receiver.Current().value.WellFormed()
    ensures Inv(Next(c, step))
  {
    match step
    case SenderStep(log') => SenderStepKeepsInv(c, log');
    case Arrival(input, open) => ArrivalKeepsInv(c, input, open);
    case TakeMessage => TakeKeepsInv(c);
    case ConsumeChangeCipherSpec => ConsumeKeepsInv(c);
    case ChangeReadEpoch(version) => EpochKeepsInv(c, version);
  }

  // ---- Runs ----

  ghost predicate StepsTo(c: Connection, step: Step, c': Connection) {
    && |c.receiver.slots| == MAX_HANDSHAKE_FLIGHT && Enabled(c, step)
    && (step.TakeMessage? ==> c.receiver.Current().value.WellFormed())
    && c' == Next(c, step)
  }

  ghost predicate IsRun(states: seq<Connection>, steps: seq<Step>) {
    && |states| == |steps| + 1
    && forall i | 0 <= i < |steps| :: StepsTo(states[i], steps[i], states[i + 1])
  }

  // Nothing has been said or received yet.
  ghost predicate Initial(c: Connection) {
    && c.log == Log([], []) && c.delivered == []
    && c.receiver == Receiver(false, None, 0, {}, 0, c.receiver.maxMessageLen, 0, seq(MAX_HANDSHAKE_FLIGHT, _ => None), false, false)
  }

  lemma InitialInv(c: Connection)
    requires Initial(c)
    ensures Inv(c)
  {
    assert c.receiver.Valid();
    assert c.log.Valid();
  }

  lemma {:induction false} RunKeepsInv(states: seq<Connection>, steps: seq<Step>, i: nat)
    requires IsRun(states, steps) && Initial(states[0]) && i < |states|
    ensures Inv(states[i])
  {
    if i == 0 {
      InitialInv(states[0]);
    } else {
      RunKeepsInv(states, steps, i - 1);
      assert StepsTo(states[i - 1], steps[i - 1], states[i]);
      StepKeepsInv(states[i - 1], steps[i - 1]);
    }
  }

  ghost function Concat(messages: seq<seq<byte>>): seq<byte> {
    if messages == [] then [] else Concat(messages[..|messages| - 1]) + messages[|messages| - 1]
  }

  lemma {:induction false} ConcatIsTranscript(log: Log, r: Receiver, delivered: seq<seq<byte>>)
    requires DeliveredOk(log, r, delivered)
    ensures Concat(delivered) == Transcript(log.history, |delivered|)
    decreases |delivered|
  {
    if delivered != [] {
      var init := delivered[..|delivered| - 1];
      assert DeliveredOk(log, r, init);
      ConcatIsTranscript(log, r, init);
    }
  }

  // At every point of every run the messages handed on are the sender's first
  // messages, in order and byte for byte as the sender hashed them, so the two
  // transcripts agree; and the next complete message continues them.
  lemma DeliveredIsWhatWasSaid(states: seq<Connection>, steps: seq<Step>, i: nat)
    requires IsRun(states, steps) && Initial(states[0]) && i < |states|
    ensures var c := states[i];
      && BodiesFit(c.log.history) && |c.delivered| <= |c.log.history|
      && (forall k | 0 <= k < |c.delivered| :: c.delivered[k] == Serialized(c.log.history[k], k))
      && Concat(c.delivered) == Transcript(c.log.history, |c.delivered|)
      && |c.receiver.slots| == MAX_HANDSHAKE_FLIGHT
      && (c.receiver.CurrentComplete() ==>
            && |c.delivered| < |c.log.history| && c.receiver.Current().value.WellFormed()
            && c.receiver.Current().value.Raw() == Serialized(c.log.history[|c.delivered|], |c.delivered|))
  {
    RunKeepsInv(states, steps, i);
    var c := states[i];
    ConcatIsTranscript(c.log, c.receiver, c.delivered);
    if c.receiver.CurrentComplete() {
      CurrentIsNextMessage(c);
    }
  }

  // ---- Progress ----

  lemma StoredBytes(f: Frag, off: nat, body: seq<byte>)
    requires f.WellFormed() && off + |body| <= f.msgLen
    ensures var g := if f.Complete() then f else f.Receive(off, body);
      (forall j | off <= j < off + |body| :: j in g.got) && f.got.Keys <= g.got.Keys
  {
  }

  // A fragment that agrees with what its slot holds is stored.
  lemma MatchingFragmentIsStored(r: Receiver, h: Header, body: seq<byte>)
    requires r.Valid() && FitsHeader(h) && |body| == h.fragLen && h.fragOff + h.fragLen <= h.msgLen <= r.maxMessageLen
    requires r.readSeq <= h.num < r.readSeq + MAX_HANDSHAKE_FLIGHT && (r.epoch == 1 ==> h.num == r.readSeq)
    requires Existing(r, h).ty == h.ty && Existing(r, h).msgLen == h.msgLen
    ensures var (r', alert) := ReceiveFragment(r, h, body);
      var slot := r'.slots[h.num % MAX_HANDSHAKE_FLIGHT];
      && alert == None && |r'.slots| == MAX_HANDSHAKE_FLIGHT && slot.Some?
      && (forall j | h.fragOff <= j < h.fragOff + h.fragLen :: j in slot.value.got)
      && Existing(r, h).got.Keys <= slot.value.got.Keys
  {
    assert Existing(r, h).WellFormed();
    StoredBytes(Existing(r, h), h.fragOff, body);
    hide Frag.Complete, Frag.Receive, Frag.WellFormed, Receiver.Valid;
  }

  // So a fresh fragment whose number lies in the window is never an error: its
  // bytes are there afterwards, and no byte is lost.
  lemma FreshFragmentIsStored(c: Connection, i: nat, k: nat)
    requires Inv(c) && i < |c.log.sent| && c.log.sent[i].k == Some(k) && c.log.FragmentOf(c.log.sent[i])
    requires c.log.sent[i].epoch == c.receiver.epoch && !Replayed(c.receiver, RecordNumber(c.log.sent[i]))
    requires c.receiver.readSeq <= MessageNumber(k) < c.receiver.readSeq + MAX_HANDSHAKE_FLIGHT
    requires |c.log.history[k].body| <= c.receiver.maxMessageLen
    requires c.receiver.epoch == 1 ==> k == |c.delivered|
    ensures var s := c.log.sent[i];
      var (r', alert) := ReceiveFragment(c.receiver, CutHeader(c.log, s), CutBody(c.log, s));
      var slot := r'.slots[MessageNumber(k) % MAX_HANDSHAKE_FLIGHT];
      && alert == None && slot.Some?
      && (forall j | s.off <= j < s.off + s.len :: j in slot.value.got)
      && Existing(c.receiver, CutHeader(c.log, s)).got.Keys <= slot.value.got.Keys
  {
    var s, r := c.log.sent[i], c.receiver;
    var h := CutHeader(c.log, s);
    assert CarriesMessage(c.log, i, k);
    NumberIdentifiesMessage(c, i, k);
    if r.slots[h.num % MAX_HANDSHAKE_FLIGHT].Some? {
      SlotHoldsTheMessage(r, h.num);
      assert SlotMatches(c, r.slots[h.num % MAX_HANDSHAKE_FLIGHT].value);
    }
    hide ReceiveFragment, CarriesMessage, Serialized, FragmentBytes;
    MatchingFragmentIsStored(r, h, CutBody(c.log, s));
  }

  // ---- Why the sender may not be further ahead ----

  // A record in the clear, as it is on the wire
  ghost function ClearBytes(s: Sent): seq<byte>
    requires s.epoch == 0 && s.num < LAST_RECORD_NUMBER && s.size == 13 + |s.plaintext| && |s.plaintext| <= MAX_PLAIN_LENGTH
  {
    ClearIsOk(s);
    Records.RecordBytes(s, CLEAR, 0xfefd, [])
  }

  const CLEAR: WriteAead := WriteAead(A.NULL_CIPHER, A.PLAIN)

  lemma ClearIsOk(s: Sent)
    requires s.epoch == 0 && s.num < LAST_RECORD_NUMBER && s.size == 13 + |s.plaintext| && |s.plaintext| <= MAX_PLAIN_LENGTH
    ensures Records.CanBeSent(s, CLEAR, 0xfefd, [])
  {
    A.PlainIsCorrect();
  }

  ghost predicate JustStarted(r: Receiver) {
    r == Receiver(false, None, 0, {}, 0, r.maxMessageLen, 0, seq(MAX_HANDSHAKE_FLIGHT, _ => None), false, false)
  }

  // The first record that a receiver gets
  lemma FirstRecord(r: Receiver, s: Sent)
    requires JustStarted(r) && s.ty == RT_HANDSHAKE
    requires s.epoch == 0 && s.num < LAST_RECORD_NUMBER && s.size == 13 + |s.plaintext| && |s.plaintext| <= MAX_PLAIN_LENGTH
    ensures var (r', result, _) := OpenRecord(r, ClearBytes(s), Records.OpenWith(CLEAR));
      result == Opened(RT_HANDSHAKE, s.plaintext) && r'.slots == r.slots && r'.readSeq == 0 && r'.epoch == 0 && r'.maxMessageLen == r.maxMessageLen
    ensures var parsed := ParseRecord(ClearBytes(s));
      parsed.Some? && parsed.value.num == s.num && parsed.value.ty == s.ty && Records.OpenWith(CLEAR)(parsed.value) == Some(s.plaintext)
  {
    ClearIsOk(s);
    var bytes := ClearBytes(s);
    assert bytes + [] == bytes;
    Records.HonestRecordIsOpened(r, s, CLEAR, 0xfefd, [], []);
    Records.RecordParses(s, CLEAR, 0xfefd, [], []);
    Records.Unseals(s, CLEAR, 0xfefd, []);
    RecordingEffect(r, bytes, Records.OpenWith(CLEAR));
  }

  lemma FirstMessage(r: Receiver, h: Header)
    requires |r.slots| == MAX_HANDSHAKE_FLIGHT && (forall i | 0 <= i < |r.slots| :: r.slots[i].None?) && r.readSeq == 0 && r.epoch == 0
    requires FitsHeader(h) && h.num == 0 && h.msgLen == 0 && h.fragOff == 0 && h.fragLen == 0
    ensures var (r', alert) := ReceiveFragment(r, h, []);
      alert == None && |r'.slots| == MAX_HANDSHAKE_FLIGHT && r'.readSeq == 0 && r'.slots[0] == Some(Frag(h.ty, 0, 0, map[]))
  {
  }

  // All the sender has sealed is its message 65536, which is of another type than its message 0.
  ghost function FarAhead(): (l: Log)
    ensures |l.history| == SEQ_SPACE + 1 && |l.sent| == 1
    ensures l.history[0] == Message(1, [], 0) && l.history[SEQ_SPACE] == Message(2, [], 0)
    ensures l.sent[0] == Sent(0, 0, RT_HANDSHAKE, FragmentBytes(Message(2, [], 0), SEQ_SPACE, 0, 0), 25, Some(SEQ_SPACE), 0, 0)
  {
    Log(seq(SEQ_SPACE, _ => Message(1, [], 0)) + [Message(2, [], 0)],
        [Sent(0, 0, RT_HANDSHAKE, FragmentBytes(Message(2, [], 0), SEQ_SPACE, 0, 0), 25, Some(SEQ_SPACE), 0, 0)])
  }

  lemma FarAheadIsALog()
    ensures Log([], []).GrowsTo(FarAhead()) && FarAhead().FragmentOf(FarAhead().sent[0])
    ensures CutHeader(FarAhead(), FarAhead().sent[0]) == Header(2, 0, 0, 0, 0) && CutBody(FarAhead(), FarAhead().sent[0]) == []
    ensures |FarAhead().sent[0].plaintext| == 12
  {
  }

  lemma OnlyRecordArrives(c: Connection)
    requires c.log == FarAhead() && JustStarted(c.receiver)
    ensures var s := c.log.sent[0];
      && s.num < LAST_RECORD_NUMBER && s.size == 13 + |s.plaintext| && |s.plaintext| <= MAX_PLAIN_LENGTH
      && var input, open := ClearBytes(s), Records.OpenWith(CLEAR);
      && Enabled(c, Arrival(input, open))
      && var c' := Next(c, Arrival(input, open));
      && c' == c.(receiver := c'.receiver) && c'.receiver.readSeq == 0
      && |c'.receiver.slots| == MAX_HANDSHAKE_FLIGHT && c'.receiver.slots[0] == Some(Frag(2, 0, 0, map[]))
  {
    FarAheadIsALog();
    var s, r := c.log.sent[0], c.receiver;
    hide FragmentBytes, FarAhead, CutHeader, CutBody, ClearBytes, Records.OpenWith, Log.FragmentOf, OpenRecord, ReceiveFragment, ReceiveFragments,
         Frag.Complete, Authentic, OpenHandshake;
    FirstRecord(r, s);
    var input, open := ClearBytes(s), Records.OpenWith(CLEAR);
    var r' := OpenRecord(r, input, open).0;
    OneFragment(c.log, r', s);
    FirstMessage(r', Header(2, 0, 0, 0, 0));
    FragmentsArrive(r, input, open, s.plaintext);
    IsAuthentic(c.log, s, input, open);
  }

  lemma FragmentsArrive(r: Receiver, input: seq<byte>, open: Aead, plaintext: seq<byte>)
    requires |r.slots| == MAX_HANDSHAKE_FLIGHT && OpenRecord(r, input, open).1 == Opened(RT_HANDSHAKE, plaintext)
    requires |OpenRecord(r, input, open).0.slots| == MAX_HANDSHAKE_FLIGHT
    ensures OpenHandshake(r, input, open).0 == ReceiveFragments(OpenRecord(r, input, open).0, plaintext).0
  {
    hide OpenRecord, ReceiveFragments;
  }

  lemma IsAuthentic(log: Log, s: Sent, input: seq<byte>, open: Aead)
    requires log.sent == [s] && s.epoch == 0
    requires var parsed := ParseRecord(input);
      parsed.Some? && parsed.value.num == s.num && parsed.value.ty == s.ty && open(parsed.value) == Some(s.plaintext)
    ensures Authentic(log, 0, input, open)
  {
    hide ParseRecord;
    assert log.sent[0] == s;
  }

  // One message further ahead than the 2^16 numbers, and there is a run, from
  // the start and but for that bound like any other, in which the sender's
  // message 65536 is handed on as its message 0.
  lemma BeyondTheNumberSpace(maxMessageLen: nat) returns (c0: Connection, c1: Connection, input: seq<byte>, open: Aead, c2: Connection)
    ensures Initial(c0) && c0.receiver.maxMessageLen == maxMessageLen
    ensures c0.log.GrowsTo(c1.log) && c1 == c0.(log := c1.log) && |c1.log.history| == |c1.delivered| + SEQ_SPACE + 1
    ensures |c1.receiver.slots| == MAX_HANDSHAKE_FLIGHT && Enabled(c1, Arrival(input, open)) && c2 == Next(c1, Arrival(input, open))
    ensures |c2.receiver.slots| == MAX_HANDSHAKE_FLIGHT && Enabled(c2, TakeMessage) && c2.receiver.Current().value.WellFormed()
    ensures |c1.log.history[0].body| < 0x100_0000 && Next(c2, TakeMessage).delivered != [Serialized(c1.log.history[0], 0)]
  {
    var r := Receiver(false, None, 0, {}, 0, maxMessageLen, 0, seq(MAX_HANDSHAKE_FLIGHT, _ => None), false, false);
    c0, c1 := Connection(Log([], []), r, []), Connection(FarAhead(), r, []);
    FarAheadIsALog();
    OnlyRecordArrives(c1);
    hide FarAhead, FragmentBytes, CutHeader, CutBody, OpenHandshake, Authentic, Log.GrowsTo;
    input, open := ClearBytes(c1.log.sent[0]), Records.OpenWith(CLEAR);
    c2 := Next(c1, Arrival(input, open));
    var f := Frag(2, 0, 0, map[]);
    assert c2.receiver.Current() == Some(f);
    assert f.Raw()[0] == 2 && Serialized(c1.log.history[0], 0)[0] == 1;
    assert Next(c2, TakeMessage).delivered == [f.Raw()];
  }
}
