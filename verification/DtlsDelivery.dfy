// What reaches the receiver is put together: a message of which every byte has
// been accepted is complete, and a flight that was written whole holds every
// byte of its messages.
module DtlsDelivery {
  import opened Wire
  import opened Reassembly
  import opened DtlsSent
  import opened DtlsFlight
  import opened DtlsQueue
  import opened DtlsReceive
  import opened DtlsEndToEnd

  // ---- Bytes stay ----

  // The ring has a buffer for the message with number n.
  ghost predicate Holds(r: Receiver, n: nat) {
    && |r.slots| == MAX_HANDSHAKE_FLIGHT
    && r.slots[n % MAX_HANDSHAKE_FLIGHT].Some? && r.slots[n % MAX_HANDSHAKE_FLIGHT].value.num == n
  }

  ghost function Got(r: Receiver, n: nat): set<nat>
    requires Holds(r, n)
  {
    r.slots[n % MAX_HANDSHAKE_FLIGHT].value.got.Keys
  }

  // It is still there, with at least the same bytes.
  ghost predicate Keeps(r: Receiver, r': Receiver, n: nat)
    requires Holds(r, n)
  {
    Holds(r', n) && Got(r, n) <= Got(r', n)
  }

  lemma FragmentKeeps(r: Receiver, h: Header, body: seq<byte>, n: nat)
    requires r.Valid() && FitsHeader(h) && |body| == h.fragLen && Holds(r, n)
    ensures Keeps(r, ReceiveFragment(r, h, body).0, n)
  {
    FragmentEffect(r, h, body);
    hide ReceiveFragment, Receiver.Valid;
  }

  lemma {:induction false} FragmentsKeep(r: Receiver, plaintext: seq<byte>, n: nat)
    requires r.Valid() && Holds(r, n)
    ensures Keeps(r, ReceiveFragments(r, plaintext).0, n)
    decreases |plaintext|
  {
    var parsed := ParseFragment(plaintext);
    if plaintext != [] && parsed.Some? {
      var (h, body, rest) := parsed.value;
      FragmentKeeps(r, h, body, n);
      FragmentKeepsRing(r, h, body);
      hide ReceiveFragment, Receiver.Valid, ParseFragment;
      var (r', alert) := ReceiveFragment(r, h, body);
      if alert.None? { FragmentsKeep(r', rest, n); }
    }
  }

  lemma DispatchKeeps(r: Receiver, ty: byte, plaintext: seq<byte>, n: nat)
    requires r.Valid() && Holds(r, n)
    ensures Keeps(r, DispatchRecord(r, ty, plaintext).0, n)
  {
    FragmentsKeep(r, plaintext, n);
    hide ReceiveFragments, Receiver.Valid;
  }

  lemma ArrivalKeeps(c: Connection, input: seq<byte>, open: Aead, n: nat)
    requires Inv(c) && Holds(c.receiver, n)
    ensures |OpenHandshake(c.receiver, input, open).0.slots| == MAX_HANDSHAKE_FLIGHT
    ensures Keeps(c.receiver, OpenHandshake(c.receiver, input, open).0, n)
  {
    RecordingEffect(c.receiver, input, open);
    RecordingKeepsInv(c, input, open);
    var (r, result, _) := OpenRecord(c.receiver, input, open);
    hide OpenRecord, DispatchRecord;
    if result.Opened? {
      DispatchKeeps(r, result.ty, result.plaintext, n);
    }
  }

  // Message k is expected: of the window, within the 16-bit numbers, no longer
  // than the receiver takes, and the very next one where only that is let in.
  ghost predicate InWindow(c: Connection, k: nat) {
    && |c.delivered| <= k < |c.delivered| + MAX_HANDSHAKE_FLIGHT && k < |c.log.history|
    && MessageNumber(k) >= c.receiver.readSeq
    && |c.log.history[k].body| <= c.receiver.maxMessageLen
    && (c.receiver.epoch == 1 ==> k == |c.delivered|)
  }

  lemma WindowPosition(c: Connection, k: nat)
    requires Inv(c) && InWindow(c, k)
    ensures MessageNumber(k) == c.receiver.readSeq + (k - |c.delivered|)
  {
    hide Log.Valid, Receiver.Valid, DeliveredOk, SlotsOk;
    var n, d := |c.delivered|, k - |c.delivered|;
    assert k == n / SEQ_SPACE * SEQ_SPACE + (n % SEQ_SPACE + d);
    if n % SEQ_SPACE + d < SEQ_SPACE {
      assert k % SEQ_SPACE == n % SEQ_SPACE + d;
    }
  }

  lemma TakingKeeps(c: Connection, k: nat)
    requires Inv(c) && InWindow(c, k) && k != |c.delivered| && Holds(c.receiver, MessageNumber(k))
    ensures Keeps(c.receiver, NextMessage(c.receiver), MessageNumber(k))
  {
    WindowPosition(c, k);
    hide Inv, InWindow, MessageNumber;
  }

  lemma StepKeeps(c: Connection, step: Step, c': Connection, k: nat)
    requires Inv(c) && StepsTo(c, step, c') && InWindow(c, k) && InWindow(c', k) && Holds(c.receiver, MessageNumber(k))
    ensures Keeps(c.receiver, c'.receiver, MessageNumber(k))
  {
    hide MessageNumber, Inv, Holds, Got;
    match step
    case Arrival(input, open) => ArrivalKeeps(c, input, open, MessageNumber(k));
    case TakeMessage => TakingKeeps(c, k);
    case SenderStep(_) => SameSlotsKeep(c.receiver, c'.receiver, MessageNumber(k));
    case ConsumeChangeCipherSpec => SameSlotsKeep(c.receiver, c'.receiver, MessageNumber(k));
    case ChangeReadEpoch(_) => SameSlotsKeep(c.receiver, c'.receiver, MessageNumber(k));
  }

  lemma SameSlotsKeep(r: Receiver, r': Receiver, n: nat)
    requires Holds(r, n) && r'.slots == r.slots
    ensures Keeps(r, r', n)
  {
  }

  lemma KeepsTransitively(a: Receiver, b: Receiver, c: Receiver, n: nat)
    requires Holds(a, n) && Keeps(a, b, n) && Keeps(b, c, n)
    ensures Keeps(a, c, n)
  {
  }

  lemma {:induction false} RunKeeps(states: seq<Connection>, steps: seq<Step>, a: nat, b: nat, k: nat)
    requires IsRun(states, steps) && Initial(states[0]) && a <= b < |states| && Holds(states[a].receiver, MessageNumber(k))
    requires forall x | a <= x <= b :: InWindow(states[x], k)
    ensures Keeps(states[a].receiver, states[b].receiver, MessageNumber(k))
    decreases b
  {
    hide InWindow, Holds, Got, StepsTo, Initial;
    if a == b {
      SameSlotsKeep(states[a].receiver, states[b].receiver, MessageNumber(k));
    } else {
      RunKeeps(states, steps, a, b - 1, k);
      RunKeepsInv(states, steps, b - 1);
      assert StepsTo(states[b - 1], steps[b - 1], states[b]);
      StepKeeps(states[b - 1], steps[b - 1], states[b], k);
      KeepsTransitively(states[a].receiver, states[b - 1].receiver, states[b].receiver, MessageNumber(k));
    }
  }

  // ---- Bytes arrive ----

  // The step is the arrival of a record that is accepted as record i of the
  // log, a fragment of message k.
  ghost predicate Accepts(c: Connection, step: Step, i: nat, k: nat) {
    && step.Arrival? && i < |c.log.sent| && c.log.sent[i].k == Some(k)
    && c.log.sent[i].epoch == c.receiver.epoch && !Replayed(c.receiver, RecordNumber(c.log.sent[i]))
    && OpenRecord(c.receiver, step.input, step.open).1 == Opened(RT_HANDSHAKE, c.log.sent[i].plaintext)
  }

  lemma AcceptedIsHeld(c: Connection, step: Step, c': Connection, i: nat, k: nat)
    requires Inv(c) && StepsTo(c, step, c') && Accepts(c, step, i, k) && InWindow(c, k)
    ensures Holds(c'.receiver, MessageNumber(k))
    ensures forall j | c.log.sent[i].off <= j < c.log.sent[i].off + c.log.sent[i].len :: j in Got(c'.receiver, MessageNumber(k))
  {
    WindowPosition(c, k);
    AfterRecording(c, step.input, step.open);
    var s := c.log.sent[i];
    var r := OpenRecord(c.receiver, step.input, step.open).0;
    assert c.log.FragmentOf(s);
    FragmentsArrive(c.receiver, step.input, step.open, s.plaintext);
    OneFragment(c.log, r, s);
    ExpectedIsStored(c.(receiver := r), i, k);
    hide *;
    assert c'.receiver == OpenHandshake(c.receiver, step.input, step.open).0 by { ArrivalMeans(c, step, c'); }
  }

  lemma ArrivalMeans(c: Connection, step: Step, c': Connection)
    requires StepsTo(c, step, c') && step.Arrival?
    ensures c'.receiver == OpenHandshake(c.receiver, step.input, step.open).0
  {
    hide OpenHandshake;
  }

  lemma AfterRecording(c: Connection, input: seq<byte>, open: Aead)
    requires Inv(c)
    ensures var r := OpenRecord(c.receiver, input, open).0;
      && Inv(c.(receiver := r)) && r.slots == c.receiver.slots && r.readSeq == c.receiver.readSeq && r.epoch == c.receiver.epoch
      && r.maxMessageLen == c.receiver.maxMessageLen
  {
    RecordingEffect(c.receiver, input, open);
    RecordingKeepsInv(c, input, open);
    hide Inv, ParseRecord;
  }

  // The fragment of a message that is expected goes into its buffer.
  lemma ExpectedIsStored(c: Connection, i: nat, k: nat)
    requires Inv(c) && i < |c.log.sent| && c.log.sent[i].k == Some(k) && c.log.FragmentOf(c.log.sent[i]) && InWindow(c, k)
    requires MessageNumber(k) == c.receiver.readSeq + (k - |c.delivered|)
    ensures var s, n := c.log.sent[i], MessageNumber(k);
      var r' := ReceiveFragment(c.receiver, CutHeader(c.log, s), CutBody(c.log, s)).0;
      Holds(r', n) && forall j | s.off <= j < s.off + s.len :: j in Got(r', n)
  {
    var s, r, n := c.log.sent[i], c.receiver, MessageNumber(k);
    var h, body := CutHeader(c.log, s), CutBody(c.log, s);
    assert h.ty == c.log.history[k].ty && h.msgLen == |c.log.history[k].body| && h.fragOff == s.off && h.fragLen == s.len && h.num == n;
    if r.slots[n % MAX_HANDSHAKE_FLIGHT].Some? {
      SlotHoldsTheMessage(r, n);
      assert SlotMatches(c, r.slots[n % MAX_HANDSHAKE_FLIGHT].value);
    }
    assert Existing(r, h).ty == h.ty && Existing(r, h).msgLen == h.msgLen && Existing(r, h).num == n;
    hide ReceiveFragment, Serialized, FragmentBytes, CutHeader, CutBody, MessageNumber, Log.Valid;
    MatchingFragmentIsStored(r, h, body);
    FragmentEffect(r, h, body);
  }

  // ---- All of a message ----

  // Between two points of the run a record with byte j of message k is accepted.
  ghost predicate ByteAccepted(states: seq<Connection>, steps: seq<Step>, a: nat, b: nat, k: nat, j: nat)
    requires |states| == |steps| + 1 && b < |states|
  {
    exists x: nat, i: nat :: a <= x < b && Accepts(states[x], steps[x], i, k)
      && states[x].log.sent[i].off <= j < states[x].log.sent[i].off + states[x].log.sent[i].len
  }

  ghost predicate SomeAccepted(states: seq<Connection>, steps: seq<Step>, a: nat, b: nat, k: nat)
    requires |states| == |steps| + 1 && b < |states|
  {
    exists x: nat, i: nat :: a <= x < b && Accepts(states[x], steps[x], i, k)
  }

  lemma ByteIsHeld(states: seq<Connection>, steps: seq<Step>, a: nat, b: nat, k: nat, x: nat, i: nat)
    requires IsRun(states, steps) && Initial(states[0]) && a <= x < b < |states| && Accepts(states[x], steps[x], i, k)
    requires forall y | a <= y <= b :: InWindow(states[y], k)
    ensures Holds(states[b].receiver, MessageNumber(k))
    ensures var s := states[x].log.sent[i]; forall j | s.off <= j < s.off + s.len :: j in Got(states[b].receiver, MessageNumber(k))
  {
    RunKeepsInv(states, steps, x);
    assert StepsTo(states[x], steps[x], states[x + 1]);
    AcceptedIsHeld(states[x], steps[x], states[x + 1], i, k);
    RunKeeps(states, steps, x + 1, b, k);
    hide Accepts, InWindow, Holds, Got, StepsTo, Initial, MessageNumber, IsRun;
  }

  // Once every byte of an expected message has been accepted, in whatever
  // order, pieces and company, and however often, the message is complete and
  // is what the sender said.
  lemma AcceptedIsComplete(states: seq<Connection>, steps: seq<Step>, a: nat, b: nat, k: nat)
    requires IsRun(states, steps) && Initial(states[0]) && a <= b < |states|
    requires InWindow(states[b], k) && forall x | a <= x <= b :: InWindow(states[x], k)
    requires SomeAccepted(states, steps, a, b, k)
    requires forall j: nat | j < |states[b].log.history[k].body| :: ByteAccepted(states, steps, a, b, k, j)
    ensures var r := states[b].receiver;
      && Holds(r, MessageNumber(k)) && |states[b].log.history[k].body| < 0x100_0000
      && var f := r.slots[MessageNumber(k) % MAX_HANDSHAKE_FLIGHT].value;
      && f.WellFormed() && f.Complete() && f.Raw() == Serialized(states[b].log.history[k], k)
  {
    hide Holds, Got, StepsTo, Initial, MessageNumber, OpenRecord, Replayed, RecordNumber;
    var c := states[b];
    assert k < |c.log.history|;
    hide InWindow;
    var x: nat, i: nat :| a <= x < b && Accepts(states[x], steps[x], i, k);
    ByteIsHeld(states, steps, a, b, k, x, i);
    forall j: nat | j < |c.log.history[k].body|
      ensures j in Got(c.receiver, MessageNumber(k))
    {
      assert ByteAccepted(states, steps, a, b, k, j);
      var y: nat, m: nat :| a <= y < b && Accepts(states[y], steps[y], m, k)
        && states[y].log.sent[m].off <= j < states[y].log.sent[m].off + states[y].log.sent[m].len;
      ByteIsHeld(states, steps, a, b, k, y, m);
    }
    RunKeepsInv(states, steps, b);
    AllHeldIsComplete(c, k);
  }

  lemma AllHeldIsComplete(c: Connection, k: nat)
    requires Inv(c) && InWindow(c, k) && Holds(c.receiver, MessageNumber(k))
    requires forall j: nat | j < |c.log.history[k].body| :: j in Got(c.receiver, MessageNumber(k))
    ensures |c.log.history[k].body| < 0x100_0000
    ensures var f := c.receiver.slots[MessageNumber(k) % MAX_HANDSHAKE_FLIGHT].value;
      f.WellFormed() && f.Complete() && f.Raw() == Serialized(c.log.history[k], k)
  {
    WindowPosition(c, k);
    var n, m := MessageNumber(k), c.log.history[k];
    SlotHoldsTheMessage(c.receiver, n);
    var f := c.receiver.slots[n % MAX_HANDSHAKE_FLIGHT].value;
    assert SlotMatches(c, f);
    assert PartOf(c.log, f, k);
    hide MessageNumber, Inv, InWindow, SlotMatches, Arrived;
    forall j: nat | j < f.msgLen
      ensures j in f.got && f.got[j] == m.body[j]
    {
      assert j in Got(c.receiver, n);
    }
    assert m.body == seq(f.msgLen, j requires 0 <= j < f.msgLen => f.got[j]);
  }

  // ---- A flight that was written whole ----

  // Every byte of a message of the flight is in one of the records that carry
  // it, and so is the message itself if it is empty.
  lemma {:induction false} FlightHasAll(flight: seq<OutgoingMessage>, start: nat, c: Cursor, records: seq<Sent>, d: Cursor, i: nat, j: nat)
    returns (x: nat)
    requires Carries(flight, start, c, records, d) && CursorValid(flight, c)
    requires c.written <= i < d.written && i < |flight| && !flight[i].isCcs
    requires j < |flight[i].Body()| || flight[i].Body() == []
    requires i == c.written && flight[i].Body() != [] ==> c.offset <= j
    ensures x < |records| && records[x].k == Some(Number(flight, start, i))
    ensures flight[i].Body() != [] ==> records[x].off <= j < records[x].off + records[x].len
    decreases |records|
  {
    CarriesMovesOn(flight, start, c, records, d);
    var r := records[0];
    var c' := After(flight, start, c, r);
    if c.written == i && (flight[i].Body() == [] || j < r.off + r.len) {
      x := 0;
    } else {
      CarriesOne(flight, start, c, r);
      CarriesMovesOn(flight, start, c, [r], c');
      hide Number;
      x := FlightHasAll(flight, start, c', records[1..], d, i, j);
      x := x + 1;
    }
  }

  // So when each record of a flight that was written whole is accepted while
  // message i of the flight is expected, that message is complete at the end.
  lemma WholeFlightIsDelivered(states: seq<Connection>, steps: seq<Step>, a: nat, b: nat, flight: seq<OutgoingMessage>, start: nat,
                               records: seq<Sent>, i: nat)
    requires IsRun(states, steps) && Initial(states[0]) && a <= b < |states|
    requires Carries(flight, start, Cursor(0, 0), records, Cursor(|flight|, 0)) && i < |flight| && !flight[i].isCcs
    requires var k := Number(flight, start, i);
      && InWindow(states[b], k) && (forall x | a <= x <= b :: InWindow(states[x], k))
      && flight[i].Body() == states[b].log.history[k].body
      && forall y | 0 <= y < |records| && records[y].k == Some(k) :: RecordAccepted(states, steps, a, b, records[y], k)
    ensures var k, r := Number(flight, start, i), states[b].receiver;
      && Holds(r, MessageNumber(k)) && |states[b].log.history[k].body| < 0x100_0000
      && var f := r.slots[MessageNumber(k) % MAX_HANDSHAKE_FLIGHT].value;
      && f.WellFormed() && f.Complete() && f.Raw() == Serialized(states[b].log.history[k], k)
  {
    var k := Number(flight, start, i);
    hide Accepts, InWindow, Holds, IsRun, Initial, Carries, Number, MessageNumber;
    var body := flight[i].Body();
    var y := FlightHasAll(flight, start, Cursor(0, 0), records, Cursor(|flight|, 0), i, 0);
    assert RecordAccepted(states, steps, a, b, records[y], k);
    forall j: nat | j < |body|
      ensures ByteAccepted(states, steps, a, b, k, j)
    {
      var z := FlightHasAll(flight, start, Cursor(0, 0), records, Cursor(|flight|, 0), i, j);
      assert RecordAccepted(states, steps, a, b, records[z], k);
    }
    AcceptedIsComplete(states, steps, a, b, k);
  }

  ghost predicate RecordAccepted(states: seq<Connection>, steps: seq<Step>, a: nat, b: nat, s: Sent, k: nat)
    requires |states| == |steps| + 1 && b < |states|
  {
    exists x: nat, i: nat :: a <= x < b && Accepts(states[x], steps[x], i, k) && states[x].log.sent[i] == s
  }
}
