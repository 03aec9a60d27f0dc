// The replay window over whole runs of a receiver (section 4.1.2.6 of
// RFC 6347): what is accepted, and what becomes of the window.
module DtlsReplay {
  import opened Wire
  import opened Reassembly
  import opened DtlsReceive

  datatype Step = Arrives(input: seq<byte>, open: Aead) | Takes | ConsumesCcs | ChangesEpoch(version: nat)

  // The receiver, and the epoch and number of each record it has accepted
  datatype History = History(r: Receiver, accepted: seq<(nat, nat)>)

  predicate Accepts(r: Receiver, input: seq<byte>, open: Aead) {
    var result := OpenRecord(r, input, open).1;
    result.Opened? || result.AlertRecord?
  }

  function Accepted(r: Receiver, input: seq<byte>, open: Aead): (nat, nat)
    requires Accepts(r, input, open)
  {
    var rec := ParseRecord(input).value;
    (rec.epoch, rec.SeqNum())
  }

  ghost predicate Enabled(h: History, step: Step)
    requires |h.r.slots| == MAX_HANDSHAKE_FLIGHT
  {
    match step
    case Arrives(_, _) => true
    case Takes => h.r.CurrentComplete()
    case ConsumesCcs => h.r.hasCcs
    // The 16-bit epoch does not wrap around.
    case ChangesEpoch(_) => !HasUnprocessedData(h.r) && h.r.epoch + 1 < 0x1_0000
  }

  ghost function Next(h: History, step: Step): History
    requires |h.r.slots| == MAX_HANDSHAKE_FLIGHT
  {
    match step
    case Arrives(input, open) =>
      History(OpenHandshake(h.r, input, open).0,
              h.accepted + if Accepts(h.r, input, open) then [Accepted(h.r, input, open)] else [])
    case Takes => h.(r := NextMessage(h.r))
    case ConsumesCcs => h.(r := h.r.(hasCcs := false))
    case ChangesEpoch(version) => h.(r := SetReadState(h.r, version))
  }

  // The window holds exactly the numbers accepted in this epoch, and no
  // record was accepted twice.
  ghost predicate Inv(h: History) {
    && h.r.Valid()
    && (forall i | 0 <= i < |h.accepted| :: h.accepted[i].0 <= h.r.epoch)
    && (forall s: nat :: s in h.r.recorded <==> (h.r.epoch, s) in h.accepted)
    && (forall i, j | 0 <= i < j < |h.accepted| :: h.accepted[i] != h.accepted[j])
  }

  // A record is accepted exactly when it opens, is no replay, and is of the
  // right version, epoch and size; only then does the window move.
  lemma WindowMovesOnAccept(r: Receiver, input: seq<byte>, open: Aead)
    ensures Accepts(r, input, open) <==>
      && !r.readShutdown && input != []
      && ParseRecord(input).Some? && VersionOk(r, ParseRecord(input).value.version) && ParseRecord(input).value.epoch == r.epoch
      && !Replayed(r, ParseRecord(input).value.SeqNum())
      && open(ParseRecord(input).value).Some? && |open(ParseRecord(input).value).value| <= MAX_PLAIN_LENGTH
    ensures var r' := OpenRecord(r, input, open).0;
      if !Accepts(r, input, open) then r' == r
      else
        && Accepted(r, input, open).0 == r.epoch
        && Accepted(r, input, open).1 !in r.recorded
        && r'.epoch == r.epoch && r'.recorded == r.recorded + {Accepted(r, input, open).1}
  {
    hide ParseRecord;
  }

  // Handshake processing leaves the window alone.
  lemma DispatchKeepsWindow(r: Receiver, ty: byte, plaintext: seq<byte>)
    requires r.Valid()
    ensures var r' := DispatchRecord(r, ty, plaintext).0; r'.epoch == r.epoch && r'.recorded == r.recorded
  {
    hide ReceiveFragments;
    assert |r.slots| == MAX_HANDSHAKE_FLIGHT;
    FragmentsKeepRing(r, plaintext);
  }

  lemma ArrivalKeepsInv(h: History, input: seq<byte>, open: Aead)
    requires Inv(h)
    ensures Inv(Next(h, Arrives(input, open)))
  {
    var h' := Next(h, Arrives(input, open));
    var (r', result, _) := OpenRecord(h.r, input, open);
    OpenKeepsRing(h.r, input, open);
    WindowMovesOnAccept(h.r, input, open);
    if result.Opened? {
      RecordKeepsValid(h.r, input, open);
      DispatchKeepsWindow(r', result.ty, result.plaintext);
    }
    hide OpenRecord, DispatchRecord, Receiver.Valid, Accepted;
    assert h'.r.epoch == h.r.epoch && h'.r.recorded == r'.recorded;
    if Accepts(h.r, input, open) {
      var a := Accepted(h.r, input, open);
      assert a !in h.accepted;
    }
  }

  lemma RecordKeepsValid(r: Receiver, input: seq<byte>, open: Aead)
    requires r.Valid()
    ensures OpenRecord(r, input, open).0.Valid()
  {
    hide ParseRecord, VersionOk;
    var r' := OpenRecord(r, input, open).0;
    assert forall i | 0 <= i < |r'.slots| && r'.slots[i].Some? :: r.SlotValid(i, r.slots[i].value) && r'.SlotValid(i, r'.slots[i].value);
  }

  lemma EpochKeepsInv(h: History, version: nat)
    requires Inv(h) && Enabled(h, ChangesEpoch(version))
    ensures Inv(Next(h, ChangesEpoch(version)))
  {
    var h' := Next(h, ChangesEpoch(version));
    assert h'.r.epoch == h.r.epoch + 1;
    assert forall i | 0 <= i < |h'.r.slots| && h'.r.slots[i].Some? :: h.r.SlotValid(i, h.r.slots[i].value) && h'.r.SlotValid(i, h'.r.slots[i].value);
    assert forall s: nat :: (h'.r.epoch, s) !in h.accepted;
  }

  lemma StepKeepsInv(h: History, step: Step)
    requires Inv(h) && Enabled(h, step)
    ensures Inv(Next(h, step))
  {
    match step
    case Arrives(input, open) =>
      ArrivalKeepsInv(h, input, open);
    case Takes =>
      NextMessageKeepsRing(h.r);
    case ConsumesCcs =>
      var r' := h.r.(hasCcs := false);
      assert forall i | 0 <= i < |r'.slots| && r'.slots[i].Some? :: h.r.SlotValid(i, h.r.slots[i].value) && r'.SlotValid(i, r'.slots[i].value);
    case ChangesEpoch(version) =>
      EpochKeepsInv(h, version);
  }

  ghost predicate IsRun(states: seq<History>, steps: seq<Step>) {
    && |states| == |steps| + 1
    && forall i | 0 <= i < |steps| :: |states[i].r.slots| == MAX_HANDSHAKE_FLIGHT && Enabled(states[i], steps[i])
                                   && states[i + 1] == Next(states[i], steps[i])
  }

  ghost predicate Initial(h: History) {
    h.r.Valid() && h.r.recorded == {} && h.accepted == []
  }

  lemma {:induction false} RunKeepsInv(states: seq<History>, steps: seq<Step>, i: nat)
    requires IsRun(states, steps) && Initial(states[0]) && i < |states|
    ensures Inv(states[i])
    decreases i
  {
    if i > 0 {
      RunKeepsInv(states, steps, i - 1);
      StepKeepsInv(states[i - 1], steps[i - 1]);
    }
  }

  // In every run no record is accepted twice; and one whose number has not
  // been accepted in this epoch is refused as a replay only when it lies 64 or
  // more behind the largest one.
  lemma NeverAcceptedTwice(states: seq<History>, steps: seq<Step>, i: nat)
    requires IsRun(states, steps) && Initial(states[0]) && i < |states|
    ensures var h := states[i];
      && (forall j, k | 0 <= j < k < |h.accepted| :: h.accepted[j] != h.accepted[k])
      && (forall s: nat | (h.r.epoch, s) in h.accepted :: s <= h.r.maxSeqNum)
      && forall s: nat :: Replayed(h.r, s) <==> (h.r.epoch, s) in h.accepted || s + 64 <= h.r.maxSeqNum
  {
    RunKeepsInv(states, steps, i);
  }
}
