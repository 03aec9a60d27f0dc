// The sending half of DTLS1_STATE, updated in place: add_outgoing,
// dtls_seal_record, seal_next_message, seal_next_packet, send_flight,
// retransmission and the write half of an epoch change.
module DtlsSenderState {
  import opened Wire
  import opened Reassembly
  import opened DtlsCipher
  import opened DtlsSent
  import opened DtlsFlight
  import opened DtlsQueue

  const MIN_MTU := 256 - 28
  const DEFAULT_MTU := 1500 - 28
  const RT_CHANGE_CIPHER_SPEC: byte := 20
  const RT_HANDSHAKE: byte := 22

  // A datagram transport that answers each write with the next of results.
  class Bio {
    const results: seq<int>
    var next: nat
    var packets: seq<seq<Sent>>  // the packets it has taken

    constructor (results: seq<int>)
      ensures this.results == results && next == 0 && packets == []
    {
      this.results, next, packets := results, 0, [];
    }

    // What the k-th call is answered
    function Answer(k: nat): int {
      if k < |results| then results[k] else -1
    }

    method Write(packet: seq<Sent>) returns (ret: int)
      modifies this
      ensures next == old(next) + 1 && ret == Answer(old(next))
      ensures packets == if ret > 0 then old(packets) + [packet] else old(packets)
    {
      ret := Answer(next);
      next := next + 1;
      if ret > 0 {
        packets := packets + [packet];
      }
    }

    method Flush() returns (ret: int)
      modifies this
      ensures next == old(next) + 1 && ret == Answer(old(next))
      ensures packets == old(packets)
    {
      ret := Answer(next);
      next := next + 1;
    }
  }

  datatype SealResult = SealError | SealNoProgress | SealPartial | SealSuccess

  datatype PacketResult = PacketSealed | MtuTooSmall | PacketError

  datatype FlightResult = FlightSent | ProtocolIsShutdown | SealFailed(reason: PacketResult) | WriteFailed(ret: int) | FlushFailed

  ghost function PacketSize(packet: seq<Sent>): nat {
    if packet == [] then 0 else PacketSize(packet[..|packet| - 1]) + packet[|packet| - 1].size
  }

  class Dtls1State {
    // The flight, the cursor into it, the counters and the transcript.
    var state: Sender
    var aead: WriteAead
    var lastAead: WriteAead
    var writeShutdown: bool
    var mtu: nat
    ghost var wrapped: bool  // a record number has wrapped around

    // Only claimed until a record number is reported to have wrapped around.
    ghost predicate Valid()
      reads this
    {
      !wrapped && state.Valid() && CiphersMatch(state.ciphers, state.epoch, aead, lastAead)
    }

    // aead_write_ctx and last_aead_write_ctx are the ciphers of the last two epochs.
    static ghost predicate CiphersMatch(ciphers: seq<WriteAead>, epoch: nat, aead: WriteAead, lastAead: WriteAead) {
      && |ciphers| == epoch + 1 && (forall e | 0 <= e < |ciphers| :: ciphers[e].Valid())
      && aead == ciphers[epoch]
      && (epoch >= 1 ==> lastAead == ciphers[epoch - 1])
    }

    constructor (aead: WriteAead, mtu: nat)
      requires aead.Valid()
      ensures Valid() && state.log == Log([], []) && !state.complete && state.flight == [] && state.ciphers == [aead]
    {
      hide Sender.Valid, Log.Valid, Transcript;
      var s := Sender(Log([], []), [], 0, false, Cursor(0, 0), 0, 0, 0, 0, [], [aead]);
      NewIsValid(s);
      state := s;
      this.aead, lastAead, writeShutdown, this.mtu, wrapped := aead, aead, false, mtu, false;
    }

    // dtls1_init_message and dtls1_finish_message: the length fields are left
    // for the end, and the total length is copied from the fragment length.
    method SerializeMessage(ty: byte, body: seq<byte>) returns (data: Option<seq<byte>>)
      requires state.num < 0x1_0000
      ensures data.None? <==> |body| >= 0x100_0000
      ensures data.Some? ==> data.value == HeaderBytes(Header(ty, |body|, state.num, 0, |body|)) + body
    {
      if |body| >= 0x100_0000 {
        return None;
      }
      var out := [ty] + U24(0) + U16(state.num) + U24(0) + U24(|body|) + body;
      return Some(out[..1] + out[HM_HEADER_LENGTH - 3..HM_HEADER_LENGTH] + out[4..]);
    }

    // add_outgoing, for a handshake message
    method AddMessage(ty: byte, body: seq<byte>) returns (ok: bool)
      requires Valid()
      modifies this`state
      ensures Valid() && old(state).log.GrowsTo(state.log)
      ensures var s := OpenFlight(old(state));
        if |body| >= 0x100_0000 then !ok && state == old(state)
        else if |s.flight| >= FLIGHT then !ok && state == s
        else ok && state == Queue(s, Message(ty, body, state.epoch))
    {
      ValidFacts(state);
      var data := SerializeMessage(ty, body);
      if data.None? {
        return false;
      }
      OpenFlightKeepsValid(state);
      state := OpenFlight(state);
      if |state.flight| >= FLIGHT {
        return false;
      }
      var m := Message(ty, body, state.epoch);
      QueueKeepsValid(state, m);
      assert data.value == Serialized(m, |state.log.history|);
      state := state.(
        log := state.log.(history := state.log.history + [m]),
        flight := state.flight + [OutgoingMessage(false, data.value, state.epoch)],
        num := (state.num + 1) % 0x1_0000,
        transcript := state.transcript + data.value);
      return true;
    }

    // add_outgoing, for a ChangeCipherSpec
    method AddChangeCipherSpec() returns (ok: bool)
      requires Valid()
      modifies this`state
      ensures Valid()
      ensures var s := OpenFlight(old(state));
        if |s.flight| >= FLIGHT then !ok && state == s else ok && state == QueueCcs(s)
    {
      OpenFlightKeepsValid(state);
      state := OpenFlight(state);
      if |state.flight| >= FLIGHT {
        return false;
      }
      QueueCcsKeepsValid(state);
      state := state.(flight := state.flight + [OutgoingMessage(true, [], state.epoch)]);
      return true;
    }

    // dtls1_set_write_state.  Where the 16-bit epoch wraps around, nothing is
    // claimed any more.
    method SetWriteState(next: WriteAead)
      requires Valid() && next.Valid()
      modifies this`state, this`aead, this`lastAead, this`wrapped
      ensures lastAead == old(aead) && aead == next
      ensures wrapped <==> old(state).epoch == 0xffff
      ensures if wrapped then state == NextEpoch(old(state), next).(epoch := 0) else Valid() && state == NextEpoch(old(state), next)
    {
      hide Sender.Valid, WriteAead.Valid, CiphersMatch;
      ValidFacts(state);
      if state.epoch == 0xffff {
        wrapped := true;
      } else {
        NextEpochKeepsValid(state, next);
        CiphersMatchNext(state.ciphers, state.epoch, aead, lastAead, next);
      }
      state := state.(epoch := (state.epoch + 1) % 0x1_0000, last := state.next, next := 0, ciphers := state.ciphers + [next]);
      lastAead, aead := aead, next;
    }

    // The cipher of the current epoch, or of the one before (get_write_aead)
    function CipherFor(usePrevious: bool): WriteAead
      reads this`aead, this`lastAead
    {
      if usePrevious then lastAead else aead
    }

    function Overhead(usePrevious: bool): nat
      reads this`aead, this`lastAead
    {
      CipherFor(usePrevious).MaxOverhead()
    }

    function PrefixLen(usePrevious: bool): nat
      reads this`aead, this`lastAead
    {
      CipherFor(usePrevious).PrefixLen()
    }

    // dtls_seal_record: seals the plaintext under the next number of its epoch.
    // On failure the number may have been used up; if it was the last one, the
    // counter has wrapped around.
    method SealRecord(ty: byte, plaintext: seq<byte>, usePrevious: bool, maxOut: nat, k: Option<nat>, off: nat, len: nat)
      returns (ok: bool, r: Sent)
      requires !wrapped && CiphersMatch(state.ciphers, state.epoch, aead, lastAead)
      requires usePrevious ==> state.epoch >= 1
      modifies this`state, this`wrapped
      ensures r == Sent(if usePrevious then old(state).epoch - 1 else old(state).epoch,
                        if usePrevious then old(state).last else old(state).next, ty, plaintext,
                        CipherFor(usePrevious).RecordSize(|plaintext|), k, off, len)
      ensures state.ciphers == old(state).ciphers && state.epoch == old(state).epoch
      ensures r.num < LAST_RECORD_NUMBER ==> Numbered(old(state), r) && RecordOk(r, state.ciphers)
      ensures state.cursor == old(state).cursor && state.flight == old(state).flight
      ensures wrapped ==> !ok && r.num >= LAST_RECORD_NUMBER
      ensures !wrapped ==> state == old(state) || (r.num < LAST_RECORD_NUMBER && state == Seal(old(state), r))
      ensures old(state).log.sent <= state.log.sent
      ensures ok ==> !wrapped && state == Seal(old(state), r) && r.num < LAST_RECORD_NUMBER && r.size <= maxOut
      ensures !ok ==> wrapped || maxOut < |plaintext| + Overhead(usePrevious) || |plaintext| + Overhead(usePrevious) >= 0x1_0000
    {
      var cipher := CipherFor(usePrevious);
      cipher.SizeIsBounded(|plaintext|);
      hide WriteAead.Valid;
      var size := cipher.RecordSize(|plaintext|);
      r := Sent(if usePrevious then state.epoch - 1 else state.epoch, if usePrevious then state.last else state.next,
                ty, plaintext, size, k, off, len);
      if maxOut < RT_HEADER_LENGTH || size > maxOut {
        return false, r;
      }
      // ssl_record_sequence_update
      if r.num >= LAST_RECORD_NUMBER {
        wrapped := true;
        state := state.(log := state.log.(sent := state.log.sent + [r]),
                        next := if usePrevious then state.next else 0, last := if usePrevious then 0 else state.last);
        return false, r;
      }
      state := state.(log := state.log.(sent := state.log.sent + [r]),
                      next := if usePrevious then state.next else state.next + 1,
                      last := if usePrevious then state.last + 1 else state.last);
      return size - RT_HEADER_LENGTH < 0x1_0000, r;
    }

    // The current message is of an older epoch than the last, or is given so
    // much room that a record could outgrow its length field.
    ghost predicate Unsealable(maxOut: nat)
      reads this
    {
      && state.cursor.written < |state.flight|
      && (maxOut >= 0x1_0000 || state.flight[state.cursor.written].epoch !in {state.epoch, state.epoch - 1})
    }

    // The epoch of the current message is the current one, or the one before.
    ghost predicate EpochChosen(usePrevious: bool)
      requires state.cursor.written < |state.flight|
      reads this
    {
      var epoch := state.flight[state.cursor.written].epoch;
      if usePrevious then state.epoch >= 1 && epoch == state.epoch - 1 else epoch == state.epoch
    }

    // r was the next piece of the flight, and the offset has moved past it; the
    // step to the next message is left to the caller.
    static ghost predicate SealedNext(was: Sender, r: Sent, whole: bool, now: Sender) {
      && IsNext(was.flight, was.start, was.cursor, r)
      && now.cursor.written == was.cursor.written
      && now == Seal(was, r).(cursor := now.cursor)
      && After(was.flight, was.start, was.cursor, r)
         == Cursor(if whole then now.cursor.written + 1 else now.cursor.written, now.cursor.offset)
    }

    // r, a piece of the current message, leaves no room for one more byte.
    static ghost predicate Fills(s: Sender, r: Sent, room: nat) {
      r.epoch < |s.ciphers| && |r.plaintext| + s.ciphers[r.epoch].MaxOverhead() == room
    }

    // There is not even room for one byte of the current message.
    static ghost predicate NoRoom(s: Sender, room: nat) {
      && s.cursor.written < |s.flight|
      && var m := s.flight[s.cursor.written];
      && m.epoch < |s.ciphers| && room < LeastSize(m.isCcs, s.ciphers[m.epoch])
    }

    // A record that carries one byte of a message takes at most this much.
    static ghost function LeastSize(isCcs: bool, cipher: WriteAead): nat {
      (if isCcs then 0 else HM_HEADER_LENGTH) + 1 + cipher.MaxOverhead()
    }

    // The packet holds as much of the flight as it can: all the rest of it, or
    // its last fragment takes all the room, or the next would not fit.
    static ghost predicate Filled(s: Sender, packet: seq<Sent>, maxOut: nat) {
      && packet != [] && PacketSize(packet) <= maxOut
      && (|| s.cursor.written >= |s.flight|
          || NoRoom(s, maxOut - PacketSize(packet))
          || LastFills(s.ciphers, packet, maxOut))
    }

    // No packet is too large, and none could have held the first byte of the next.
    static ghost predicate Packed(ciphers: seq<WriteAead>, packets: seq<seq<Sent>>, mtu: nat) {
      && (forall i | 0 <= i < |packets| :: packets[i] != [] && PacketSize(packets[i]) <= mtu)
      && forall i | 0 <= i < |packets| - 1 :: Tight(ciphers, packets[i], packets[i + 1], mtu)
    }

    static ghost predicate Tight(ciphers: seq<WriteAead>, a: seq<Sent>, b: seq<Sent>, mtu: nat) {
      || LastFills(ciphers, a, mtu)
      || (&& b != [] && b[0].epoch < |ciphers|
          && mtu - PacketSize(a) < LeastSize(b[0].ty == RT_CHANGE_CIPHER_SPEC, ciphers[b[0].epoch]))
    }

    static ghost predicate LastFilled(s: Sender, packets: seq<seq<Sent>>, mtu: nat) {
      packets == [] || Filled(s, packets[|packets| - 1], mtu)
    }

    static ghost predicate LastFills(ciphers: seq<WriteAead>, packet: seq<Sent>, maxOut: nat) {
      && packet != [] && PacketSize(packet[..|packet| - 1]) <= maxOut
      && var r := packet[|packet| - 1];
      && r.epoch < |ciphers|
      && PacketSize(packet[..|packet| - 1]) + |r.plaintext| + ciphers[r.epoch].MaxOverhead() == maxOut
    }

    // seal_next_message: as much of the current message as fits.
    method SealNextMessage(maxOut: nat) returns (result: SealResult, r: Sent)
      requires Valid() && state.cursor.written < |state.flight|
      modifies this`state, this`wrapped
      ensures !wrapped ==> Valid() && old(state).log.GrowsTo(state.log)
      ensures old(state).log.sent <= state.log.sent
      ensures result.SealError? ==> wrapped || Unsealable(maxOut)
      ensures result.SealNoProgress? ==> !wrapped && state == old(state) && NoRoom(state, maxOut)
      ensures result.SealPartial? || result.SealSuccess? ==>
                !wrapped && r.size <= maxOut && SealedNext(old(state), r, result.SealSuccess?, state)
      ensures result.SealPartial? ==> Fills(old(state), r, maxOut)
    {
      ValidFacts(state);
      var msg := state.flight[state.cursor.written];
      var usePrevious := false;
      if state.epoch >= 1 && msg.epoch == state.epoch - 1 {
        usePrevious := true;
      } else if msg.epoch != state.epoch {
        return SealError, Sent(0, 0, 0, [], 0, None, 0, 0);
      }
      if msg.isCcs {
        result, r := SealCcs(usePrevious, maxOut);
      } else {
        result, r := SealNextFragment(usePrevious, maxOut);
      }
    }

    method SealCcs(usePrevious: bool, maxOut: nat) returns (result: SealResult, r: Sent)
      requires Valid() && state.cursor.written < |state.flight|
      requires state.flight[state.cursor.written].isCcs && EpochChosen(usePrevious)
      modifies this`state, this`wrapped
      ensures !wrapped ==> Valid() && old(state).log.GrowsTo(state.log)
      ensures old(state).log.sent <= state.log.sent
      ensures result.SealError? ==> wrapped || Unsealable(maxOut)
      ensures result.SealNoProgress? ==> !wrapped && state == old(state) && NoRoom(state, maxOut)
      ensures !result.SealPartial?
      ensures result.SealSuccess? ==> !wrapped && r.size <= maxOut && SealedNext(old(state), r, true, state)
    {
      ValidFacts(state);
      if maxOut < 1 + Overhead(usePrevious) {
        return SealNoProgress, Sent(0, 0, 0, [], 0, None, 0, 0);
      }
      assert state.cursor.offset == 0;
      hide CiphersMatch, RecordOk, WriteAead.RecordSize, WriteAead.MaxOverhead, WriteAead.PrefixLen;
      var ok: bool;
      ok, r := SealRecord(RT_CHANGE_CIPHER_SPEC, [1], usePrevious, maxOut, None, 0, 0);
      if !wrapped && r.num < LAST_RECORD_NUMBER {
        SealKeepsValid(old(state), r);
      }
      return if ok then SealSuccess else SealError, r;
    }

    // frag is the next todo bytes of the current message, with their header;
    // whole is whether they are the rest of it.
    static ghost predicate Assembled(s: Sender, frag: seq<byte>, todo: nat, whole: bool) {
      && s.cursor.written < |s.flight|
      && var k, offset := Number(s.flight, s.start, s.cursor.written), s.cursor.offset;
      && k < |s.log.history| && |s.log.history[k].body| < 0x100_0000
      && offset + todo <= |s.log.history[k].body|
      && |s.log.history[k].body| == |s.flight[s.cursor.written].Body()|
      && frag == FragmentBytes(s.log.history[k], k, offset, todo)
      && (todo == 0 ==> |s.log.history[k].body| == 0)
      && (whole <==> offset + todo == |s.log.history[k].body|)
    }

    // Assembles the next fragment: as much of the body as leaves room for the
    // header and the overhead of sealing.
    method AssembleFragment(usePrevious: bool, maxOut: nat) returns (result: SealResult, frag: seq<byte>, todo: nat)
      requires Valid() && state.cursor.written < |state.flight| && !state.flight[state.cursor.written].isCcs
      ensures result.SealNoProgress? <==> maxOut < HM_HEADER_LENGTH + 1 + Overhead(usePrevious)
      ensures !result.SealError?
      ensures result.SealPartial? || result.SealSuccess? ==>
                |frag| + Overhead(usePrevious) <= maxOut && Assembled(state, frag, todo, result.SealSuccess?)
      // A fragment that is not the rest of its message takes all the room there is.
      ensures result.SealPartial? ==> |frag| + Overhead(usePrevious) == maxOut
    {
      QueuedMessageParses(state);
      var offset := state.cursor.offset;
      assert offset == |state.flight[state.cursor.written].Body()| ==> offset == 0;
      result, frag, todo := SealError, [], 0;
      var parsed := ParseFragment(state.flight[state.cursor.written].data);
      if parsed.None? {
        return;
      }
      var (hdr, body, rest) := parsed.value;
      if hdr.fragOff != 0 || hdr.fragLen != |body| || hdr.msgLen != |body| || offset > |body| || rest != [] {
        return;
      }
      // How many bytes go into this fragment
      var overhead := Overhead(usePrevious);
      if maxOut < HM_HEADER_LENGTH + 1 + overhead || maxOut < PrefixLen(usePrevious) {
        return SealNoProgress, [], 0;
      }
      todo := |body| - offset;
      if todo > maxOut - HM_HEADER_LENGTH - overhead {
        todo := maxOut - HM_HEADER_LENGTH - overhead;
      }
      frag := HeaderBytes(Header(hdr.ty, hdr.msgLen, hdr.num, offset, todo)) + body[offset..offset + todo];
      return if todo == |body| - offset then SealSuccess else SealPartial, frag, todo;
    }

    method SealNextFragment(usePrevious: bool, maxOut: nat) returns (result: SealResult, r: Sent)
      requires Valid() && state.cursor.written < |state.flight|
      requires !state.flight[state.cursor.written].isCcs && EpochChosen(usePrevious)
      modifies this`state, this`wrapped
      ensures !wrapped ==> Valid() && old(state).log.GrowsTo(state.log)
      ensures old(state).log.sent <= state.log.sent
      ensures result.SealError? ==> wrapped || Unsealable(maxOut)
      ensures result.SealNoProgress? ==> !wrapped && state == old(state) && NoRoom(state, maxOut)
      ensures result.SealPartial? || result.SealSuccess? ==>
                !wrapped && r.size <= maxOut && SealedNext(old(state), r, result.SealSuccess?, state)
      ensures result.SealPartial? ==> |r.plaintext| + Overhead(usePrevious) == maxOut
    {
      ValidFacts(state);
      hide CiphersMatch, RecordOk, WriteAead.MaxOverhead, WriteAead.PrefixLen, Sender.Valid, Log.GrowsTo, Assembled, SealedNext;
      var frag, todo;
      result, frag, todo := AssembleFragment(usePrevious, maxOut);
      if result.SealNoProgress? {
        return result, Sent(0, 0, 0, [], 0, None, 0, 0);
      }
      var ok;
      ok, r := SealAssembled(frag, todo, result.SealSuccess?, usePrevious, maxOut);
      if !ok {
        result := SealError;
      }
    }

    // Seals an assembled fragment and moves the offset.
    method SealAssembled(frag: seq<byte>, todo: nat, whole: bool, usePrevious: bool, maxOut: nat) returns (ok: bool, r: Sent)
      requires Valid() && state.cursor.written < |state.flight| && Assembled(state, frag, todo, whole)
      requires !state.flight[state.cursor.written].isCcs && EpochChosen(usePrevious)
      requires |frag| + Overhead(usePrevious) <= maxOut
      modifies this`state, this`wrapped
      ensures !wrapped ==> Valid() && old(state).log.GrowsTo(state.log)
      ensures old(state).log.sent <= state.log.sent
      ensures !ok ==> wrapped || Unsealable(maxOut)
      ensures ok ==> !wrapped && r.size <= maxOut && SealedNext(old(state), r, whole, state)
      ensures r.plaintext == frag
    {
      hide Sender.Valid, CiphersMatch, SealedNext, Log.GrowsTo, Assembled, EpochChosen, Overhead;
      ok, r := SealFragment(frag, todo, whole, usePrevious, maxOut);
      if ok {
        MoveOffset(todo, whole, old(state), r);
      }
    }

    // The state once r has been sealed and the offset has moved past it
    static ghost function Moved(was: Sender, r: Sent, todo: nat, whole: bool): Sender {
      Seal(was, r).(cursor := Cursor(was.cursor.written, if whole then 0 else was.cursor.offset + todo))
    }

    method SealFragment(frag: seq<byte>, todo: nat, ghost whole: bool, usePrevious: bool, maxOut: nat) returns (ok: bool, r: Sent)
      requires Valid() && state.cursor.written < |state.flight| && Assembled(state, frag, todo, whole)
      requires !state.flight[state.cursor.written].isCcs && EpochChosen(usePrevious)
      requires |frag| + Overhead(usePrevious) <= maxOut
      modifies this`state, this`wrapped
      ensures !wrapped ==> Valid() && old(state).log.GrowsTo(state.log)
      ensures old(state).log.sent <= state.log.sent
      ensures !ok ==> wrapped || Unsealable(maxOut)
      ensures ok ==> !wrapped && r.size <= maxOut && state == Seal(old(state), r)
      ensures ok ==> var now := Moved(old(state), r, todo, whole); now.Valid() && SealedNext(old(state), r, whole, now)
      ensures r.plaintext == frag
    {
      ValidFacts(state);
      hide CiphersMatch, RecordOk, WriteAead.MaxOverhead, WriteAead.PrefixLen, WriteAead.RecordSize, IsNext, After, Log.GrowsTo,
           Sender.Valid, Number, CursorValid, Seal, FragmentBytes, Numbered, Overhead, CipherFor, SealedNext, Log.Valid;
      ok, r := SealRecord(RT_HANDSHAKE, frag, usePrevious, maxOut,
                          Some(Number(state.flight, state.start, state.cursor.written)), state.cursor.offset, todo);
      if !wrapped && r.num < LAST_RECORD_NUMBER {
        FragmentSealed(old(state), r, todo, whole);
      }
    }

    // Past the fragment that was just sealed
    method MoveOffset(todo: nat, whole: bool, ghost was: Sender, ghost r: Sent)
      requires !wrapped && CiphersMatch(state.ciphers, state.epoch, aead, lastAead) && state == Seal(was, r)
      requires var now := Moved(was, r, todo, whole); now.Valid() && SealedNext(was, r, whole, now)
      modifies this`state
      ensures Valid() && SealedNext(was, r, whole, state) && state.log == old(state).log
    {
      hide Sender.Valid, CiphersMatch, SealedNext;
      var offset := state.cursor.offset;
      state := state.(cursor := state.cursor.(offset := if whole then 0 else offset + todo));
    }

    // So far these records are in the packet, and so much of it is left.
    ghost predicate Packing(start: Sender, packet: seq<Sent>, left: nat, maxOut: nat)
      reads this
    {
      && Valid() && SealedJust(start, packet, state) && start.log.GrowsTo(state.log)
      && left + PacketSize(packet) == maxOut
      && (packet == [] ==> state == start)
    }

    lemma PackingStarts(maxOut: nat)
      requires Valid()
      ensures Packing(state, [], maxOut, maxOut)
    {
      ValidFacts(state);
      assert Carries(state.flight, state.start, state.cursor, [], state.cursor);
    }

    lemma PackingEnds(start: Sender, packet: seq<Sent>, left: nat, maxOut: nat)
      requires Packing(start, packet, left, maxOut)
      requires state.cursor.written >= |state.flight| || NoRoom(state, left) || LastFills(state.ciphers, packet, maxOut)
      ensures Valid() && start.log.GrowsTo(state.log) && start.log.sent <= state.log.sent
      ensures packet != [] ==> Filled(state, packet, maxOut) && SealedJust(start, packet, state)
      ensures packet == [] ==> state == start && (state.cursor.written >= |state.flight| || NoRoom(state, maxOut))
    {
      hide Valid, SealedJust;
    }

    // seal_next_packet: fills one packet with as much of the flight as fits.
    method SealNextPacket(maxOut: nat) returns (result: PacketResult, packet: seq<Sent>)
      requires Valid() && state.cursor.written < |state.flight|
      modifies this`state, this`wrapped
      ensures !wrapped ==> Valid() && old(state).log.GrowsTo(state.log)
      ensures old(state).log.sent <= state.log.sent
      ensures result.PacketSealed? ==> !wrapped && Filled(state, packet, maxOut)
      ensures result.PacketSealed? ==> SealedJust(old(state), packet, state)
      ensures result.PacketError? ==> wrapped || Unsealable(maxOut)
      ensures result.MtuTooSmall? ==> !wrapped && state == old(state) && NoRoom(state, maxOut)
    {
      PackingStarts(maxOut);
      hide Sender.Valid, Packing, Log.GrowsTo, NoRoom, LastFills, Filled, SealedJust, CiphersMatch, Unsealable;
      packet := [];
      var left: nat := maxOut;
      while state.cursor.written < |state.flight|
        invariant Packing(old(state), packet, left, maxOut)
        decreases |state.flight| - state.cursor.written
      {
        var sealed;
        sealed, packet, left := SealIntoPacket(old(state), packet, left, maxOut);
        match sealed {
          case SealError => return PacketError, packet;
          case SealNoProgress => break;
          case SealPartial => break;
          case SealSuccess =>
        }
      }
      PackingEnds(old(state), packet, left, maxOut);
      // Not even one record fitted.
      return if packet == [] then MtuTooSmall else PacketSealed, packet;
    }

    // One turn of the loop of seal_next_packet.
    method SealIntoPacket(ghost start: Sender, packet: seq<Sent>, left: nat, ghost maxOut: nat)
      returns (sealed: SealResult, packet': seq<Sent>, left': nat)
      requires state.cursor.written < |state.flight| && Packing(start, packet, left, maxOut)
      modifies this`state, this`wrapped
      ensures sealed.SealError? ==>
                && (!wrapped ==> Valid() && start.log.GrowsTo(state.log)) && start.log.sent <= state.log.sent
                && (wrapped || Unsealable(maxOut))
      ensures !sealed.SealError? ==> Packing(start, packet', left', maxOut)
      ensures sealed.SealNoProgress? ==> NoRoom(state, left')
      ensures sealed.SealPartial? ==> LastFills(state.ciphers, packet', maxOut)
      ensures sealed.SealSuccess? ==> state.cursor.written == old(state).cursor.written + 1 && state.flight == old(state).flight
    {
      hide Sender.Valid, WriteAead.Valid, Log.GrowsTo, Carries, SealedNext, SealedSince, OnlySealed, NoRoom, PacketSize, LastFills, Fills;
      var r;
      sealed, r := SealNextMessage(left);
      if sealed.SealError? || sealed.SealNoProgress? {
        if !wrapped { SinceGrows(start, packet, old(state), state); }
        return sealed, packet, left;
      }
      PacketGrows(start, packet, old(state), r, sealed.SealSuccess?, state);
      if sealed.SealPartial? { FillsPacket(packet, old(state), r, left, state); }
      packet', left' := packet + [r], left - r.size;
      if sealed.SealSuccess? {
        state := state.(cursor := Cursor(state.cursor.written + 1, state.cursor.offset));
      }
    }

    // Sealing moves the cursor and the counters, and adds to the log.
    static ghost predicate OnlySealed(was: Sender, now: Sender) {
      now == was.(log := now.log, cursor := now.cursor, next := now.next, last := now.last) && now.log.history == was.log.history
    }

    // What was sealed since was carries the flight on from there.
    static ghost predicate SealedSince(was: Sender, records: seq<Sent>, now: Sender) {
      && OnlySealed(was, now) && was.log.GrowsTo(now.log) && Carries(was.flight, was.start, was.cursor, records, now.cursor)
      && was.log.sent + records <= now.log.sent
    }

    // And nothing else was sealed.
    static ghost predicate SealedJust(was: Sender, records: seq<Sent>, now: Sender) {
      SealedSince(was, records, now) && now.log.sent == was.log.sent + records
    }

    // dtls1_update_mtu
    method UpdateMtu(noQuery: bool, queried: int)
      modifies this`mtu
      ensures mtu == if old(mtu) < MIN_MTU && !noQuery then (if MIN_MTU <= queried <= 0x4000_0000 then queried else DEFAULT_MTU) else old(mtu)
    {
      if mtu < MIN_MTU && !noQuery {
        mtu := if 0 <= queried <= 0x4000_0000 && queried >= MIN_MTU then queried else DEFAULT_MTU;
      }
    }

    // What a failure is due to: the transport, which had been asked so many
    // times before, or what was to be sealed.
    ghost predicate Caused(result: FlightResult, bio: Bio, before: nat)
      reads this, bio
    {
      match result
      case WriteFailed(ret) => bio.next > before && bio.Answer(bio.next - 1) == ret <= 0
      case FlushFailed => bio.next > before && bio.Answer(bio.next - 1) <= 0
      case SealFailed(MtuTooSmall) => !wrapped && NoRoom(state, mtu)
      case SealFailed(_) => wrapped || Unsealable(mtu)
      case _ => true
    }

    // send_flight: writes the rest of the flight, packet by packet.
    method SendFlight(bio: Bio, noQuery: bool, queried: int) returns (result: FlightResult)
      requires Valid()
      modifies bio, this`state, this`wrapped, this`mtu
      ensures !wrapped ==> Valid() && old(state).log.GrowsTo(state.log)
      ensures old(bio.packets) <= bio.packets
      ensures forall i | |old(bio.packets)| <= i < |bio.packets| :: bio.packets[i] != [] && PacketSize(bio.packets[i]) <= mtu
      // No packet ends where there was room for more of the flight.
      ensures Packed(old(state).ciphers, bio.packets[|old(bio.packets)|..], mtu)
      ensures result.ProtocolIsShutdown? <==> writeShutdown
      ensures result.ProtocolIsShutdown? ==> bio.packets == old(bio.packets) && state == old(state)
      // What the transport has taken are the records sealed first, in order.
      ensures old(state).log.sent + Flatten(bio.packets[|old(bio.packets)|..]) <= state.log.sent
      ensures Emitted(Flatten(old(bio.packets)), old(state).log.sent) ==> Emitted(Flatten(bio.packets), state.log.sent)
      // Whatever stopped the flight short of an error, what the transport has
      // taken runs exactly from the old position to the new one.
      ensures result.FlightSent? || result.FlushFailed? || result.WriteFailed? ==>
                !wrapped && SealedSince(old(state), Flatten(bio.packets[|old(bio.packets)|..]), state)
      ensures result.FlightSent? || result.FlushFailed? ==> state.cursor == Cursor(|state.flight|, 0)
      ensures Caused(result, bio, old(bio.next))
    {
      ValidFacts(state);
      if writeShutdown {
        return ProtocolIsShutdown;
      }
      UpdateMtu(noQuery, queried);
      hide Sender.Valid, WriteAead.Valid, Log.GrowsTo, SealedSince, CiphersMatch, NoRoom, Unsealable, Flatten, PacketSize, Emitted, Bio.Answer,
           Tight;
      ghost var taken;
      result, taken := SendPackets(bio);
      assert bio.packets[|old(bio.packets)|..] == taken;
      EmittedFlight(old(bio.packets), old(state).log.sent, taken, state.log.sent);
      if result.FlightSent? {
        var ret := bio.Flush();
        result := if ret <= 0 then FlushFailed else FlightSent;
      }
    }

    // So far the transport has taken these packets, and nothing else was sealed.
    ghost predicate Sending(bio: Bio, start: Sender, before: seq<seq<Sent>>, asked: nat, taken: seq<seq<Sent>>)
      reads this, bio
    {
      && Valid() && SealedJust(start, Flatten(taken), state)
      && bio.packets == before + taken && bio.next >= asked
      && Packed(start.ciphers, taken, mtu) && LastFilled(state, taken, mtu)
    }

    // And this is how it ended.
    ghost predicate Stopped(result: FlightResult, bio: Bio, start: Sender, before: seq<seq<Sent>>, asked: nat, taken: seq<seq<Sent>>)
      reads this, bio
    {
      && (!wrapped ==> Valid() && start.log.GrowsTo(state.log))
      && (result.FlightSent? || result.SealFailed? || result.WriteFailed?)
      && bio.packets == before + taken && bio.next >= asked
      && start.log.sent + Flatten(taken) <= state.log.sent
      && Packed(start.ciphers, taken, mtu)
      && (result.FlightSent? || result.WriteFailed? ==> !wrapped && SealedSince(start, Flatten(taken), state))
      && (result.FlightSent? ==> state.cursor == Cursor(|state.flight|, 0))
      && Caused(result, bio, asked)
    }

    lemma SendingStarts(bio: Bio)
      requires Valid()
      ensures Sending(bio, state, bio.packets, bio.next, [])
    {
      NothingSealed(state);
      hide Flatten, SealedJust;
    }

    lemma SendingEnds(bio: Bio, start: Sender, before: seq<seq<Sent>>, asked: nat, taken: seq<seq<Sent>>)
      requires Sending(bio, start, before, asked, taken) && state.cursor.written >= |state.flight|
      ensures Stopped(FlightSent, bio, start, before, asked, taken)
    {
      ValidFacts(state);
      JustIsSince(start, Flatten(taken), state);
      hide Sender.Valid, CiphersMatch, Flatten, SealedJust, SealedSince, Log.GrowsTo, PacketSize;
    }

    // The loop of send_flight.
    method SendPackets(bio: Bio) returns (result: FlightResult, ghost taken: seq<seq<Sent>>)
      requires Valid()
      modifies bio, this`state, this`wrapped
      ensures Stopped(result, bio, old(state), old(bio.packets), old(bio.next), taken)
    {
      taken := [];
      SendingStarts(bio);
      hide Sending, Stopped, Valid, Sender.Valid, MessagesLeft, BytesLeft;
      result := FlightSent;
      while state.cursor.written < |state.flight|
        invariant Sending(bio, old(state), old(bio.packets), old(bio.next), taken) && result.FlightSent?
        decreases MessagesLeft(state), BytesLeft(state)
      {
        result, taken := SendNextPacket(bio, old(state), old(bio.packets), old(bio.next), taken);
        if !result.FlightSent? {
          return;
        }
      }
      SendingEnds(bio, old(state), old(bio.packets), old(bio.next), taken);
    }

    // One turn of the loop of send_flight.
    method SendNextPacket(bio: Bio, ghost start: Sender, ghost before: seq<seq<Sent>>, ghost asked: nat, ghost taken: seq<seq<Sent>>)
      returns (result: FlightResult, ghost taken': seq<seq<Sent>>)
      requires start.Valid() && state.cursor.written < |state.flight| && Sending(bio, start, before, asked, taken)
      modifies bio, this`state, this`wrapped
      ensures result.FlightSent? ==> Sending(bio, start, before, asked, taken') && LessIsLeft(state, old(state))
      ensures !result.FlightSent? ==> taken' == taken && Stopped(result, bio, start, before, asked, taken)
    {
      JustIsSince(start, Flatten(taken), state);
      hide Sender.Valid, WriteAead.Valid, Log.GrowsTo, Carries, OnlySealed, NoRoom, Unsealable, Flatten, PacketSize, LessIsLeft, Bio.Answer,
           CiphersMatch, SealedSince, SealedJust, Packed, LastFilled, Filled;
      var oldCursor := state.cursor;
      taken' := taken;
      var sealed, packet := SealNextPacket(mtu);
      if !sealed.PacketSealed? {
        if !wrapped { GrowsTransitively(start.log, old(state).log, state.log); }
        return SealFailed(sealed), taken;
      }
      PacketTaken(start, taken, old(state), packet, state);
      PackedGrows(start, taken, old(state), packet, state, mtu);
      result := WritePacket(bio, packet, oldCursor, start, before, asked, taken);
      taken' := if result.FlightSent? then taken + [packet] else taken;
    }

    // Gives the packet to the transport, or goes back to where it began.
    method WritePacket(bio: Bio, packet: seq<Sent>, oldCursor: Cursor, ghost start: Sender, ghost before: seq<seq<Sent>>, ghost asked: nat,
                       ghost taken: seq<seq<Sent>>) returns (result: FlightResult)
      requires Valid() && SealedJust(start, Flatten(taken + [packet]), state) && Filled(state, packet, mtu)
      requires state.(cursor := oldCursor).Valid() && SealedSince(start, Flatten(taken), state.(cursor := oldCursor))
      requires bio.packets == before + taken && bio.next >= asked
      requires Packed(start.ciphers, taken, mtu) && Packed(start.ciphers, taken + [packet], mtu)
      modifies bio, this`state
      ensures result.FlightSent? ==> state == old(state) && Sending(bio, start, before, asked, taken + [packet])
      ensures !result.FlightSent? ==> Stopped(result, bio, start, before, asked, taken)
    {
      SinceFacts(start, Flatten(taken), state.(cursor := oldCursor));
      hide Sender.Valid, WriteAead.Valid, Log.GrowsTo, Flatten, PacketSize, CiphersMatch, SealedSince, SealedJust, Packed, Filled;
      var ret := bio.Write(packet);
      if ret <= 0 {
        // The next call starts over with this packet.
        state := state.(cursor := oldCursor);
        return WriteFailed(ret);
      }
      return FlightSent;
    }

    // dtls1_flush_flight
    method FlushFlight(bio: Bio, noQuery: bool, queried: int) returns (result: FlightResult)
      requires Valid()
      modifies bio, this`state, this`wrapped, this`mtu
      ensures !wrapped ==> Valid() && old(state).log.GrowsTo(state.log)
      ensures old(bio.packets) <= bio.packets
      ensures forall i | |old(bio.packets)| <= i < |bio.packets| :: bio.packets[i] != [] && PacketSize(bio.packets[i]) <= mtu
      ensures Packed(old(state).ciphers, bio.packets[|old(bio.packets)|..], mtu)
      ensures Emitted(Flatten(old(bio.packets)), old(state).log.sent) ==> Emitted(Flatten(bio.packets), state.log.sent)
      ensures result.FlightSent? || result.FlushFailed? || result.WriteFailed? ==>
                && !wrapped && state.complete && old(bio.packets) <= bio.packets && state.flight == old(state).flight
                && Carries(state.flight, state.start, old(state).cursor, Flatten(bio.packets[|old(bio.packets)|..]), state.cursor)
      ensures (result.ProtocolIsShutdown? <==> writeShutdown) && Caused(result, bio, old(bio.next))
      ensures result.FlightSent? ==> state.cursor == Cursor(|state.flight|, 0)
    {
      CompleteKeepsValid(state);
      state := state.(complete := true);
      result := SendFlight(bio, noQuery, queried);
    }

    // dtls1_retransmit_outgoing_messages: the whole flight again, from the start.
    method Retransmit(bio: Bio, noQuery: bool, queried: int) returns (result: FlightResult)
      requires Valid()
      modifies bio, this`state, this`wrapped, this`mtu
      ensures !wrapped ==> Valid() && old(state).log.GrowsTo(state.log)
      ensures old(bio.packets) <= bio.packets
      ensures forall i | |old(bio.packets)| <= i < |bio.packets| :: bio.packets[i] != [] && PacketSize(bio.packets[i]) <= mtu
      ensures Packed(old(state).ciphers, bio.packets[|old(bio.packets)|..], mtu)
      ensures Emitted(Flatten(old(bio.packets)), old(state).log.sent) ==> Emitted(Flatten(bio.packets), state.log.sent)
      ensures result.FlightSent? || result.FlushFailed? || result.WriteFailed? ==>
                && !wrapped && old(bio.packets) <= bio.packets && state.flight == old(state).flight
                && Carries(state.flight, state.start, Cursor(0, 0), Flatten(bio.packets[|old(bio.packets)|..]), state.cursor)
      ensures (result.ProtocolIsShutdown? <==> writeShutdown) && Caused(result, bio, old(bio.next))
      ensures result.FlightSent? ==> state.cursor == Cursor(|state.flight|, 0)
    {
      RewindKeepsValid(state, Cursor(0, 0));
      state := state.(cursor := Cursor(0, 0));
      result := SendFlight(bio, noQuery, queried);
    }
  }

  lemma CiphersMatchNext(ciphers: seq<WriteAead>, epoch: nat, aead: WriteAead, lastAead: WriteAead, next: WriteAead)
    requires Dtls1State.CiphersMatch(ciphers, epoch, aead, lastAead) && next.Valid()
    ensures Dtls1State.CiphersMatch(ciphers + [next], epoch + 1, next, aead)
  {
    hide WriteAead.Valid;
  }

  // Before anything is sealed
  lemma NothingSealed(s: Sender)
    requires s.Valid()
    ensures Dtls1State.SealedJust(s, Flatten([]), s)
  {
    ValidFacts(s);
  }

  lemma JustIsSince(was: Sender, records: seq<Sent>, now: Sender)
    requires Dtls1State.SealedJust(was, records, now)
    ensures Dtls1State.SealedSince(was, records, now) && was.log.sent + records <= now.log.sent && was.log.GrowsTo(now.log)
  {
  }

  lemma SinceFacts(was: Sender, records: seq<Sent>, now: Sender)
    requires Dtls1State.SealedSince(was, records, now)
    ensures was.log.sent + records <= now.log.sent && was.log.GrowsTo(now.log)
  {
  }

  lemma EmittedFlight(packets: seq<seq<Sent>>, sent: seq<Sent>, taken: seq<seq<Sent>>, sent': seq<Sent>)
    requires sent + Flatten(taken) <= sent'
    ensures Emitted(Flatten(packets), sent) ==> Emitted(Flatten(packets + taken), sent')
  {
    hide Emitted, Flatten;
    if Emitted(Flatten(packets), sent) {
      FlattenConcat(packets, taken);
      EmittedMore(Flatten(packets), sent, Flatten(taken), sent');
    }
  }

  lemma SinceGrows(start: Sender, records: seq<Sent>, before: Sender, now: Sender)
    requires Dtls1State.SealedSince(start, records, before) && before.log.GrowsTo(now.log)
    ensures start.log.GrowsTo(now.log)
  {
    GrowsTransitively(start.log, before.log, now.log);
  }

  // One more record in the packet.
  lemma PacketGrows(start: Sender, packet: seq<Sent>, before: Sender, r: Sent, whole: bool, now: Sender)
    requires Dtls1State.SealedJust(start, packet, before) && Dtls1State.SealedNext(before, r, whole, now)
    requires before.log.GrowsTo(now.log) && now.Valid()
    ensures PacketSize(packet + [r]) == PacketSize(packet) + r.size && start.log.GrowsTo(now.log) && now.flight == before.flight
    ensures !whole ==> Dtls1State.SealedJust(start, packet + [r], now)
    ensures whole ==>
              var next := now.(cursor := Cursor(now.cursor.written + 1, now.cursor.offset));
              next.Valid() && Dtls1State.SealedJust(start, packet + [r], next)
  {
    CarriesStep(start.flight, start.start, start.cursor, packet, before.cursor, r);
    GrowsTransitively(start.log, before.log, now.log);
    assert (packet + [r])[..|packet|] == packet;
    if whole { NextMessageStarts(now); }
  }

  lemma FillsPacket(packet: seq<Sent>, before: Sender, r: Sent, left: nat, now: Sender)
    requires Dtls1State.Fills(before, r, left) && Dtls1State.SealedNext(before, r, false, now)
    ensures Dtls1State.LastFills(now.ciphers, packet + [r], left + PacketSize(packet))
  {
    hide PacketSize;
    assert (packet + [r])[..|packet|] == packet;
  }

  // What is left of a flight: messages, then bytes of the current one.
  ghost function MessagesLeft(s: Sender): int {
    |s.flight| - s.cursor.written
  }

  ghost function BytesLeft(s: Sender): int {
    if s.cursor.written < |s.flight| then |s.flight[s.cursor.written].Body()| - s.cursor.offset else 0
  }

  ghost predicate LessIsLeft(now: Sender, before: Sender) {
    && 0 <= MessagesLeft(now) <= MessagesLeft(before)
    && (MessagesLeft(now) == MessagesLeft(before) ==> 0 <= BytesLeft(now) < BytesLeft(before))
  }

  // One more packet: there is less of the flight left; and if the transport
  // does not take it, going back leaves everything as it was.
  lemma PacketTaken(start: Sender, taken: seq<seq<Sent>>, before: Sender, packet: seq<Sent>, now: Sender)
    requires start.Valid() && before.Valid() && now.Valid() && packet != []
    requires Dtls1State.SealedJust(start, Flatten(taken), before) && Dtls1State.SealedJust(before, packet, now)
    ensures Dtls1State.SealedJust(start, Flatten(taken + [packet]), now)
    ensures LessIsLeft(now, before)
    ensures now.(cursor := before.cursor).Valid()
    ensures Dtls1State.SealedSince(start, Flatten(taken), now.(cursor := before.cursor))
  {
    hide *;
    assert Dtls1State.SealedSince(before, packet, now) by { JustIsSince(before, packet, now); }
    LessLeft(before, packet, now);
    PacketAdded(start, taken, before, packet, now);
    PacketRewound(start, taken, before, packet, now);
  }

  lemma PackedGrows(start: Sender, taken: seq<seq<Sent>>, before: Sender, packet: seq<Sent>, now: Sender, mtu: nat)
    requires Dtls1State.Packed(start.ciphers, taken, mtu) && Dtls1State.LastFilled(before, taken, mtu)
    requires Dtls1State.SealedJust(start, Flatten(taken), before) && Dtls1State.SealedJust(before, packet, now)
    requires before.cursor.written < |before.flight| && Dtls1State.Filled(now, packet, mtu)
    ensures Dtls1State.Packed(start.ciphers, taken + [packet], mtu) && Dtls1State.LastFilled(now, taken + [packet], mtu)
  {
    hide Flatten, PacketSize, WriteAead.MaxOverhead, Log.Valid, Dtls1State.LastFills;
    assert before.ciphers == start.ciphers && IsNext(before.flight, before.start, before.cursor, packet[0]);
    if taken != [] {
      assert Dtls1State.Tight(start.ciphers, taken[|taken| - 1], packet, mtu);
    }
  }

  lemma PacketAdded(start: Sender, taken: seq<seq<Sent>>, before: Sender, packet: seq<Sent>, now: Sender)
    requires Dtls1State.SealedJust(start, Flatten(taken), before) && Dtls1State.SealedJust(before, packet, now)
    ensures Dtls1State.SealedJust(start, Flatten(taken + [packet]), now)
  {
    hide Carries, Flatten, Log.Valid, CursorValid;
    GrowsTransitively(start.log, before.log, now.log);
    FlattenAppend(taken, packet);
    CarriesAppend(start.flight, start.start, start.cursor, Flatten(taken), before.cursor, packet, now.cursor);
  }

  lemma PacketRewound(start: Sender, taken: seq<seq<Sent>>, before: Sender, packet: seq<Sent>, now: Sender)
    requires before.Valid() && now.Valid()
    requires Dtls1State.SealedJust(start, Flatten(taken), before) && Dtls1State.SealedJust(before, packet, now)
    ensures now.(cursor := before.cursor).Valid()
    ensures Dtls1State.SealedSince(start, Flatten(taken), now.(cursor := before.cursor))
  {
    hide Carries, Flatten, Log.Valid, Sender.Valid;
    ValidFacts(before);
    RewindKeepsValid(now, before.cursor);
    GrowsTransitively(start.log, before.log, now.log);
  }

  lemma LessLeft(before: Sender, packet: seq<Sent>, now: Sender)
    requires before.Valid() && now.Valid() && packet != [] && Dtls1State.SealedSince(before, packet, now)
    ensures LessIsLeft(now, before)
  {
    ValidFacts(before);
    ValidFacts(now);
    hide Sender.Valid, Log.GrowsTo, IsNext, After;
    CarriesMovesOn(before.flight, before.start, before.cursor, packet, now.cursor);
  }

  // Sealing the next piece of the current message, and moving the offset.
  lemma FragmentSealed(s: Sender, r: Sent, todo: nat, whole: bool)
    requires s.Valid() && s.cursor.written < |s.flight| && !s.flight[s.cursor.written].isCcs
    requires Dtls1State.Assembled(s, r.plaintext, todo, whole)
    requires r.epoch == s.flight[s.cursor.written].epoch && r.ty == RT_HANDSHAKE && RecordOk(r, s.ciphers)
    requires Numbered(s, r)
    requires r.k == Some(Number(s.flight, s.start, s.cursor.written)) && r.off == s.cursor.offset && r.len == todo
    ensures s.log.GrowsTo(Seal(s, r).log) && Seal(s, r).Valid()
    ensures var now := Dtls1State.Moved(s, r, todo, whole); now.Valid() && Dtls1State.SealedNext(s, r, whole, now)
  {
    NextFragmentIsSealable(s, r, todo);
    SealKeepsValid(s, r);
    if whole { RewindKeepsValid(Seal(s, r), Cursor(s.cursor.written, 0)); }
  }
}
