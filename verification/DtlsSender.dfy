// The sending half of the DTLS handshake transport: messages are queued into a
// flight, cut into fragments that fit the packet, sealed and written.

// The cipher of one write epoch, and how much room a record takes under it.
module DtlsCipher {
  import A = AeadContext

  const RT_HEADER_LENGTH := 13

  datatype WriteAead = WriteAead(context: A.Context, aead: A.Aead) {
    ghost predicate Valid() {
      A.ContextOk(context) && A.Correct(aead) && forall n: nat :: aead.tagLen(n) <= aead.maxOverhead
    }

    // dtls_seal_prefix_len
    function PrefixLen(): nat {
      RT_HEADER_LENGTH + A.ExplicitNonceLen(context)
    }

    // dtls_max_seal_overhead
    function MaxOverhead(): nat {
      RT_HEADER_LENGTH + A.MaxOverhead(context, aead)
    }

    // Prefix, plaintext and tag
    function RecordSize(n: nat): nat {
      PrefixLen() + n + A.SuffixLen(context, aead, n, 0)
    }

    lemma SizeIsBounded(n: nat)
      requires Valid()
      ensures PrefixLen() + n <= RecordSize(n) <= n + MaxOverhead()
    {
    }
  }
}

// What a sender has said so far, and what its peer may rely on.
module DtlsSent {
  import opened Wire
  import opened Reassembly

  const FLIGHT := 7  // SSL_MAX_HANDSHAKE_FLIGHT

  // A handshake message, and the epoch it was queued in.
  datatype Message = Message(ty: byte, body: seq<byte>, epoch: nat)

  const SEQ_SPACE := 0x1_0000

  // Message numbers are 16 bits wide.
  function MessageNumber(k: nat): (n: nat)
    ensures n < SEQ_SPACE
  {
    k % SEQ_SPACE
  }

  // The k-th message of a connection, serialised as one fragment.
  function Serialized(m: Message, k: nat): seq<byte>
    requires |m.body| < 0x100_0000
  {
    HeaderBytes(Header(m.ty, |m.body|, MessageNumber(k), 0, |m.body|)) + m.body
  }

  // Bytes off to off+len of the k-th message, as a fragment.
  function FragmentBytes(m: Message, k: nat, off: nat, len: nat): seq<byte>
    requires |m.body| < 0x100_0000 && off + len <= |m.body|
  {
    HeaderBytes(Header(m.ty, |m.body|, MessageNumber(k), off, len)) + m.body[off..off + len]
  }

  // One sealed record and its size on the wire.  For a handshake record, k is
  // the message it is cut from, and off and len say where.
  datatype Sent = Sent(epoch: nat, num: nat, ty: byte, plaintext: seq<byte>, size: nat, k: Option<nat>, off: nat, len: nat)

  // Body lengths are 24 bits wide.
  ghost predicate BodiesFit(history: seq<Message>) {
    forall i | 0 <= i < |history| :: |history[i].body| < 0x100_0000
  }

  datatype Log = Log(history: seq<Message>, sent: seq<Sent>) {

    ghost predicate FragmentOf(r: Sent) {
      r.k.Some? ==>
        && r.k.value < |history|
        && var m := history[r.k.value];
        && r.ty == 22 && r.epoch == m.epoch
        && |m.body| < 0x100_0000 && r.off + r.len <= |m.body|
        && r.plaintext == FragmentBytes(m, r.k.value, r.off, r.len)
    }

    // Record numbers of one epoch strictly increase.
    ghost predicate NumbersIncrease() {
      forall i, j | 0 <= i < j < |sent| && sent[i].epoch == sent[j].epoch :: sent[i].num < sent[j].num
    }

    // Flights do not overlap: a message is not sent again once the seventh
    // message after it has been.
    ghost predicate FlightsInOrder() {
      forall i, j | 0 <= i < j < |sent| && sent[i].k.Some? && sent[j].k.Some? :: sent[i].k.value < sent[j].k.value + FLIGHT
    }

    ghost predicate Valid() {
      && BodiesFit(history)
      && (forall i, j | 0 <= i <= j < |history| :: history[i].epoch <= history[j].epoch)
      && (forall i | 0 <= i < |sent| :: FragmentOf(sent[i]) && (sent[i].ty == 22 ==> sent[i].k.Some?))
      && NumbersIncrease()
      && FlightsInOrder()
    }

    // Everything a sender does only adds to the log.
    ghost predicate GrowsTo(l: Log) {
      l.Valid() && history <= l.history && sent <= l.sent
    }
  }

  lemma GrowsTransitively(a: Log, b: Log, c: Log)
    requires a.GrowsTo(b) && b.GrowsTo(c)
    ensures a.GrowsTo(c)
  {
  }

  // No two records share an epoch and a number.
  lemma NumbersAreUnique(l: Log, i: nat, j: nat)
    requires l.Valid() && i < |l.sent| && j < |l.sent|
    requires l.sent[i].epoch == l.sent[j].epoch && l.sent[i].num == l.sent[j].num
    ensures i == j
  {
  }

  // The records are, in this order, among those that were sealed.
  ghost predicate Emitted(records: seq<Sent>, sent: seq<Sent>)
    decreases |sent|
  {
    || records == []
    || (&& sent != []
        && (|| (records[|records| - 1] == sent[|sent| - 1] && Emitted(records[..|records| - 1], sent[..|sent| - 1]))
            || Emitted(records, sent[..|sent| - 1])))
  }

  lemma {:induction false} EmittedUnderMore(records: seq<Sent>, sent: seq<Sent>, sent': seq<Sent>)
    requires Emitted(records, sent) && sent <= sent'
    ensures Emitted(records, sent')
    decreases |sent'|
  {
    if sent != sent' {
      assert sent <= sent'[..|sent'| - 1];
      EmittedUnderMore(records, sent, sent'[..|sent'| - 1]);
    }
  }

  lemma {:induction false} EmittedMore(records: seq<Sent>, sent: seq<Sent>, more: seq<Sent>, sent': seq<Sent>)
    requires Emitted(records, sent) && sent + more <= sent'
    ensures Emitted(records + more, sent')
    decreases |more|
  {
    if more == [] {
      assert records + more == records;
      EmittedUnderMore(records, sent, sent');
    } else {
      assert more == [more[0]] + more[1..];
      assert records + more == records + [more[0]] + more[1..] && sent + more == sent + [more[0]] + more[1..];
      EmittedOne(records, sent, more[0]);
      EmittedMore(records + [more[0]], sent + [more[0]], more[1..], sent');
    }
  }

  lemma EmittedOne(records: seq<Sent>, sent: seq<Sent>, r: Sent)
    requires Emitted(records, sent)
    ensures Emitted(records + [r], sent + [r])
  {
    assert (records + [r])[..|records|] == records && (sent + [r])[..|sent|] == sent;
  }

  lemma {:induction false} EmittedAt(records: seq<Sent>, sent: seq<Sent>, i: nat) returns (a: nat)
    requires Emitted(records, sent) && i < |records|
    ensures a < |sent| && sent[a] == records[i]
    decreases |sent|
  {
    var init := sent[..|sent| - 1];
    if records[|records| - 1] == sent[|sent| - 1] && Emitted(records[..|records| - 1], init) {
      if i == |records| - 1 { a := |sent| - 1; } else { a := EmittedAt(records[..|records| - 1], init, i); }
    } else {
      a := EmittedAt(records, init, i);
    }
  }

  lemma {:induction false} EmittedInOrder(records: seq<Sent>, sent: seq<Sent>, i: nat, j: nat) returns (a: nat, b: nat)
    requires Emitted(records, sent) && i < j < |records|
    ensures a < b < |sent| && sent[a] == records[i] && sent[b] == records[j]
    decreases |sent|
  {
    var init := sent[..|sent| - 1];
    if records[|records| - 1] == sent[|sent| - 1] && Emitted(records[..|records| - 1], init) {
      if j == |records| - 1 {
        a := EmittedAt(records[..|records| - 1], init, i);
        b := |sent| - 1;
      } else {
        a, b := EmittedInOrder(records[..|records| - 1], init, i, j);
      }
    } else {
      a, b := EmittedInOrder(records, init, i, j);
    }
  }

  // So no two emitted records share an epoch and a number either, and within
  // an epoch the numbers increase.
  lemma EmittedNumbersAreUnique(l: Log, records: seq<Sent>, i: nat, j: nat)
    requires l.Valid() && Emitted(records, l.sent) && i < j < |records|
    ensures records[i].epoch == records[j].epoch ==> records[i].num < records[j].num
  {
    var a, b := EmittedInOrder(records, l.sent, i, j);
  }

  lemma AddMessageKeepsLog(l: Log, m: Message)
    requires l.Valid() && |m.body| < 0x100_0000
    requires forall i | 0 <= i < |l.history| :: l.history[i].epoch <= m.epoch
    ensures l.GrowsTo(l.(history := l.history + [m]))
  {
    var l' := l.(history := l.history + [m]);
    forall i | 0 <= i < |l'.sent|
      ensures l'.FragmentOf(l'.sent[i])
    {
      assert l.FragmentOf(l.sent[i]);
    }
  }

  lemma AddRecordKeepsLog(l: Log, r: Sent)
    requires l.Valid() && l.FragmentOf(r) && (r.ty == 22 ==> r.k.Some?)
    requires forall i | 0 <= i < |l.sent| && l.sent[i].epoch == r.epoch :: l.sent[i].num < r.num
    requires forall i | 0 <= i < |l.sent| && l.sent[i].k.Some? && r.k.Some? :: l.sent[i].k.value < r.k.value + FLIGHT
    ensures l.GrowsTo(l.(sent := l.sent + [r]))
  {
    var l' := l.(sent := l.sent + [r]);
    forall i | 0 <= i < |l'.sent|
      ensures l'.FragmentOf(l'.sent[i])
    {
      if i < |l.sent| { assert l.FragmentOf(l.sent[i]); }
    }
  }
}

// Which fragment comes next: the order in which a flight is written.
module DtlsFlight {
  import opened Wire
  import opened Reassembly
  import opened DtlsSent

  datatype OutgoingMessage = OutgoingMessage(isCcs: bool, data: seq<byte>, epoch: nat) {
    function Body(): seq<byte> {
      if |data| < HM_HEADER_LENGTH then [] else data[HM_HEADER_LENGTH..]
    }
  }

  datatype Cursor = Cursor(written: nat, offset: nat)

  ghost predicate CursorValid(flight: seq<OutgoingMessage>, c: Cursor) {
    && c.written <= |flight|
    && (c.offset != 0 ==> c.written < |flight| && !flight[c.written].isCcs && c.offset < |flight[c.written].Body()|)
  }

  function HandshakeCount(flight: seq<OutgoingMessage>): nat {
    if flight == [] then 0
    else HandshakeCount(flight[..|flight| - 1]) + if flight[|flight| - 1].isCcs then 0 else 1
  }

  lemma {:induction false} HandshakeCountGrows(flight: seq<OutgoingMessage>, i: nat)
    requires i <= |flight|
    ensures HandshakeCount(flight[..i]) <= HandshakeCount(flight) <= HandshakeCount(flight[..i]) + |flight| - i
  {
    if i == |flight| {
      assert flight[..i] == flight;
    } else {
      HandshakeCountGrows(flight[..|flight| - 1], i);
      assert flight[..|flight| - 1][..i] == flight[..i];
    }
  }

  // The number of message i of a flight whose first message has number start.
  function Number(flight: seq<OutgoingMessage>, start: nat, i: nat): nat
    requires i <= |flight|
  {
    start + HandshakeCount(flight[..i])
  }

  // r carries the next piece of the flight: a ChangeCipherSpec, or the bytes of
  // the current message from the offset on, at least one unless it is empty.
  ghost predicate IsNext(flight: seq<OutgoingMessage>, start: nat, c: Cursor, r: Sent) {
    && c.written < |flight|
    && var m := flight[c.written];
    && r.epoch == m.epoch
    && if m.isCcs then r.k == None && r.ty == 20 && r.plaintext == [1]
       else
         && r.k == Some(Number(flight, start, c.written)) && r.ty == 22 && r.off == c.offset
         && r.off + r.len <= |m.Body()|
         && (r.len == 0 ==> |m.Body()| == 0)
         && |r.plaintext| == HM_HEADER_LENGTH + r.len
         && r.plaintext[HM_HEADER_LENGTH..] == m.Body()[r.off..r.off + r.len]
  }

  ghost function After(flight: seq<OutgoingMessage>, start: nat, c: Cursor, r: Sent): Cursor
    requires IsNext(flight, start, c, r)
  {
    if flight[c.written].isCcs || r.off + r.len == |flight[c.written].Body()| then Cursor(c.written + 1, 0)
    else Cursor(c.written, r.off + r.len)
  }

  // The records carry the flight from cursor c to cursor d, in order.
  ghost predicate Carries(flight: seq<OutgoingMessage>, start: nat, c: Cursor, records: seq<Sent>, d: Cursor)
    decreases |records|
  {
    if records == [] then c == d
    else IsNext(flight, start, c, records[0]) && Carries(flight, start, After(flight, start, c, records[0]), records[1..], d)
  }

  lemma {:induction false} CarriesAppend(flight: seq<OutgoingMessage>, start: nat, c: Cursor, xs: seq<Sent>, d: Cursor, ys: seq<Sent>, e: Cursor)
    requires Carries(flight, start, c, xs, d) && Carries(flight, start, d, ys, e)
    ensures Carries(flight, start, c, xs + ys, e)
    decreases |xs|
  {
    if xs == [] {
      assert xs + ys == ys;
    } else {
      CarriesAppend(flight, start, After(flight, start, c, xs[0]), xs[1..], d, ys, e);
      assert (xs + ys)[1..] == xs[1..] + ys;
    }
  }

  lemma CarriesOne(flight: seq<OutgoingMessage>, start: nat, c: Cursor, r: Sent)
    requires IsNext(flight, start, c, r)
    ensures Carries(flight, start, c, [r], After(flight, start, c, r))
  {
    assert [r][1..] == [];
  }

  lemma CarriesStep(flight: seq<OutgoingMessage>, start: nat, c: Cursor, xs: seq<Sent>, d: Cursor, r: Sent)
    requires Carries(flight, start, c, xs, d) && IsNext(flight, start, d, r)
    ensures Carries(flight, start, c, xs + [r], After(flight, start, d, r))
  {
    CarriesOne(flight, start, d, r);
    CarriesAppend(flight, start, c, xs, d, [r], After(flight, start, d, r));
  }

  // The bytes of message i among the records, each fragment separately.
  ghost function Pieces(flight: seq<OutgoingMessage>, start: nat, c: Cursor, records: seq<Sent>, d: Cursor, i: nat): seq<seq<byte>>
    requires Carries(flight, start, c, records, d)
    decreases |records|
  {
    if records == [] then []
    else
      (if c.written == i then [records[0].plaintext[if flight[i].isCcs then 0 else HM_HEADER_LENGTH..]] else [])
      + Pieces(flight, start, After(flight, start, c, records[0]), records[1..], d, i)
  }

  ghost function Flatten<T>(pieces: seq<seq<T>>): seq<T> {
    if pieces == [] then [] else pieces[0] + Flatten(pieces[1..])
  }

  lemma {:induction false} FlattenConcat<T>(a: seq<seq<T>>, b: seq<seq<T>>)
    ensures Flatten(a + b) == Flatten(a) + Flatten(b)
    decreases |a|
  {
    if a == [] {
      assert a + b == b;
    } else {
      assert (a + b)[0] == a[0] && (a + b)[1..] == a[1..] + b;
      FlattenConcat(a[1..], b);
    }
  }

  lemma {:induction false} FlattenAppend<T>(pieces: seq<seq<T>>, last: seq<T>)
    ensures Flatten(pieces + [last]) == Flatten(pieces) + last
  {
    if pieces == [] {
      assert pieces + [last] == [last];
      assert [last][1..] == [];
    } else {
      assert (pieces + [last])[1..] == pieces[1..] + [last];
      FlattenAppend(pieces[1..], last);
    }
  }

  lemma {:induction false} CarriesMovesOn(flight: seq<OutgoingMessage>, start: nat, c: Cursor, records: seq<Sent>, d: Cursor)
    requires Carries(flight, start, c, records, d) && CursorValid(flight, c)
    ensures CursorValid(flight, d) && (c.written < d.written || (c.written == d.written && c.offset <= d.offset))
    ensures c == d <==> records == []
    decreases |records|
  {
    if records != [] {
      CarriesMovesOn(flight, start, After(flight, start, c, records[0]), records[1..], d);
    }
  }

  lemma {:induction false} NoPiecesBehind(flight: seq<OutgoingMessage>, start: nat, c: Cursor, records: seq<Sent>, d: Cursor, i: nat)
    requires Carries(flight, start, c, records, d) && i < c.written
    ensures Pieces(flight, start, c, records, d, i) == []
    decreases |records|
  {
    if records != [] {
      NoPiecesBehind(flight, start, After(flight, start, c, records[0]), records[1..], d, i);
    }
  }

  // One record of message i: the bytes it carries and where the next one starts.
  lemma NextPiece(flight: seq<OutgoingMessage>, start: nat, c: Cursor, r: Sent)
    requires IsNext(flight, start, c, r) && CursorValid(flight, c) && !flight[c.written].isCcs
    ensures var body, piece, c' := flight[c.written].Body(), r.plaintext[HM_HEADER_LENGTH..], After(flight, start, c, r);
      && c.offset <= |body|
      && (c'.written == c.written ==> c'.offset <= |body| && body[c.offset..] == piece + body[c'.offset..])
      && (c'.written != c.written ==> c'.written == c.written + 1 && body[c.offset..] == piece)
      && (piece == [] ==> body == []) && (body == [] ==> c'.written != c.written)
  {
    var body := flight[c.written].Body();
    var c' := After(flight, start, c, r);
    if c'.written == c.written {
      assert body[c.offset..] == body[c.offset..c'.offset] + body[c'.offset..];
    } else {
      assert body[c.offset..] == body[c.offset..|body|];
    }
  }

  lemma FlattenCons<T>(piece: seq<T>, rest: seq<seq<T>>)
    ensures Flatten([piece] + rest) == piece + Flatten(rest)
  {
    assert ([piece] + rest)[1..] == rest;
  }

  // The fragments of a message partition its body, in order; an empty body has
  // exactly one, empty, fragment.
  lemma {:induction false} FragmentsPartition(flight: seq<OutgoingMessage>, start: nat, c: Cursor, records: seq<Sent>, d: Cursor, i: nat)
    requires Carries(flight, start, c, records, d) && CursorValid(flight, c)
    requires c.written <= i < d.written && i < |flight| && !flight[i].isCcs
    ensures i == c.written ==> c.offset <= |flight[i].Body()|
    ensures var pieces := Pieces(flight, start, c, records, d, i);
      && Flatten(pieces) == flight[i].Body()[if i == c.written then c.offset else 0..]
      && (if flight[i].Body() == [] then |pieces| == 1 else [] !in pieces)
    decreases |records|
  {
    CarriesMovesOn(flight, start, c, records, d);
    var r := records[0];
    var c' := After(flight, start, c, r);
    var rest := Pieces(flight, start, c', records[1..], d, i);
    CarriesMovesOn(flight, start, c, [r], c') by { CarriesOne(flight, start, c, r); }
    if c.written == i {
      NextPiece(flight, start, c, r);
      var piece := r.plaintext[HM_HEADER_LENGTH..];
      assert Pieces(flight, start, c, records, d, i) == [piece] + rest;
      FlattenCons(piece, rest);
      hide IsNext, Flatten, Pieces;
      if c'.written == i {
        FragmentsPartition(flight, start, c', records[1..], d, i);
      } else {
        NoPiecesBehind(flight, start, c', records[1..], d, i);
        assert Flatten<byte>([]) == [] by { FlattenEmpty(); }
      }
    } else {
      assert Pieces(flight, start, c, records, d, i) == rest;
      hide IsNext, Flatten, Pieces;
      FragmentsPartition(flight, start, c', records[1..], d, i);
    }
  }

  lemma FlattenEmpty()
    ensures Flatten<byte>([]) == []
  {
  }
}

// How the queued flight and the record counters relate to what has been said.
module DtlsQueue {
  import opened Wire
  import opened Reassembly
  import opened DtlsCipher
  import opened DtlsSent
  import opened DtlsFlight

  ghost predicate MessageMatches(flight: seq<OutgoingMessage>, history: seq<Message>, start: nat, i: nat)
    requires i < |flight|
  {
    !flight[i].isCcs ==>
      && var k := Number(flight, start, i);
      && k < |history| && |history[k].body| < 0x100_0000
      && flight[i].data == Serialized(history[k], k)
      && flight[i].epoch == history[k].epoch
  }

  // The flight holds the last messages of the history, from start on.
  ghost predicate FlightMatches(flight: seq<OutgoingMessage>, history: seq<Message>, start: nat) {
    && |flight| <= FLIGHT
    && |history| == start + HandshakeCount(flight)
    && forall i | 0 <= i < |flight| :: MessageMatches(flight, history, start, i)
  }

  lemma AppendMatches(flight: seq<OutgoingMessage>, history: seq<Message>, start: nat, m: Message)
    requires FlightMatches(flight, history, start) && |flight| < FLIGHT && |m.body| < 0x100_0000
    ensures FlightMatches(flight + [OutgoingMessage(false, Serialized(m, |history|), m.epoch)], history + [m], start)
  {
    var flight' := flight + [OutgoingMessage(false, Serialized(m, |history|), m.epoch)];
    assert flight'[..|flight|] == flight;
    forall i | 0 <= i < |flight'|
      ensures MessageMatches(flight', history + [m], start, i)
    {
      assert flight'[..i] == flight[..i];
      if i < |flight| { assert MessageMatches(flight, history, start, i); } else { assert flight[..i] == flight; }
    }
  }

  lemma AppendCcsMatches(flight: seq<OutgoingMessage>, history: seq<Message>, start: nat, epoch: nat)
    requires FlightMatches(flight, history, start) && |flight| < FLIGHT
    ensures FlightMatches(flight + [OutgoingMessage(true, [], epoch)], history, start)
  {
    var flight' := flight + [OutgoingMessage(true, [], epoch)];
    assert flight'[..|flight|] == flight;
    forall i | 0 <= i < |flight|
      ensures MessageMatches(flight', history, start, i)
    {
      assert flight'[..i] == flight[..i];
      assert MessageMatches(flight, history, start, i);
    }
  }

  lemma MatchesAt(flight: seq<OutgoingMessage>, history: seq<Message>, start: nat, i: nat)
    requires FlightMatches(flight, history, start) && i < |flight| && !flight[i].isCcs
    ensures var k := Number(flight, start, i);
      && k < |history| <= start + FLIGHT && start <= k
      && |history[k].body| < 0x100_0000
      && flight[i].data == Serialized(history[k], k)
      && flight[i].epoch == history[k].epoch
  {
    assert MessageMatches(flight, history, start, i);
    HandshakeCountGrows(flight, i);
    HandshakeCountGrows(flight, 0);
  }

  // Every record so far has a number below the counter of its epoch.
  ghost predicate NumbersBelow(log: Log, epoch: nat, next: nat, last: nat) {
    && (forall i | 0 <= i < |log.history| :: log.history[i].epoch <= epoch)
    && (forall i | 0 <= i < |log.sent| :: Below(log.sent[i], epoch, next, last))
  }

  ghost predicate Below(r: Sent, epoch: nat, next: nat, last: nat) {
    && r.epoch <= epoch
    && (r.epoch == epoch ==> r.num < next)
    && (r.epoch + 1 == epoch ==> r.num < last)
  }

  // A record sealed with the counter of its epoch, which then moves on.
  lemma SealKeepsNumbers(log: Log, epoch: nat, next: nat, last: nat, r: Sent)
    requires NumbersBelow(log, epoch, next, last)
    requires (r.epoch == epoch && r.num == next) || (r.epoch + 1 == epoch && r.num == last)
    ensures NumbersBelow(log.(sent := log.sent + [r]), epoch,
                         if r.epoch == epoch then next + 1 else next, if r.epoch == epoch then last else last + 1)
    ensures forall i | 0 <= i < |log.sent| && log.sent[i].epoch == r.epoch :: log.sent[i].num < r.num
  {
    var log' := log.(sent := log.sent + [r]);
    forall i | 0 <= i < |log.sent|
      ensures Below(log'.sent[i], epoch, if r.epoch == epoch then next + 1 else next, if r.epoch == epoch then last else last + 1)
    {
      assert Below(log.sent[i], epoch, next, last);
    }
  }

  // dtls1_set_write_state: the old counter becomes the one for the last epoch.
  lemma NextEpochKeepsNumbers(log: Log, epoch: nat, next: nat, last: nat)
    requires NumbersBelow(log, epoch, next, last)
    ensures NumbersBelow(log, epoch + 1, 0, next)
  {
    forall i | 0 <= i < |log.sent|
      ensures Below(log.sent[i], epoch + 1, 0, next)
    {
      assert Below(log.sent[i], epoch, next, last);
    }
  }

  // The bytes of the first n messages as the handshake hash sees them: each as
  // if it had been sent in one piece.
  ghost function Transcript(history: seq<Message>, n: nat): seq<byte>
    requires n <= |history| && BodiesFit(history)
  {
    if n == 0 then [] else Transcript(history, n - 1) + Serialized(history[n - 1], n - 1)
  }

  lemma {:induction false} TranscriptPrefix(xs: seq<Message>, ys: seq<Message>, n: nat)
    requires xs <= ys && n <= |xs|
    requires BodiesFit(ys)
    ensures Transcript(xs, n) == Transcript(ys, n)
  {
    if n != 0 { TranscriptPrefix(xs, ys, n - 1); }
  }

  lemma AppendTranscript(history: seq<Message>, m: Message)
    requires |m.body| < 0x100_0000 && BodiesFit(history)
    ensures Transcript(history + [m], |history| + 1) == Transcript(history, |history|) + Serialized(m, |history|)
  {
    hide Serialized;
    TranscriptPrefix(history, history + [m], |history|);
  }

  // The record has a number that can be given out, and takes just the room it
  // needs under the cipher of its epoch.
  ghost predicate RecordOk(r: Sent, ciphers: seq<WriteAead>) {
    r.epoch < |ciphers| && r.num < LAST_RECORD_NUMBER && r.size == ciphers[r.epoch].RecordSize(|r.plaintext|)
  }

  ghost predicate RecordsOk(sent: seq<Sent>, ciphers: seq<WriteAead>) {
    forall i | 0 <= i < |sent| :: RecordOk(sent[i], ciphers)
  }

  lemma RecordsOkGrows(sent: seq<Sent>, ciphers: seq<WriteAead>, r: Sent)
    requires RecordsOk(sent, ciphers) && RecordOk(r, ciphers)
    ensures RecordsOk(sent + [r], ciphers)
  {
  }

  lemma RecordsOkUnderMore(sent: seq<Sent>, ciphers: seq<WriteAead>, next: WriteAead)
    requires RecordsOk(sent, ciphers)
    ensures RecordsOk(sent, ciphers + [next])
  {
    forall i | 0 <= i < |sent|
      ensures RecordOk(sent[i], ciphers + [next])
    {
      assert RecordOk(sent[i], ciphers);
    }
  }

  // The state of a sender, as far as the flight and its numbering go.
  datatype Sender = Sender(
    log: Log,
    flight: seq<OutgoingMessage>,  // outgoing_messages
    start: nat,                    // the number of the first message of the flight
    complete: bool,                // outgoing_messages_complete
    cursor: Cursor,                // outgoing_written and outgoing_offset
    epoch: nat,                    // w_epoch
    next: nat,                     // write_sequence
    last: nat,                     // last_write_sequence
    num: nat,                      // handshake_write_seq
    transcript: seq<byte>,
    ciphers: seq<WriteAead>        // the cipher of each write epoch so far
  ) {
    ghost predicate Valid() {
      && log.Valid()
      && FlightMatches(flight, log.history, start)
      && CursorValid(flight, cursor)
      && NumbersBelow(log, epoch, next, last)
      && (forall i | 0 <= i < |log.sent| && log.sent[i].k.Some? :: log.sent[i].k.value < |log.history|)
      && epoch < 0x1_0000 && next <= LAST_RECORD_NUMBER && last <= LAST_RECORD_NUMBER
      && num == MessageNumber(|log.history|)
      && BodiesFit(log.history)
      && transcript == Transcript(log.history, |log.history|)
      && |ciphers| == epoch + 1 && RecordsOk(log.sent, ciphers)
    }
  }

  const LAST_RECORD_NUMBER := 0xFFFF_FFFF_FFFF

  // A completed flight has been answered; a new message starts a new one.
  function OpenFlight(s: Sender): Sender {
    if s.complete then s.(flight := [], start := |s.log.history|, complete := false, cursor := Cursor(0, 0)) else s
  }

  function Queue(s: Sender, m: Message): Sender
    requires |m.body| < 0x100_0000
  {
    var data := Serialized(m, |s.log.history|);
    s.(log := s.log.(history := s.log.history + [m]),
       flight := s.flight + [OutgoingMessage(false, data, m.epoch)],
       num := (s.num + 1) % 0x1_0000,
       transcript := s.transcript + data)
  }

  function QueueCcs(s: Sender): Sender {
    s.(flight := s.flight + [OutgoingMessage(true, [], s.epoch)])
  }

  function NextEpoch(s: Sender, cipher: WriteAead): Sender {
    s.(epoch := s.epoch + 1, last := s.next, next := 0, ciphers := s.ciphers + [cipher])
  }

  // A record of the current epoch, or of the one before it, has been sealed.
  function Seal(s: Sender, r: Sent): Sender {
    s.(log := s.log.(sent := s.log.sent + [r]),
       next := if r.epoch == s.epoch then s.next + 1 else s.next,
       last := if r.epoch == s.epoch then s.last else s.last + 1)
  }

  lemma NewIsValid(s: Sender)
    requires s.log.history == [] && s.log.sent == [] && s.flight == [] && s.start == 0 && s.cursor == Cursor(0, 0)
    requires s.epoch == 0 && s.next == 0 && s.last == 0 && s.num == 0 && s.transcript == [] && |s.ciphers| == 1
    ensures s.Valid()
  {
  }

  lemma ValidFacts(s: Sender)
    requires s.Valid()
    ensures s.log.GrowsTo(s.log) && s.num == MessageNumber(|s.log.history|)
    ensures s.cursor.written <= |s.flight| <= FLIGHT
    ensures s.cursor.written == |s.flight| ==> s.cursor.offset == 0
    ensures CursorValid(s.flight, s.cursor) && s.epoch < 0x1_0000
  {
  }

  lemma CompleteKeepsValid(s: Sender)
    requires s.Valid()
    ensures s.(complete := true).Valid()
  {
  }

  lemma OpenFlightKeepsValid(s: Sender)
    requires s.Valid()
    ensures OpenFlight(s).Valid()
  {
  }

  lemma QueueKeepsValid(s: Sender, m: Message)
    requires s.Valid() && |s.flight| < FLIGHT && |m.body| < 0x100_0000 && m.epoch == s.epoch
    ensures Queue(s, m).Valid() && s.log.GrowsTo(Queue(s, m).log)
  {
    hide Serialized, Log.GrowsTo;
    AddMessageKeepsLog(s.log, m);
    AppendMatches(s.flight, s.log.history, s.start, m);
    AppendTranscript(s.log.history, m);
    hide Log.Valid, FlightMatches, Transcript;
  }

  lemma QueueCcsKeepsValid(s: Sender)
    requires s.Valid() && |s.flight| < FLIGHT
    ensures QueueCcs(s).Valid()
  {
    AppendCcsMatches(s.flight, s.log.history, s.start, s.epoch);
  }

  lemma NextEpochKeepsValid(s: Sender, cipher: WriteAead)
    requires s.Valid() && s.epoch + 1 < 0x1_0000
    ensures NextEpoch(s, cipher).Valid()
  {
    RecordsOkUnderMore(s.log.sent, s.ciphers, cipher);
    NextEpochKeepsNumbers(s.log, s.epoch, s.next, s.last);
  }

  // The record has the next number of the current epoch, or of the one before.
  ghost predicate Numbered(s: Sender, r: Sent) {
    || (r.epoch == s.epoch && r.num == s.next < LAST_RECORD_NUMBER)
    || (r.epoch + 1 == s.epoch && r.num == s.last < LAST_RECORD_NUMBER)
  }

  // Record r is a piece of the current message of the flight, sealed with the
  // counter of that message's epoch.
  ghost predicate Sealable(s: Sender, r: Sent) {
    && Numbered(s, r)
    && RecordOk(r, s.ciphers)
    && IsNext(s.flight, s.start, s.cursor, r)
    && (r.k.Some? ==>
          && var m := s.log.history[..];
          && r.k.value < |m| && |m[r.k.value].body| < 0x100_0000 && r.off + r.len <= |m[r.k.value].body|
          && r.plaintext == FragmentBytes(m[r.k.value], r.k.value, r.off, r.len))
  }

  lemma SealKeepsValid(s: Sender, r: Sent)
    requires s.Valid() && Sealable(s, r)
    ensures Seal(s, r).Valid() && s.log.GrowsTo(Seal(s, r).log)
    ensures Seal(s, r).(cursor := After(s.flight, s.start, s.cursor, r)).Valid()
  {
    hide FragmentBytes, Serialized, RecordOk;
    var i := s.cursor.written;
    RecordsOkGrows(s.log.sent, s.ciphers, r);
    SealKeepsNumbers(s.log, s.epoch, s.next, s.last, r);
    if r.k.Some? { MatchesAt(s.flight, s.log.history, s.start, i); }
    AddRecordKeepsLog(s.log, r);
    CarriesOne(s.flight, s.start, s.cursor, r);
    CarriesMovesOn(s.flight, s.start, s.cursor, [r], After(s.flight, s.start, s.cursor, r));
  }

  // At offset 0 the next message may be made the current one.
  lemma NextMessageStarts(s: Sender)
    requires s.Valid() && s.cursor.written < |s.flight| && s.cursor.offset == 0
    ensures s.(cursor := Cursor(s.cursor.written + 1, 0)).Valid()
  {
  }

  // The queued bytes parse as one whole fragment.
  lemma QueuedMessageParses(s: Sender)
    requires s.Valid() && s.cursor.written < |s.flight| && !s.flight[s.cursor.written].isCcs
    ensures var data, k := s.flight[s.cursor.written].data, Number(s.flight, s.start, s.cursor.written);
      && k < |s.log.history| && |s.log.history[k].body| < 0x100_0000
      && s.flight[s.cursor.written].epoch == s.log.history[k].epoch
      && s.flight[s.cursor.written].Body() == s.log.history[k].body
      && s.cursor.offset <= |s.log.history[k].body|
      && ParseFragment(data) == Some((Header(s.log.history[k].ty, |s.log.history[k].body|, MessageNumber(k), 0, |s.log.history[k].body|),
                                      s.log.history[k].body, []))
  {
    var i := s.cursor.written;
    MatchesAt(s.flight, s.log.history, s.start, i);
    var k := Number(s.flight, s.start, i);
    var m := s.log.history[k];
    var h := Header(m.ty, |m.body|, MessageNumber(k), 0, |m.body|);
    ParseOfHeaderBytes(h, m.body, []);
    assert Serialized(m, k) == HeaderBytes(h) + m.body + [];
    assert s.flight[i].Body() == m.body;
  }

  // The next piece of the current message, todo bytes long.
  lemma NextFragmentIsSealable(s: Sender, r: Sent, todo: nat)
    requires s.Valid() && s.cursor.written < |s.flight| && !s.flight[s.cursor.written].isCcs
    requires s.cursor.offset + todo <= |s.flight[s.cursor.written].Body()|
    requires todo == 0 ==> |s.flight[s.cursor.written].Body()| == 0
    requires r.epoch == s.flight[s.cursor.written].epoch && r.ty == 22 && RecordOk(r, s.ciphers)
    requires Numbered(s, r)
    requires var k := Number(s.flight, s.start, s.cursor.written);
      && r.k == Some(k) && r.off == s.cursor.offset && r.len == todo
      && k < |s.log.history| && |s.log.history[k].body| < 0x100_0000
      && r.off + todo <= |s.log.history[k].body|
      && r.plaintext == FragmentBytes(s.log.history[k], k, r.off, todo)
    ensures Sealable(s, r)
  {
    QueuedMessageParses(s);
    var body := s.flight[s.cursor.written].Body();
    assert r.plaintext[HM_HEADER_LENGTH..] == body[r.off..r.off + todo];
  }

  // Going back to where the flight was at some earlier point.
  lemma RewindKeepsValid(s: Sender, c: Cursor)
    requires s.Valid() && CursorValid(s.flight, c)
    ensures s.(cursor := c).Valid()
  {
  }
}
