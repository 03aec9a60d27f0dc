// What a TLS 1.0 to 1.2 handshake looks like as a whole (section 7.3 of
// RFC 5246): the stages both sides go through, and what is kept when one of
// them sends, reads or skips a stage.
module HandshakeScript {
  import opened Wire

  datatype MsgType = ClientHello | ServerHello | Certificate | CertificateStatus | ServerKeyExchange | CertificateRequest
                   | ServerHelloDone | ClientKeyExchange | CertificateVerify | NextProto | ChannelId | Finished | NewSessionTicket

  datatype Msg = Msg(ty: MsgType, body: seq<byte>)

  datatype Item = Handshake(m: Msg) | ChangeCipherSpec

  // What both sides agreed on.  hasCert is whether the client has a
  // certificate to send, pskHint whether a PSK server gives a hint.
  datatype Params = Params(resumed: bool, certAuth: bool, status: bool, skeRequired: bool, pskHint: bool, certRequest: bool,
                           hasCert: bool, ticket: bool, npn: bool, channelId: bool)

  // A CertificateRequest is sent only with ciphers that use certificates.
  ghost predicate ParamsOk(p: Params) {
    p.certRequest ==> p.certAuth
  }

  // The MAC of a Finished message and the signature of a CertificateVerify,
  // over a transcript
  datatype Fns = Fns(mac: (seq<Msg>, bool) -> seq<byte>, sign: seq<Msg> -> seq<byte>)

  // ---- Stages ----

  function Stages(p: Params): nat {
    if p.resumed then 9 else 17
  }

  // None is a ChangeCipherSpec.
  function Kind(p: Params, k: nat): Option<MsgType> {
    if k == 0 then Some(ClientHello)
    else if k == 1 then Some(ServerHello)
    else if p.resumed then
      if k == 2 then Some(NewSessionTicket)
      else if k == 3 || k == 5 then None
      else if k == 6 then Some(NextProto)
      else if k == 7 then Some(ChannelId)
      else Some(Finished)
    else if k == 2 || k == 7 then Some(Certificate)
    else if k == 3 then Some(CertificateStatus)
    else if k == 4 then Some(ServerKeyExchange)
    else if k == 5 then Some(CertificateRequest)
    else if k == 6 then Some(ServerHelloDone)
    else if k == 8 then Some(ClientKeyExchange)
    else if k == 9 then Some(CertificateVerify)
    else if k == 10 || k == 15 then None
    else if k == 11 then Some(NextProto)
    else if k == 12 then Some(ChannelId)
    else if k == 14 then Some(NewSessionTicket)
    else Some(Finished)
  }

  predicate ByClient(p: Params, k: nat) {
    k == 0 || if p.resumed then k >= 5 else 7 <= k <= 13
  }

  predicate Present(p: Params, k: nat) {
    k < Stages(p)
    && (if p.resumed then (k == 2 ==> p.ticket) && (k == 6 ==> p.npn) && (k == 7 ==> p.channelId)
        else
          && (k == 2 ==> p.certAuth)
          && (k == 3 ==> p.certAuth && p.status)
          && (k == 4 ==> p.skeRequired || p.pskHint)
          && (k == 5 ==> p.certRequest)
          && (k == 7 ==> p.certRequest)
          && (k == 9 ==> p.certRequest && p.hasCert)
          && (k == 11 ==> p.npn)
          && (k == 12 ==> p.channelId)
          && (k == 14 ==> p.ticket))
  }

  // ---- The history of a handshake ----

  // One entry a stage, up to where the handshake has come
  type Log = seq<Option<Item>>

  function Items(log: Log): seq<Item> {
    if log == [] then []
    else (if log[0].Some? then [log[0].value] else []) + Items(log[1..])
  }

  function Msgs(log: Log): seq<Msg> {
    if log == [] then []
    else
      var last := log[|log| - 1];
      Msgs(log[..|log| - 1]) + if last.Some? && last.value.Handshake? then [last.value.m] else []
  }

  // The item belongs at stage k: its kind, and for what is computed from the
  // transcript, that it was computed from all before it.
  ghost predicate Fits(p: Params, f: Fns, log: Log, k: nat, item: Item)
    requires k <= |log|
  {
    && (match Kind(p, k)
        case None => item.ChangeCipherSpec?
        case Some(ty) => item.Handshake? && item.m.ty == ty)
    && (item.Handshake? && item.m.ty == Finished ==> item.m.body == f.mac(Msgs(log[..k]), !ByClient(p, k)))
    && (item.Handshake? && item.m.ty == CertificateVerify ==> item.m.body == f.sign(Msgs(log[..k])))
    && (item.Handshake? && item.m.ty == Certificate && ByClient(p, k) ==> (item.m.body == [] <==> !p.hasCert))
  }

  ghost predicate LogOk(p: Params, f: Fns, log: Log) {
    && |log| <= Stages(p)
    && forall k | 0 <= k < |log| :: (log[k].Some? <==> Present(p, k)) && (log[k].Some? ==> Fits(p, f, log, k, log[k].value))
  }

  lemma {:induction false} ItemsAppend(log: Log, x: Option<Item>)
    ensures Items(log + [x]) == Items(log) + if x.Some? then [x.value] else []
    decreases |log|
  {
    var head := if (log + [x])[0].Some? then [(log + [x])[0].value] else [];
    assert Items(log + [x]) == head + Items((log + [x])[1..]);
    if log == [] {
      assert (log + [x])[1..] == [];
    } else {
      assert (log + [x])[0] == log[0] && (log + [x])[1..] == log[1..] + [x];
      ItemsAppend(log[1..], x);
      assert Items(log) == head + Items(log[1..]);
    }
  }

  lemma MsgsAppend(log: Log, x: Option<Item>)
    ensures Msgs(log + [x]) == Msgs(log) + if x.Some? && x.value.Handshake? then [x.value.m] else []
  {
    assert (log + [x])[..|log|] == log;
  }

  lemma LogGrows(p: Params, f: Fns, log: Log, x: Option<Item>)
    requires LogOk(p, f, log) && |log| < Stages(p)
    requires (x.Some? <==> Present(p, |log|)) && (x.Some? ==> Fits(p, f, log, |log|, x.value))
    ensures LogOk(p, f, log + [x])
  {
    var log' := log + [x];
    assert forall k | 0 <= k <= |log| :: log'[..k] == log[..k];
    hide Kind, Present, ByClient, Msgs;
  }

  // ---- One side ----

  // SSLTranscript: before the cipher is known only the buffer, then the hash,
  // and the buffer until it is freed.  misused is set when the buffer or the
  // hash is read while it is not there.
  datatype Transcript = Transcript(buffer: Option<seq<Msg>>, hash: Option<seq<Msg>>, misused: bool)

  function Update(t: Transcript, m: Msg): Transcript {
    Transcript(if t.buffer.Some? then Some(t.buffer.value + [m]) else None, if t.hash.Some? then Some(t.hash.value + [m]) else None, t.misused)
  }

  // buf are messages received but not yet read, out those not yet flushed.
  datatype Core = Core(transcript: Transcript, buf: seq<Msg>, out: seq<Item>)

  // wire is what is on its way to this side.
  datatype Half = Half(pos: nat, core: Core, wire: seq<Item>)

  function AsItems(buf: seq<Msg>): seq<Item> {
    seq(|buf|, i requires 0 <= i < |buf| => Handshake(buf[i]))
  }

  // The stage at which a side initialises its hash
  function HashStage(isClient: bool): nat {
    if isClient then 1 else 0
  }

  // A CertificateVerify still needs the buffer, and so does InitHash.
  predicate NeedsBuffer(p: Params, pos: nat, isClient: bool) {
    pos <= HashStage(isClient) || (!p.resumed && p.certRequest && p.hasCert && pos <= 9)
  }

  // The transcript is exactly the messages this side has sent and read, once each and in order.
  ghost predicate TranscriptOk(p: Params, t: Transcript, msgs: seq<Msg>, pos: nat, isClient: bool) {
    && !t.misused
    && (t.hash.Some? <==> pos > HashStage(isClient))
    && (t.hash.Some? ==> t.hash.value == msgs)
    && (t.buffer.Some? ==> t.buffer.value == msgs)
    && (NeedsBuffer(p, pos, isClient) ==> t.buffer.Some?)
  }

  // From its own place on, everything was said by the other side.
  ghost predicate SideOk(p: Params, log: Log, h: Half, isClient: bool) {
    && h.pos <= |log|
    && (forall k | h.pos <= k < |log| && Present(p, k) :: ByClient(p, k) != isClient)
    && TranscriptOk(p, h.core.transcript, Msgs(log[..h.pos]), h.pos, isClient)
  }

  // What the reader has not yet read is what is received, on its way or not yet flushed.
  ghost predicate ChannelOk(log: Log, reader: Half, writer: Half)
    requires reader.pos <= |log|
  {
    AsItems(reader.core.buf) + reader.wire + writer.core.out == Items(log[reader.pos..])
  }

  ghost predicate PairOk(p: Params, f: Fns, log: Log, me: Half, other: Half, isClient: bool) {
    && LogOk(p, f, log)
    && SideOk(p, log, me, isClient) && SideOk(p, log, other, !isClient)
    && ChannelOk(log, me, other) && ChannelOk(log, other, me)
  }

  lemma PairIsSymmetric(p: Params, f: Fns, log: Log, me: Half, other: Half, isClient: bool)
    requires PairOk(p, f, log, me, other, isClient)
    ensures PairOk(p, f, log, other, me, !isClient)
  {
  }

  // ---- How one side moves on ----

  // The transcript after a stage
  function Heard(t: Transcript, x: Option<Item>): Transcript {
    if x.Some? && x.value.Handshake? then Update(t, x.value.m) else t
  }

  lemma TranscriptMovesOn(p: Params, t: Transcript, msgs: seq<Msg>, pos: nat, isClient: bool, x: Option<Item>)
    requires TranscriptOk(p, t, msgs, pos, isClient) && pos != HashStage(isClient)
    ensures TranscriptOk(p, Heard(t, x), msgs + (if x.Some? && x.value.Handshake? then [x.value.m] else []), pos + 1, isClient)
  {
    assert msgs + [] == msgs;
  }

  lemma SideMovesOn(p: Params, log: Log, h: Half, isClient: bool, h': Half)
    requires SideOk(p, log, h, isClient) && h.pos < |log| && h.pos != HashStage(isClient)
    requires h'.pos == h.pos + 1 && h'.core.transcript == Heard(h.core.transcript, log[h.pos])
    ensures SideOk(p, log, h', isClient)
  {
    hide TranscriptOk, Present, ByClient;
    assert log[..h.pos + 1] == log[..h.pos] + [log[h.pos]];
    MsgsAppend(log[..h.pos], log[h.pos]);
    TranscriptMovesOn(p, h.core.transcript, Msgs(log[..h.pos]), h.pos, isClient, log[h.pos]);
    hide Msgs;
  }

  // The other side says one thing more.
  lemma SideSeesMore(p: Params, log: Log, h: Half, isClient: bool, x: Option<Item>)
    requires SideOk(p, log, h, isClient) && (Present(p, |log|) ==> ByClient(p, |log|) != isClient)
    ensures SideOk(p, log + [x], h, isClient)
  {
    hide TranscriptOk, Present, ByClient, Msgs;
    assert (log + [x])[..h.pos] == log[..h.pos];
  }

  // ---- Sending ----

  // One's own present stage is always still to come for the whole handshake.
  lemma AtFrontier(p: Params, f: Fns, log: Log, me: Half, other: Half, isClient: bool)
    requires PairOk(p, f, log, me, other, isClient) && Present(p, me.pos) && ByClient(p, me.pos) == isClient
    ensures me.pos == |log|
  {
  }

  function Sent(core: Core, item: Item): Core {
    core.(out := core.out + [item], transcript := Heard(core.transcript, Some(item)))
  }

  lemma ChannelGrows(log: Log, reader: Half, writer: Half, x: Option<Item>, writer': Half)
    requires reader.pos <= |log| && ChannelOk(log, reader, writer)
    requires writer'.core.out == writer.core.out + if x.Some? then [x.value] else []
    ensures ChannelOk(log + [x], reader, writer')
  {
    hide Items;
    ItemsAppend(log[reader.pos..], x);
    assert (log + [x])[reader.pos..] == log[reader.pos..] + [x];
    assert AsItems(reader.core.buf) + reader.wire + writer'.core.out
        == AsItems(reader.core.buf) + reader.wire + writer.core.out + if x.Some? then [x.value] else [];
  }

  // A side at the frontier has nothing to read.
  lemma NothingToRead(log: Log, me: Half, other: Half, x: Option<Item>, me': Half, other': Half)
    requires me.pos == |log| && ChannelOk(log, me, other)
    requires me'.pos == |log| + 1 && me'.core.buf == me.core.buf && me'.wire == me.wire && other'.core.out == other.core.out
    ensures ChannelOk(log + [x], me', other')
  {
    assert log[me.pos..] == [] && (log + [x])[me'.pos..] == [];
  }

  lemma SenderMovesOn(p: Params, log: Log, h: Half, isClient: bool, x: Option<Item>, h': Half)
    requires SideOk(p, log, h, isClient) && h.pos == |log| && h.pos != HashStage(isClient)
    requires h'.pos == h.pos + 1 && h'.core.transcript == Heard(h.core.transcript, x)
    ensures SideOk(p, log + [x], h', isClient)
  {
    hide TranscriptOk, Present, ByClient;
    assert log[..h.pos] == log && (log + [x])[..h'.pos] == log + [x];
    MsgsAppend(log, x);
    TranscriptMovesOn(p, h.core.transcript, Msgs(log), h.pos, isClient, x);
    hide Msgs;
  }

  lemma SendOne(p: Params, f: Fns, log: Log, me: Half, other: Half, isClient: bool, item: Item)
    requires PairOk(p, f, log, me, other, isClient) && Present(p, me.pos) && ByClient(p, me.pos) == isClient
    requires Fits(p, f, log, |log|, item) && me.pos != HashStage(isClient)
    ensures me.pos == |log| && PairOk(p, f, log + [Some(item)], me.(pos := me.pos + 1, core := Sent(me.core, item)), other, isClient)
  {
    var me' := me.(pos := me.pos + 1, core := Sent(me.core, item));
    AtFrontier(p, f, log, me, other, isClient);
    hide LogOk, SideOk, ChannelOk, Fits, ByClient, Kind;
    PresentIsStage(p, me.pos);
    LogGrows(p, f, log, Some(item));
    SenderMovesOn(p, log, me, isClient, Some(item), me');
    SideSeesMore(p, log, other, !isClient, Some(item));
    SideIsShort(p, log, other, !isClient);
    ChannelGrows(log, other, me, Some(item), me');
    NothingToRead(log, me, other, Some(item), me', other);
  }

  lemma PresentIsStage(p: Params, k: nat)
    requires Present(p, k)
    ensures k < Stages(p)
  {
  }

  lemma SideIsShort(p: Params, log: Log, h: Half, isClient: bool)
    requires SideOk(p, log, h, isClient)
    ensures h.pos <= |log|
  {
  }

  // ---- Skipping a stage that these parameters leave out ----

  lemma SkipOne(p: Params, f: Fns, log: Log, me: Half, other: Half, isClient: bool) returns (log': Log)
    requires PairOk(p, f, log, me, other, isClient) && me.pos < Stages(p) && !Present(p, me.pos) && me.pos > 1
    ensures PairOk(p, f, log', me.(pos := me.pos + 1), other, isClient)
    ensures log' == if me.pos == |log| then log + [None] else log
  {
    var me' := me.(pos := me.pos + 1);
    SideIsShort(p, log, me, isClient);
    SideIsShort(p, log, other, !isClient);
    if me.pos == |log| {
      log' := log + [None];
      hide LogOk, SideOk, ChannelOk, Present, ByClient;
      LogGrows(p, f, log, None);
      SenderMovesOn(p, log, me, isClient, None, me');
      SideSeesMore(p, log, other, !isClient, None);
      ChannelGrows(log, other, me, None, me');
      NothingToRead(log, me, other, None, me', other);
    } else {
      log' := log;
      assert log[me.pos].None?;
      hide LogOk, SideOk, Present, ByClient;
      SideMovesOn(p, log, me, isClient, me');
      assert log[me.pos..][1..] == log[me'.pos..];
      assert Items(log[me.pos..]) == [] + Items(log[me'.pos..]);
    }
  }

  // ---- Reading ----

  // The first present stage from a place on
  function FirstPresent(p: Params, k: nat): (j: nat)
    requires k <= Stages(p)
    ensures k <= j <= Stages(p) && (j < Stages(p) ==> Present(p, j)) && forall i | k <= i < j :: !Present(p, i)
    decreases Stages(p) - k
  {
    if k == Stages(p) || Present(p, k) then k else FirstPresent(p, k + 1)
  }

  lemma {:induction false} HeadItem(p: Params, f: Fns, log: Log, k: nat)
    requires LogOk(p, f, log) && k <= |log|
    ensures var j := FirstPresent(p, k);
      if j < |log| then Items(log[k..]) == [log[j].value] + Items(log[j + 1..]) && Fits(p, f, log, j, log[j].value)
      else Items(log[k..]) == []
    decreases |log| - k
  {
    hide Fits, Kind, ByClient, Present, Stages, Msgs;
    if k < |log| {
      assert log[k..][1..] == log[k + 1..];
      if !Present(p, k) {
        HeadItem(p, f, log, k + 1);
      }
    } else {
      assert log[k..] == [];
    }
  }

  // What is first in line belongs at the next present stage, and the other side said it.
  lemma NextInLine(p: Params, f: Fns, log: Log, me: Half, other: Half, isClient: bool)
    requires PairOk(p, f, log, me, other, isClient)
    requires AsItems(me.core.buf) + me.wire != []
    ensures var j := FirstPresent(p, me.pos);
      var first := (AsItems(me.core.buf) + me.wire)[0];
      j < |log| && Present(p, j) && ByClient(p, j) != isClient && log[j] == Some(first) && Fits(p, f, log, j, first)
  {
    HeadItem(p, f, log, me.pos);
    var queue := AsItems(me.core.buf) + me.wire;
    assert (queue + other.core.out)[0] == queue[0];
    hide Fits, Items, Kind, Present, ByClient, FirstPresent, TranscriptOk;
  }

  lemma LineAdvances(queue: seq<Item>, out: seq<Item>, log: Log, k: nat)
    requires k < |log| && log[k].Some? && queue != [] && queue + out == Items(log[k..])
    ensures queue[0] == log[k].value && queue[1..] + out == Items(log[k + 1..])
  {
    assert log[k..][0] == log[k] && log[k..][1..] == log[k + 1..];
    assert Items(log[k..]) == [log[k].value] + Items(log[k + 1..]);
    assert (queue + out)[0] == queue[0];
    assert queue[1..] + out == (queue + out)[1..];
    assert ([log[k].value] + Items(log[k + 1..]))[1..] == Items(log[k + 1..]);
  }

  function Read(core: Core): Core
    requires core.buf != []
  {
    core.(buf := core.buf[1..], transcript := Update(core.transcript, core.buf[0]))
  }

  // The queue of the reader moves up by one item.
  lemma ReaderAdvances(p: Params, f: Fns, log: Log, me: Half, other: Half, isClient: bool, me': Half)
    requires PairOk(p, f, log, me, other, isClient) && Present(p, me.pos) && AsItems(me.core.buf) + me.wire != []
    requires me'.pos == me.pos + 1 && me'.core.out == me.core.out
    requires AsItems(me'.core.buf) + me'.wire == (AsItems(me.core.buf) + me.wire)[1..]
    ensures me.pos < |log| && log[me.pos] == Some((AsItems(me.core.buf) + me.wire)[0]) && Fits(p, f, log, me.pos, log[me.pos].value)
    ensures ChannelOk(log, me', other) && other.pos <= |log| && ChannelOk(log, other, me')
  {
    var queue := AsItems(me.core.buf) + me.wire;
    NextInLine(p, f, log, me, other, isClient);
    assert FirstPresent(p, me.pos) == me.pos;
    LineAdvances(queue, other.core.out, log, me.pos);
    hide LogOk, Items, Kind, Present, ByClient, TranscriptOk, Fits, FirstPresent;
  }

  lemma ReadOne(p: Params, f: Fns, log: Log, me: Half, other: Half, isClient: bool)
    requires PairOk(p, f, log, me, other, isClient) && Present(p, me.pos) && me.core.buf != []
    requires me.pos != HashStage(isClient)
    ensures Fits(p, f, log, me.pos, Handshake(me.core.buf[0])) && me.pos < |log|
    ensures PairOk(p, f, log, me.(pos := me.pos + 1, core := Read(me.core)), other, isClient)
  {
    var me' := me.(pos := me.pos + 1, core := Read(me.core));
    assert (AsItems(me.core.buf) + me.wire)[1..] == AsItems(me.core.buf[1..]) + me.wire;
    assert (AsItems(me.core.buf) + me.wire)[0] == Handshake(me.core.buf[0]);
    hide LogOk, SideOk, ChannelOk, Fits, Present, Kind, ByClient;
    ReaderAdvances(p, f, log, me, other, isClient, me');
    SideMovesOn(p, log, me, isClient, me');
  }

  // InitHash, then the message of the stage
  function InitHash(t: Transcript): Transcript {
    t.(hash := if t.buffer.Some? then t.buffer else Some([]), misused := t.misused || t.buffer.None?)
  }

  lemma HashStarts(p: Params, log: Log, h: Half, isClient: bool, h': Half)
    requires SideOk(p, log, h, isClient) && h.pos < |log| && h.pos == HashStage(isClient)
    requires log[h.pos].Some? && log[h.pos].value.Handshake?
    requires h'.pos == h.pos + 1 && h'.core.transcript == Update(InitHash(h.core.transcript), log[h.pos].value.m)
    ensures SideOk(p, log, h', isClient)
  {
    assert log[..h.pos + 1] == log[..h.pos] + [log[h.pos]];
    MsgsAppend(log[..h.pos], log[h.pos]);
    hide Msgs, ByClient;
  }

  lemma ReadHello(p: Params, f: Fns, log: Log, me: Half, other: Half, isClient: bool)
    requires PairOk(p, f, log, me, other, isClient) && me.core.buf != [] && me.pos == HashStage(isClient)
    ensures Fits(p, f, log, me.pos, Handshake(me.core.buf[0])) && me.pos < |log|
    ensures PairOk(p, f, log, me.(pos := me.pos + 1, core := Read(me.core.(transcript := InitHash(me.core.transcript)))), other, isClient)
  {
    var me' := me.(pos := me.pos + 1, core := Read(me.core.(transcript := InitHash(me.core.transcript))));
    assert Present(p, me.pos);
    assert (AsItems(me.core.buf) + me.wire)[1..] == AsItems(me.core.buf[1..]) + me.wire;
    assert (AsItems(me.core.buf) + me.wire)[0] == Handshake(me.core.buf[0]);
    hide LogOk, SideOk, ChannelOk, Fits, Present, Kind, ByClient;
    ReaderAdvances(p, f, log, me, other, isClient, me');
    HashStarts(p, log, me, isClient, me');
  }

  // Where a ChangeCipherSpec is due, nothing else is received, and it comes next.
  lemma ReadsCcs(p: Params, f: Fns, log: Log, me: Half, other: Half, isClient: bool)
    requires PairOk(p, f, log, me, other, isClient) && Present(p, me.pos) && Kind(p, me.pos) == None
    requires me.wire != [] && me.pos > 1
    ensures me.core.buf == [] && me.wire[0] == ChangeCipherSpec
    ensures PairOk(p, f, log, me.(pos := me.pos + 1, wire := me.wire[1..]), other, isClient)
  {
    var me' := me.(pos := me.pos + 1, wire := me.wire[1..]);
    NoMessageDue(p, f, log, me, other, isClient);
    assert AsItems(me.core.buf) == [] && [] + me.wire == me.wire;
    hide LogOk, SideOk, ChannelOk, Fits, Present, Kind, ByClient;
    ReaderAdvances(p, f, log, me, other, isClient, me');
    FitsCcs(p, f, log, me.pos, log[me.pos].value);
    SideMovesOn(p, log, me, isClient, me');
  }

  lemma FitsCcs(p: Params, f: Fns, log: Log, k: nat, item: Item)
    requires k <= |log| && Fits(p, f, log, k, item) && Kind(p, k) == None
    ensures item == ChangeCipherSpec
  {
  }

  lemma NoMessageDue(p: Params, f: Fns, log: Log, me: Half, other: Half, isClient: bool)
    requires PairOk(p, f, log, me, other, isClient) && Present(p, me.pos) && Kind(p, me.pos) == None
    ensures me.core.buf == []
  {
    hide Present, ByClient, LogOk, SideOk, ChannelOk;
    if me.core.buf != [] {
      NextInLine(p, f, log, me, other, isClient);
    }
  }

  // ---- Moving ----

  lemma FreeBuffer(p: Params, f: Fns, log: Log, me: Half, other: Half, isClient: bool)
    requires PairOk(p, f, log, me, other, isClient) && !NeedsBuffer(p, me.pos, isClient)
    ensures PairOk(p, f, log, me.(core := me.core.(transcript := me.core.transcript.(buffer := None))), other, isClient)
  {
    hide LogOk, Items, Msgs;
  }

  // The first n items of a flight go on their way.
  lemma Flushed(p: Params, f: Fns, log: Log, me: Half, other: Half, isClient: bool, n: nat)
    requires PairOk(p, f, log, me, other, isClient) && n <= |me.core.out|
    ensures PairOk(p, f, log, me.(core := me.core.(out := me.core.out[n..])), other.(wire := other.wire + me.core.out[..n]), isClient)
  {
    hide LogOk, Items, Msgs, SideOk;
    assert AsItems(other.core.buf) + (other.wire + me.core.out[..n]) + me.core.out[n..]
        == AsItems(other.core.buf) + other.wire + (me.core.out[..n] + me.core.out[n..]);
    assert me.core.out[..n] + me.core.out[n..] == me.core.out;
    MovesKeepSides(p, log, me, other, isClient, me.core.out[n..], other.wire + me.core.out[..n]);
  }

  lemma MovesKeepSides(p: Params, log: Log, me: Half, other: Half, isClient: bool, out: seq<Item>, wire: seq<Item>)
    requires SideOk(p, log, me, isClient) && SideOk(p, log, other, !isClient)
    ensures SideOk(p, log, me.(core := me.core.(out := out)), isClient) && SideOk(p, log, other.(wire := wire), !isClient)
    ensures me.pos <= |log| && other.pos <= |log|
  {
  }

  // n messages are taken off the wire.
  lemma Delivered(p: Params, f: Fns, log: Log, me: Half, other: Half, isClient: bool, msgs: seq<Msg>)
    requires PairOk(p, f, log, me, other, isClient) && AsItems(msgs) <= me.wire
    ensures PairOk(p, f, log, me.(core := me.core.(buf := me.core.buf + msgs), wire := me.wire[|msgs|..]), other, isClient)
  {
    TakenOff(me.core.buf, msgs, me.wire);
    hide LogOk, Items, Msgs, AsItems, TranscriptOk;
  }

  lemma TakenOff(buf: seq<Msg>, msgs: seq<Msg>, wire: seq<Item>)
    requires AsItems(msgs) <= wire
    ensures |msgs| <= |wire| && AsItems(buf + msgs) + wire[|msgs|..] == AsItems(buf) + wire
  {
    assert AsItems(buf + msgs) == AsItems(buf) + AsItems(msgs);
    assert AsItems(msgs) + wire[|msgs|..] == wire;
  }
}
