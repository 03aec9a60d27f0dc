// Each step of either machine keeps what holds between the two.
module HandshakeSteps {
  import opened Wire
  import opened HandshakeScript
  import opened HandshakeMachines

  // ---- What a step may do, in terms of the stages ----

  // Reading the message of a stage: it is of the type that is due.
  lemma ReadsDue(p: Params, f: Fns, log: Log, me: Half, other: Half, isClient: bool, ty: MsgType)
    requires PairOk(p, f, log, me, other, isClient) && Present(p, me.pos) && Kind(p, me.pos) == Some(ty)
    requires me.core.buf != [] && me.pos != HashStage(isClient)
    ensures me.pos < |log| && Fits(p, f, log, me.pos, Handshake(me.core.buf[0])) && me.core.buf[0].ty == ty
    ensures PairOk(p, f, log, me.(pos := me.pos + 1, core := Read(me.core)), other, isClient)
  {
    ReadOne(p, f, log, me, other, isClient);
    hide PairOk, Present;
  }

  lemma HelloDue(p: Params, f: Fns, log: Log, me: Half, other: Half, isClient: bool, ty: MsgType)
    requires PairOk(p, f, log, me, other, isClient) && me.pos == HashStage(isClient) && Kind(p, me.pos) == Some(ty)
    requires me.core.buf != []
    ensures me.core.buf[0].ty == ty
    ensures PairOk(p, f, log, me.(pos := me.pos + 1, core := Read(me.core.(transcript := InitHash(me.core.transcript)))), other, isClient)
  {
    ReadHello(p, f, log, me, other, isClient);
    hide PairOk, Present;
  }

  // The message that is there, where the stage itself may be left out
  lemma PeeksAt(p: Params, f: Fns, log: Log, me: Half, other: Half, isClient: bool) returns (j: nat)
    requires PairOk(p, f, log, me, other, isClient) && me.core.buf != []
    ensures me.pos <= j && Present(p, j) && Kind(p, j) == Some(me.core.buf[0].ty) && forall i | me.pos <= i < j :: !Present(p, i)
  {
    SideIsShort(p, log, me, isClient);
    NextInLine(p, f, log, me, other, isClient);
    j := FirstPresent(p, me.pos);
    assert (AsItems(me.core.buf) + me.wire)[0] == Handshake(me.core.buf[0]);
    hide PairOk, Present;
  }

  // Sending a message whose content nothing depends on
  lemma Says(p: Params, f: Fns, log: Log, me: Half, other: Half, isClient: bool, m: Msg) returns (log': Log)
    requires PairOk(p, f, log, me, other, isClient) && Present(p, me.pos) && ByClient(p, me.pos) == isClient
    requires Kind(p, me.pos) == Some(m.ty) && m.ty != Finished && m.ty != CertificateVerify && me.pos != HashStage(isClient)
    requires m.ty == Certificate && isClient ==> (m.body == [] <==> !p.hasCert)
    ensures PairOk(p, f, log', me.(pos := me.pos + 1, core := Sent(me.core, Handshake(m))), other, isClient)
    ensures log <= log'
  {
    AtFrontier(p, f, log, me, other, isClient);
    SendOne(p, f, log, me, other, isClient, Handshake(m));
    log' := log + [Some(Handshake(m))];
    hide PairOk, Present;
  }

  lemma SaysOptional(p: Params, f: Fns, log: Log, me: Half, other: Half, isClient: bool, ty: MsgType, ch: Choice, b: bool) returns (log': Log)
    requires PairOk(p, f, log, me, other, isClient) && me.pos < Stages(p) && (Present(p, me.pos) <==> b) && ByClient(p, me.pos) == isClient
    requires Kind(p, me.pos) == Some(ty) && ty != Finished && ty != CertificateVerify && me.pos > 1
    requires !(ty == Certificate && isClient)
    ensures PairOk(p, f, log', me.(pos := me.pos + 1, core := SayIf(b, me.core, ty, ch)), other, isClient)
    ensures log <= log'
  {
    hide PairOk, Present, Kind, ByClient;
    if b {
      log' := Says(p, f, log, me, other, isClient, Msg(ty, ch.body(ty)));
    } else {
      log' := SkipOne(p, f, log, me, other, isClient);
    }
  }

  lemma SaysCcs(p: Params, f: Fns, log: Log, me: Half, other: Half, isClient: bool) returns (log': Log)
    requires PairOk(p, f, log, me, other, isClient) && Present(p, me.pos) && ByClient(p, me.pos) == isClient
    requires Kind(p, me.pos) == None && me.pos > 1
    ensures PairOk(p, f, log', me.(pos := me.pos + 1, core := Sent(me.core, ChangeCipherSpec)), other, isClient)
    ensures log <= log'
  {
    AtFrontier(p, f, log, me, other, isClient);
    SendOne(p, f, log, me, other, isClient, ChangeCipherSpec);
    log' := log + [Some(ChangeCipherSpec)];
    hide PairOk, Present;
  }

  // The rolling hash of a side is all it has sent and read.
  lemma HashIsHistory(p: Params, f: Fns, log: Log, me: Half, other: Half, isClient: bool)
    requires PairOk(p, f, log, me, other, isClient) && me.pos > 1
    ensures me.pos <= |log| && me.core.transcript.hash == Some(Msgs(log[..me.pos]))
  {
  }

  lemma BufferIsHistory(p: Params, f: Fns, log: Log, me: Half, other: Half, isClient: bool)
    requires PairOk(p, f, log, me, other, isClient) && NeedsBuffer(p, me.pos, isClient)
    ensures me.pos <= |log| && me.core.transcript.buffer == Some(Msgs(log[..me.pos])) && !me.core.transcript.misused
  {
  }

  lemma SaysFinished(p: Params, f: Fns, log: Log, me: Half, other: Half, isClient: bool) returns (log': Log)
    requires PairOk(p, f, log, me, other, isClient) && Present(p, me.pos) && ByClient(p, me.pos) == isClient
    requires Kind(p, me.pos) == Some(Finished) && me.pos > 1
    ensures PairOk(p, f, log', me.(pos := me.pos + 1, core := SayFinished(me.core, f, !isClient)), other, isClient)
    ensures log <= log'
  {
    AtFrontier(p, f, log, me, other, isClient);
    HashIsHistory(p, f, log, me, other, isClient);
    assert log[..me.pos] == log;
    var item := Handshake(Msg(Finished, f.mac(Msgs(log), !isClient)));
    SendOne(p, f, log, me, other, isClient, item);
    log' := log + [Some(item)];
    hide PairOk, Present, Msgs;
  }

  // The Finished that comes is the one that is expected: both cover the same messages.
  lemma FinishedMatches(p: Params, f: Fns, log: Log, me: Half, other: Half, isClient: bool)
    requires PairOk(p, f, log, me, other, isClient) && Present(p, me.pos) && ByClient(p, me.pos) != isClient
    requires Kind(p, me.pos) == Some(Finished) && me.pos > 1 && me.core.buf != []
    ensures me.core.buf[0].ty == Finished && me.core.buf[0].body == ExpectedFinished(me.core, f, isClient)
    ensures PairOk(p, f, log, me.(pos := me.pos + 1, core := Read(me.core)), other, isClient)
  {
    HashIsHistory(p, f, log, me, other, isClient);
    ReadOne(p, f, log, me, other, isClient);
    hide PairOk, Present, Msgs;
  }

  // A CertificateVerify is signed and checked over the same messages.
  lemma VerifyMatches(p: Params, f: Fns, log: Log, me: Half, other: Half, isClient: bool)
    requires PairOk(p, f, log, me, other, isClient) && Present(p, me.pos) && Kind(p, me.pos) == Some(CertificateVerify)
    requires !p.resumed && me.pos == 9 && me.core.buf != []
    ensures me.core.buf[0].ty == CertificateVerify && me.core.buf[0].body == f.sign(BufferRead(me.core))
    ensures NoteBufferRead(me.core) == me.core
    ensures PairOk(p, f, log, me.(pos := 10, core := Read(Freed(me.core))), other, isClient)
  {
    BufferIsHistory(p, f, log, me, other, isClient);
    ReadOne(p, f, log, me, other, isClient);
    FreeBuffer(p, f, log, me.(pos := 10, core := Read(me.core)), other, isClient);
    assert Freed(Read(me.core)) == Read(Freed(me.core));
    hide PairOk, Present, Msgs;
  }

  lemma SaysVerify(p: Params, f: Fns, log: Log, me: Half, other: Half, isClient: bool) returns (log': Log)
    requires PairOk(p, f, log, me, other, isClient) && Present(p, me.pos) && ByClient(p, me.pos) == isClient
    requires Kind(p, me.pos) == Some(CertificateVerify) && !p.resumed && me.pos == 9
    ensures NoteBufferRead(me.core) == me.core
    ensures PairOk(p, f, log', me.(pos := 10, core := Freed(Sent(me.core, Handshake(Msg(CertificateVerify, f.sign(BufferRead(me.core))))))), other, isClient)
    ensures log <= log'
  {
    AtFrontier(p, f, log, me, other, isClient);
    BufferIsHistory(p, f, log, me, other, isClient);
    assert log[..me.pos] == log;
    var item := Handshake(Msg(CertificateVerify, f.sign(Msgs(log))));
    SendOne(p, f, log, me, other, isClient, item);
    log' := log + [Some(item)];
    FreeBuffer(p, f, log', me.(pos := 10, core := Sent(me.core, item)), other, isClient);
    hide PairOk, Present, Msgs;
  }

  // ---- The client ----

  // What one step has to keep
  ghost predicate ClientKept(p: Params, f: Fns, log: Log, c: Client, wire: seq<Item>, other: Half) {
    ClientOk(p, c) && PairOk(p, f, log, ClientHalf(p, c, wire), other, true)
  }

  lemma ClientHellos(p: Params, f: Fns, log: Log, c: Client, wire: seq<Item>, other: Half, ch: Choice) returns (log': Log)
    requires ParamsOk(p) && ClientKept(p, f, log, c, wire, other) && c.wait == Ok && ch.act != Fail
    requires c.state in {StartConnect, EnterEarlyData, ReadServerHello}
    ensures ClientKept(p, f, log', ClientDo(p, f, c, ch), wire, other) && log <= log'
  {
    var me, c' := ClientHalf(p, c, wire), ClientDo(p, f, c, ch);
    log' := log;
    hide PairOk;
    match c.state {
      case StartConnect =>
        log' := Says(p, f, log, me, other, true, Msg(ClientHello, ch.body(ClientHello)));
      case EnterEarlyData =>
      case ReadServerHello =>
        if c.core.buf != [] {
          HelloDue(p, f, log, me, other, true, ServerHello);
          var read := me.(pos := 2, core := Read(c.core.(transcript := InitHash(c.core.transcript))));
          if p.resumed || !p.certAuth {
            FreeBuffer(p, f, log, read, other, true);
          }
        }
    }
  }

  lemma ClientReadsServer(p: Params, f: Fns, log: Log, c: Client, wire: seq<Item>, other: Half, ch: Choice) returns (log': Log)
    requires ParamsOk(p) && ClientKept(p, f, log, c, wire, other) && c.wait == Ok && ch.act != Fail
    requires c.state in {ReadServerCertificate, ReadCertificateStatus, VerifyServerCertificate, ReadServerKeyExchange}
    ensures ClientKept(p, f, log', ClientDo(p, f, c, ch), wire, other) && log <= log'
  {
    var me, c' := ClientHalf(p, c, wire), ClientDo(p, f, c, ch);
    log' := log;
    hide PairOk;
    match c.state {
      case ReadServerCertificate =>
        if !p.certAuth {
          log' := SkipOne(p, f, log, me, other, true);
        } else if c.core.buf != [] {
          ReadsDue(p, f, log, me, other, true, Certificate);
        }
      case ReadCertificateStatus =>
        if !p.status || !p.certAuth {
          log' := log;
          if p.status && c.core.buf != [] {
            var j := PeeksAt(p, f, log, me, other, true);
          }
          if !p.status || c.core.buf != [] {
            log' := SkipOne(p, f, log, me, other, true);
          }
        } else if c.core.buf != [] {
          ReadsDue(p, f, log, me, other, true, CertificateStatus);
        }
      case VerifyServerCertificate =>
      case ReadServerKeyExchange =>
        if c.core.buf != [] {
          if p.skeRequired || p.pskHint {
            ReadsDue(p, f, log, me, other, true, ServerKeyExchange);
          } else {
            var j := PeeksAt(p, f, log, me, other, true);
            log' := SkipOne(p, f, log, me, other, true);
          }
        }
    }
  }

  lemma ClientReadsRequest(p: Params, f: Fns, log: Log, c: Client, wire: seq<Item>, other: Half, ch: Choice) returns (log': Log)
    requires ParamsOk(p) && ClientKept(p, f, log, c, wire, other) && c.wait == Ok && ch.act != Fail
    requires c.state in {ReadCertificateRequest, ReadServerHelloDone}
    ensures ClientKept(p, f, log', ClientDo(p, f, c, ch), wire, other) && log <= log'
  {
    var me, c' := ClientHalf(p, c, wire), ClientDo(p, f, c, ch);
    log' := log;
    hide PairOk;
    match c.state {
      case ReadCertificateRequest =>
        if !p.certAuth {
          log' := SkipOne(p, f, log, me, other, true);
        } else if c.core.buf != [] {
          if p.certRequest {
            ReadsDue(p, f, log, me, other, true, CertificateRequest);
          } else {
            var j := PeeksAt(p, f, log, me, other, true);
            assert Present(p, 6) && j == 6;
            log' := SkipOne(p, f, log, me, other, true);
            FreeBuffer(p, f, log', me.(pos := 6), other, true);
          }
        }
      case ReadServerHelloDone =>
        if c.core.buf != [] {
          ReadsDue(p, f, log, me, other, true, ServerHelloDone);
        }
    }
  }

  lemma ClientSends(p: Params, f: Fns, log: Log, c: Client, wire: seq<Item>, other: Half, ch: Choice) returns (log': Log)
    requires ParamsOk(p) && ClientKept(p, f, log, c, wire, other) && c.wait == Ok && ch.act != Fail
    requires c.state in {SendClientCertificate, SendClientKeyExchange, SendClientCertificateVerify}
    ensures ClientKept(p, f, log', ClientDo(p, f, c, ch), wire, other) && log <= log'
  {
    var me, c' := ClientHalf(p, c, wire), ClientDo(p, f, c, ch);
    log' := log;
    hide PairOk;
    match c.state {
      case SendClientCertificate =>
        if !p.certRequest {
          log' := SkipOne(p, f, log, me, other, true);
        } else if ch.act != Retry {
          var m := Msg(Certificate, CertBody(p.hasCert, ch));
          if !p.hasCert {
            FreeBuffer(p, f, log, me, other, true);
          }
          log' := Says(p, f, log, me.(core := FreedIf(!p.hasCert, c.core)), other, true, m);
        }
      case SendClientKeyExchange =>
        log' := Says(p, f, log, me, other, true, Msg(ClientKeyExchange, ch.body(ClientKeyExchange)));
      case SendClientCertificateVerify =>
        if !p.certRequest || !p.hasCert {
          log' := SkipOne(p, f, log, me, other, true);
        } else if ch.act == Retry {
          BufferIsHistory(p, f, log, me, other, true);
        } else {
          log' := SaysVerify(p, f, log, me, other, true);
        }
    }
  }

  // ChangeCipherSpec, then what goes under the new cipher
  function ClosingFlight(p: Params, f: Fns, core: Core, ch: Choice): Core {
    SayFinished(SayIf(p.channelId, SayIf(p.npn, Sent(core, ChangeCipherSpec), NextProto, ch), ChannelId, ch), f, false)
  }

  lemma ClosingStages(p: Params, k: nat)
    requires k == if p.resumed then 5 else 10
    ensures Stages(p) >= k + 4 && Present(p, k) && Kind(p, k) == None && Present(p, k + 3) && Kind(p, k + 3) == Some(Finished)
    ensures (Present(p, k + 1) <==> p.npn) && Kind(p, k + 1) == Some(NextProto) && (Present(p, k + 2) <==> p.channelId) && Kind(p, k + 2) == Some(ChannelId)
    ensures ByClient(p, k) && ByClient(p, k + 1) && ByClient(p, k + 2) && ByClient(p, k + 3)
  {
  }

  lemma SaysClosingFlight(p: Params, f: Fns, log: Log, me: Half, other: Half, ch: Choice) returns (log': Log)
    requires PairOk(p, f, log, me, other, true) && me.pos == if p.resumed then 5 else 10
    ensures PairOk(p, f, log', me.(pos := me.pos + 4, core := ClosingFlight(p, f, me.core, ch)), other, true) && log <= log'
  {
    hide PairOk, SayFinished, SayIf, Present, Kind, ByClient, Stages;
    var k := me.pos;
    ClosingStages(p, k);
    log' := SaysCcs(p, f, log, me, other, true);
    var h1 := me.(pos := k + 1, core := Sent(me.core, ChangeCipherSpec));
    log' := SaysOptional(p, f, log', h1, other, true, NextProto, ch, p.npn);
    var h2 := h1.(pos := k + 2, core := SayIf(p.npn, h1.core, NextProto, ch));
    log' := SaysOptional(p, f, log', h2, other, true, ChannelId, ch, p.channelId);
    var h3 := h2.(pos := k + 3, core := SayIf(p.channelId, h2.core, ChannelId, ch));
    log' := SaysFinished(p, f, log', h3, other, true);
  }

  lemma ClientFinishes(p: Params, f: Fns, log: Log, c: Client, wire: seq<Item>, other: Half, ch: Choice) returns (log': Log)
    requires ParamsOk(p) && ClientKept(p, f, log, c, wire, other) && c.wait == Ok && ch.act != Fail && c.state == SendClientFinished
    ensures ClientKept(p, f, log', ClientDo(p, f, c, ch), wire, other) && log <= log'
  {
    var me, c' := ClientHalf(p, c, wire), ClientDo(p, f, c, ch);
    log' := log;
    hide PairOk, SayFinished, SayIf, Present, Kind;
    if !(p.channelId && ch.act == Retry) {
      log' := SaysClosingFlight(p, f, log, me, other, ch);
    }
  }

  lemma ClientReadsTicket(p: Params, f: Fns, log: Log, c: Client, wire: seq<Item>, other: Half, ch: Choice) returns (log': Log)
    requires ParamsOk(p) && ClientKept(p, f, log, c, wire, other) && c.wait == Ok && ch.act != Fail
    requires c.state == ReadSessionTicket
    ensures ClientKept(p, f, log', ClientDo(p, f, c, ch), wire, other) && log <= log'
  {
    var me, c' := ClientHalf(p, c, wire), ClientDo(p, f, c, ch);
    log' := log;
    hide PairOk;
    if !p.ticket {
      log' := SkipOne(p, f, log, me, other, true);
    } else if c.core.buf != [] {
      ReadsDue(p, f, log, me, other, true, NewSessionTicket);
    }
  }

  lemma ClientReadsFinished(p: Params, f: Fns, log: Log, c: Client, wire: seq<Item>, other: Half, ch: Choice) returns (log': Log)
    requires ParamsOk(p) && ClientKept(p, f, log, c, wire, other) && c.wait == Ok && ch.act != Fail
    requires c.state == ReadServerFinished
    ensures ClientKept(p, f, log', ClientDo(p, f, c, ch), wire, other) && log <= log'
  {
    var me, c' := ClientHalf(p, c, wire), ClientDo(p, f, c, ch);
    log' := log;
    hide PairOk, ExpectedFinished;
    if c.core.buf != [] {
      FinishedMatches(p, f, log, me, other, true);
    }
  }

  lemma ClientMoves(p: Params, f: Fns, log: Log, c: Client, wire: seq<Item>, other: Half, ch: Choice) returns (log': Log)
    requires ParamsOk(p) && ClientKept(p, f, log, c, wire, other) && c.wait == Ok && ch.act != Fail
    requires c.state in {FinishFlight, ClientProcessCcs, FinishClient, ClientDone}
    ensures ClientKept(p, f, log', ClientDo(p, f, c, ch), wire, other) && log <= log'
  {
    log' := log;
    hide PairOk, Present, Kind;
  }

  // Every step of the client keeps it, and none is a protocol error.
  lemma ClientStepKeeps(p: Params, f: Fns, log: Log, c: Client, wire: seq<Item>, other: Half, ch: Choice) returns (log': Log)
    requires ParamsOk(p) && ClientKept(p, f, log, c, wire, other) && c.wait == Ok
    ensures ClientKept(p, f, log', ClientDo(p, f, c, ch), wire, other) && log <= log'
  {
    if ch.act == Fail {
      log' := log;
      hide PairOk;
    } else {
      hide ClientKept, ClientDo, ParamsOk;
      if c.state in {StartConnect, EnterEarlyData, ReadServerHello} {
        log' := ClientHellos(p, f, log, c, wire, other, ch);
      } else if c.state in {ReadServerCertificate, ReadCertificateStatus, VerifyServerCertificate, ReadServerKeyExchange} {
        log' := ClientReadsServer(p, f, log, c, wire, other, ch);
      } else if c.state in {ReadCertificateRequest, ReadServerHelloDone} {
        log' := ClientReadsRequest(p, f, log, c, wire, other, ch);
      } else if c.state in {SendClientCertificate, SendClientKeyExchange, SendClientCertificateVerify} {
        log' := ClientSends(p, f, log, c, wire, other, ch);
      } else if c.state == SendClientFinished {
        log' := ClientFinishes(p, f, log, c, wire, other, ch);
      } else if c.state == ReadSessionTicket {
        log' := ClientReadsTicket(p, f, log, c, wire, other, ch);
      } else if c.state == ReadServerFinished {
        log' := ClientReadsFinished(p, f, log, c, wire, other, ch);
      } else {
        log' := ClientMoves(p, f, log, c, wire, other, ch);
      }
    }
  }

  // ---- The server ----

  ghost predicate ServerKept(p: Params, f: Fns, log: Log, s: Server, wire: seq<Item>, other: Half) {
    ServerOk(p, s) && PairOk(p, f, log, ServerHalf(p, s, wire), other, false)
  }

  lemma ServerPeeksHello(p: Params, f: Fns, log: Log, s: Server, wire: seq<Item>, other: Half, ch: Choice) returns (log': Log)
    requires ParamsOk(p) && ServerKept(p, f, log, s, wire, other) && s.wait == Ok && ch.act != Fail
    requires s.state in {StartAccept, ReadClientHello, SelectCertificate}
    ensures ServerKept(p, f, log', ServerDo(p, f, s, ch), wire, other) && log <= log'
  {
    var me, s' := ServerHalf(p, s, wire), ServerDo(p, f, s, ch);
    log' := log;
    hide PairOk;
    if s.core.buf != [] {
      HelloDue(p, f, log, me, other, false, ClientHello);
    }
  }

  lemma ServerReadsHello(p: Params, f: Fns, log: Log, s: Server, wire: seq<Item>, other: Half, ch: Choice) returns (log': Log)
    requires ParamsOk(p) && ServerKept(p, f, log, s, wire, other) && s.wait == Ok && ch.act != Fail
    requires s.state == SelectParameters
    ensures ServerKept(p, f, log', ServerDo(p, f, s, ch), wire, other) && log <= log'
  {
    var me, s' := ServerHalf(p, s, wire), ServerDo(p, f, s, ch);
    log' := log;
    hide PairOk;
    HelloDue(p, f, log, me, other, false, ClientHello);
    if p.resumed || !p.certRequest {
      var read := me.(pos := 1, core := Read(s.core.(transcript := InitHash(s.core.transcript))));
      FreeBuffer(p, f, log, read, other, false);
    }
  }

  lemma ServerSendsHello(p: Params, f: Fns, log: Log, s: Server, wire: seq<Item>, other: Half, ch: Choice) returns (log': Log)
    requires ParamsOk(p) && ServerKept(p, f, log, s, wire, other) && s.wait == Ok && ch.act != Fail
    requires s.state == SendServerHello
    ensures ServerKept(p, f, log', ServerDo(p, f, s, ch), wire, other) && log <= log'
  {
    var me, s' := ServerHalf(p, s, wire), ServerDo(p, f, s, ch);
    hide PairOk;
    log' := Says(p, f, log, me, other, false, Msg(ServerHello, ch.body(ServerHello)));
  }

  lemma ServerSendsCert(p: Params, f: Fns, log: Log, s: Server, wire: seq<Item>, other: Half, ch: Choice) returns (log': Log)
    requires ParamsOk(p) && ServerKept(p, f, log, s, wire, other) && s.wait == Ok && ch.act != Fail && s.state == SendServerCertificate
    ensures ServerKept(p, f, log', ServerDo(p, f, s, ch), wire, other) && log <= log'
  {
    var me, s' := ServerHalf(p, s, wire), ServerDo(p, f, s, ch);
    hide PairOk, SayIf;
    log' := SaysOptional(p, f, log, me, other, false, Certificate, ch, p.certAuth);
    var h1 := me.(pos := 3, core := SayIf(p.certAuth, s.core, Certificate, ch));
    log' := SaysOptional(p, f, log', h1, other, false, CertificateStatus, ch, p.certAuth && p.status);
  }

  lemma ServerSendsKey(p: Params, f: Fns, log: Log, s: Server, wire: seq<Item>, other: Half, ch: Choice) returns (log': Log)
    requires ParamsOk(p) && ServerKept(p, f, log, s, wire, other) && s.wait == Ok && ch.act != Fail && s.state == SendServerKeyExchange
    ensures ServerKept(p, f, log', ServerDo(p, f, s, ch), wire, other) && log <= log'
  {
    var me, s' := ServerHalf(p, s, wire), ServerDo(p, f, s, ch);
    log' := log;
    hide PairOk;
    if (!p.skeRequired && !p.pskHint) || !(p.certAuth && ch.act == Retry) {
      log' := SaysOptional(p, f, log, me, other, false, ServerKeyExchange, ch, p.skeRequired || p.pskHint);
    }
  }

  lemma ServerAsks(p: Params, f: Fns, log: Log, s: Server, wire: seq<Item>, other: Half, ch: Choice) returns (log': Log)
    requires ParamsOk(p) && ServerKept(p, f, log, s, wire, other) && s.wait == Ok && ch.act != Fail
    requires s.state == SendServerHelloDone
    ensures ServerKept(p, f, log', ServerDo(p, f, s, ch), wire, other) && log <= log'
  {
    var me, s' := ServerHalf(p, s, wire), ServerDo(p, f, s, ch);
    hide PairOk;
    log' := SaysOptional(p, f, log, me, other, false, CertificateRequest, ch, p.certRequest);
    var h1 := me.(pos := 6, core := SayIf(p.certRequest, s.core, CertificateRequest, ch));
    log' := Says(p, f, log', h1, other, false, Msg(ServerHelloDone, ch.body(ServerHelloDone)));
  }

  lemma ServerReadsCert(p: Params, f: Fns, log: Log, s: Server, wire: seq<Item>, other: Half, ch: Choice) returns (log': Log)
    requires ParamsOk(p) && ServerKept(p, f, log, s, wire, other) && s.wait == Ok && ch.act != Fail
    requires s.state == ReadClientCertificate
    ensures ServerKept(p, f, log', ServerDo(p, f, s, ch), wire, other) && log <= log'
  {
    var me, s' := ServerHalf(p, s, wire), ServerDo(p, f, s, ch);
    log' := log;
    hide PairOk;
    if !p.certRequest {
      log' := SkipOne(p, f, log, me, other, false);
    } else if s.core.buf != [] {
      ReadsDue(p, f, log, me, other, false, Certificate);
      if s.core.buf[0].body == [] {
        FreeBuffer(p, f, log, me.(pos := 8, core := Read(s.core)), other, false);
      }
    }
  }

  lemma ServerReadsKey(p: Params, f: Fns, log: Log, s: Server, wire: seq<Item>, other: Half, ch: Choice) returns (log': Log)
    requires ParamsOk(p) && ServerKept(p, f, log, s, wire, other) && s.wait == Ok && ch.act != Fail
    requires s.state in {VerifyClientCertificate, ReadClientKeyExchange}
    ensures ServerKept(p, f, log', ServerDo(p, f, s, ch), wire, other) && log <= log'
  {
    var me, s' := ServerHalf(p, s, wire), ServerDo(p, f, s, ch);
    log' := log;
    hide PairOk;
    if s.state == ReadClientKeyExchange && s.core.buf != [] {
      ReadsDue(p, f, log, me, other, false, ClientKeyExchange);
    }
  }

  lemma ServerReadsVerify(p: Params, f: Fns, log: Log, s: Server, wire: seq<Item>, other: Half, ch: Choice) returns (log': Log)
    requires ParamsOk(p) && ServerKept(p, f, log, s, wire, other) && s.wait == Ok && ch.act != Fail
    requires s.state == ReadClientCertificateVerify
    ensures ServerKept(p, f, log', ServerDo(p, f, s, ch), wire, other) && log <= log'
  {
    var me, s' := ServerHalf(p, s, wire), ServerDo(p, f, s, ch);
    log' := log;
    hide PairOk;
    if !s.peerCert {
      log' := SkipOne(p, f, log, me, other, false);
      FreeBuffer(p, f, log', me.(pos := 10), other, false);
    } else if s.core.buf != [] {
      VerifyMatches(p, f, log, me, other, false);
    }
  }

  lemma ServerReadsExtra(p: Params, f: Fns, log: Log, s: Server, wire: seq<Item>, other: Half, ch: Choice) returns (log': Log)
    requires ParamsOk(p) && ServerKept(p, f, log, s, wire, other) && s.wait == Ok && ch.act != Fail
    requires s.state in {ReadNextProto, ReadChannelId}
    ensures ServerKept(p, f, log', ServerDo(p, f, s, ch), wire, other) && log <= log'
  {
    var me, s' := ServerHalf(p, s, wire), ServerDo(p, f, s, ch);
    log' := log;
    hide PairOk;
    var due := if s.state == ReadNextProto then p.npn else p.channelId;
    if !due {
      log' := SkipOne(p, f, log, me, other, false);
    } else if s.core.buf != [] {
      ReadsDue(p, f, log, me, other, false, if s.state == ReadNextProto then NextProto else ChannelId);
    }
  }

  lemma ServerReadsFinished(p: Params, f: Fns, log: Log, s: Server, wire: seq<Item>, other: Half, ch: Choice) returns (log': Log)
    requires ParamsOk(p) && ServerKept(p, f, log, s, wire, other) && s.wait == Ok && ch.act != Fail
    requires s.state == ReadClientFinished
    ensures ServerKept(p, f, log', ServerDo(p, f, s, ch), wire, other) && log <= log'
  {
    var me, s' := ServerHalf(p, s, wire), ServerDo(p, f, s, ch);
    log' := log;
    hide PairOk, ExpectedFinished;
    if s.core.buf != [] {
      FinishedMatches(p, f, log, me, other, false);
    }
  }

  lemma ServerMoves(p: Params, f: Fns, log: Log, s: Server, wire: seq<Item>, other: Half, ch: Choice) returns (log': Log)
    requires ParamsOk(p) && ServerKept(p, f, log, s, wire, other) && s.wait == Ok && ch.act != Fail
    requires s.state in {ReadChangeCipherSpec, ServerProcessCcs, FinishServer, ServerDone}
    ensures ServerKept(p, f, log', ServerDo(p, f, s, ch), wire, other) && log <= log'
  {
    log' := log;
    hide PairOk, Present, Kind;
  }

  lemma ServerFinishes(p: Params, f: Fns, log: Log, s: Server, wire: seq<Item>, other: Half, ch: Choice) returns (log': Log)
    requires ParamsOk(p) && ServerKept(p, f, log, s, wire, other) && s.wait == Ok && ch.act != Fail && s.state == SendServerFinished
    ensures ServerKept(p, f, log', ServerDo(p, f, s, ch), wire, other) && log <= log'
  {
    var me, s' := ServerHalf(p, s, wire), ServerDo(p, f, s, ch);
    hide PairOk, SayFinished, SayIf;
    var k := me.pos;
    log' := SaysOptional(p, f, log, me, other, false, NewSessionTicket, ch, p.ticket);
    var h1 := me.(pos := k + 1, core := SayIf(p.ticket, s.core, NewSessionTicket, ch));
    log' := SaysCcs(p, f, log', h1, other, false);
    var h2 := h1.(pos := k + 2, core := Sent(h1.core, ChangeCipherSpec));
    log' := SaysFinished(p, f, log', h2, other, false);
  }

  // Every step of the server keeps it, and none is a protocol error.
  lemma ServerStepKeeps(p: Params, f: Fns, log: Log, s: Server, wire: seq<Item>, other: Half, ch: Choice) returns (log': Log)
    requires ParamsOk(p) && ServerKept(p, f, log, s, wire, other) && s.wait == Ok
    ensures ServerKept(p, f, log', ServerDo(p, f, s, ch), wire, other) && log <= log'
  {
    if ch.act == Fail {
      log' := log;
      hide PairOk;
    } else {
      hide ServerKept, ServerDo, ParamsOk;
      if s.state in {StartAccept, ReadClientHello, SelectCertificate} {
        log' := ServerPeeksHello(p, f, log, s, wire, other, ch);
      } else if s.state == SelectParameters {
        log' := ServerReadsHello(p, f, log, s, wire, other, ch);
      } else if s.state == SendServerHello {
        log' := ServerSendsHello(p, f, log, s, wire, other, ch);
      } else if s.state == SendServerCertificate {
        log' := ServerSendsCert(p, f, log, s, wire, other, ch);
      } else if s.state == SendServerKeyExchange {
        log' := ServerSendsKey(p, f, log, s, wire, other, ch);
      } else if s.state in {ReadNextProto, ReadChannelId} {
        log' := ServerReadsExtra(p, f, log, s, wire, other, ch);
      } else if s.state == SendServerHelloDone {
        log' := ServerAsks(p, f, log, s, wire, other, ch);
      } else if s.state == ReadClientCertificate {
        log' := ServerReadsCert(p, f, log, s, wire, other, ch);
      } else if s.state in {VerifyClientCertificate, ReadClientKeyExchange} {
        log' := ServerReadsKey(p, f, log, s, wire, other, ch);
      } else if s.state == ReadClientCertificateVerify {
        log' := ServerReadsVerify(p, f, log, s, wire, other, ch);
      } else if s.state == SendServerFinished {
        log' := ServerFinishes(p, f, log, s, wire, other, ch);
      } else if s.state == ReadClientFinished {
        log' := ServerReadsFinished(p, f, log, s, wire, other, ch);
      } else {
        log' := ServerMoves(p, f, log, s, wire, other, ch);
      }
    }
  }
}
