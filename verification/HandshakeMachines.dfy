// The client and the server handshake machines, one step at a time (do_* in
// handshake_client.cc and handshake_server.cc), for TLS 1.0 to 1.2.
module HandshakeMachines {
  import opened Wire
  import opened HandshakeScript

  // What the driver has to resolve before the next step (ssl_hs_wait_t).
  // Failed(true) is a protocol error, Failed(false) a callback that refused.
  datatype Wait = Ok | Flush | ReadMessage | ReadCcs | Failed(protocol: bool)

  // How callbacks decide, where a step has one, and what goes into messages
  datatype Act = Go | Retry | Fail
  datatype Choice = Choice(act: Act, body: MsgType -> seq<byte>)

  datatype ClientState = StartConnect | EnterEarlyData | ReadServerHello | ReadServerCertificate | ReadCertificateStatus
                       | VerifyServerCertificate | ReadServerKeyExchange | ReadCertificateRequest | ReadServerHelloDone
                       | SendClientCertificate | SendClientKeyExchange | SendClientCertificateVerify | SendClientFinished
                       | FinishFlight | ReadSessionTicket | ClientProcessCcs | ReadServerFinished | FinishClient | ClientDone

  datatype ServerState = StartAccept | ReadClientHello | SelectCertificate | SelectParameters | SendServerHello | SendServerCertificate
                       | SendServerKeyExchange | SendServerHelloDone | ReadClientCertificate | VerifyClientCertificate
                       | ReadClientKeyExchange | ReadClientCertificateVerify | ReadChangeCipherSpec | ServerProcessCcs
                       | ReadNextProto | ReadChannelId | ReadClientFinished | SendServerFinished | FinishServer | ServerDone

  // hs->cert_request is what the client learns, the peer certificate what the server gets.
  datatype Client = Client(state: ClientState, wait: Wait, core: Core, certRequest: bool)
  datatype Server = Server(state: ServerState, wait: Wait, core: Core, peerCert: bool)

  const NEW_CORE: Core := Core(Transcript(Some([]), None, false), [], [])

  // ---- Helpers both machines use ----

  function Say(core: Core, ty: MsgType, ch: Choice): Core {
    Sent(core, Handshake(Msg(ty, ch.body(ty))))
  }

  function SayIf(b: bool, core: Core, ty: MsgType, ch: Choice): Core {
    if b then Say(core, ty, ch) else core
  }

  // ssl_send_finished
  function SayFinished(core: Core, f: Fns, isServer: bool): Core {
    var t := core.transcript;
    var core' := if t.hash.Some? then core else core.(transcript := t.(misused := true));
    Sent(core', Handshake(Msg(Finished, f.mac(if t.hash.Some? then t.hash.value else [], isServer))))
  }

  // The Finished the peer should send (ssl_get_finished)
  function ExpectedFinished(core: Core, f: Fns, isServer: bool): seq<byte> {
    f.mac(if core.transcript.hash.Some? then core.transcript.hash.value else [], isServer)
  }

  // transcript.buffer()
  function BufferRead(core: Core): seq<Msg> {
    if core.transcript.buffer.Some? then core.transcript.buffer.value else []
  }

  function Freed(core: Core): Core {
    core.(transcript := core.transcript.(buffer := None))
  }

  function FreedIf(b: bool, core: Core): Core {
    if b then Freed(core) else core
  }

  function NoteBufferRead(core: Core): Core {
    core.(transcript := core.transcript.(misused := core.transcript.misused || core.transcript.buffer.None?))
  }

  // The client's Certificate is empty when it has none.
  function CertBody(hasCert: bool, ch: Choice): seq<byte> {
    if hasCert then [1] + ch.body(Certificate) else []
  }

  // ---- The client ----

  function ClientExpect(c: Client, ty: MsgType, next: ClientState, wait: Wait): Client {
    if c.core.buf == [] then c.(wait := ReadMessage)
    else if c.core.buf[0].ty != ty then c.(wait := Failed(true))
    else c.(core := Read(c.core), state := next, wait := wait)
  }

  function ClientDo(p: Params, f: Fns, c: Client, ch: Choice): Client {
    if ch.act == Fail then c.(wait := Failed(false))
    else
      match c.state
      case StartConnect => c.(core := Say(c.core, ClientHello, ch), state := EnterEarlyData, wait := Flush)
      case EnterEarlyData => c.(state := ReadServerHello)
      case ReadServerHello =>
        if c.core.buf == [] then c.(wait := ReadMessage)
        else if c.core.buf[0].ty != ServerHello then c.(wait := Failed(true))
        else
          // With a session, or a cipher without certificates, no client certificate can follow.
          var hashed := Read(c.core.(transcript := InitHash(c.core.transcript)));
          c.(core := FreedIf(p.resumed || !p.certAuth, hashed), state := if p.resumed then ReadSessionTicket else ReadServerCertificate)
      case ReadServerCertificate =>
        if !p.certAuth then c.(state := ReadCertificateStatus) else ClientExpect(c, Certificate, ReadCertificateStatus, Ok)
      case ReadCertificateStatus =>
        if !p.status then c.(state := VerifyServerCertificate)
        else if c.core.buf != [] && c.core.buf[0].ty != CertificateStatus then c.(state := VerifyServerCertificate)
        else ClientExpect(c, CertificateStatus, VerifyServerCertificate, Ok)
      case VerifyServerCertificate => if p.certAuth && ch.act == Retry then c else c.(state := ReadServerKeyExchange)
      case ReadServerKeyExchange =>
        if c.core.buf != [] && c.core.buf[0].ty != ServerKeyExchange && !p.skeRequired then c.(state := ReadCertificateRequest)
        else ClientExpect(c, ServerKeyExchange, ReadCertificateRequest, Ok)
      case ReadCertificateRequest =>
        if !p.certAuth then c.(state := ReadServerHelloDone)
        else if c.core.buf != [] && c.core.buf[0].ty == ServerHelloDone then c.(core := Freed(c.core), state := ReadServerHelloDone)
        else
          var c' := ClientExpect(c, CertificateRequest, ReadServerHelloDone, Ok);
          if c'.state == ReadServerHelloDone then c'.(certRequest := true) else c'
      case ReadServerHelloDone => ClientExpect(c, ServerHelloDone, SendClientCertificate, Ok)
      case SendClientCertificate =>
        if !c.certRequest then c.(state := SendClientKeyExchange)
        else if ch.act == Retry then c
        else
          c.(core := Sent(FreedIf(!p.hasCert, c.core), Handshake(Msg(Certificate, CertBody(p.hasCert, ch)))), state := SendClientKeyExchange)
      case SendClientKeyExchange => c.(core := Say(c.core, ClientKeyExchange, ch), state := SendClientCertificateVerify)
      case SendClientCertificateVerify =>
        if !c.certRequest || !p.hasCert then c.(state := SendClientFinished)
        else if ch.act == Retry then c.(core := NoteBufferRead(c.core))
        else
          var signed := Sent(NoteBufferRead(c.core), Handshake(Msg(CertificateVerify, f.sign(BufferRead(c.core)))));
          c.(core := Freed(signed), state := SendClientFinished)
      case SendClientFinished =>
        if p.channelId && ch.act == Retry then c
        else
          var core := SayIf(p.channelId, SayIf(p.npn, Sent(c.core, ChangeCipherSpec), NextProto, ch), ChannelId, ch);
          c.(core := SayFinished(core, f, false), state := FinishFlight, wait := Flush)
      case FinishFlight => c.(state := if p.resumed then FinishClient else ReadSessionTicket)
      case ReadSessionTicket =>
        if !p.ticket then c.(state := ClientProcessCcs, wait := ReadCcs)
        else ClientExpect(c, NewSessionTicket, ClientProcessCcs, ReadCcs)
      case ClientProcessCcs => if c.core.buf != [] then c.(wait := Failed(true)) else c.(state := ReadServerFinished)
      case ReadServerFinished =>
        if c.core.buf != [] && c.core.buf[0].body != ExpectedFinished(c.core, f, true) then c.(wait := Failed(true))
        else ClientExpect(c, Finished, if p.resumed then SendClientFinished else FinishClient, Ok)
      case FinishClient => c.(state := ClientDone)
      case ClientDone => c
  }

  // The stage a client has come to
  function ClientPos(p: Params, s: ClientState, w: Wait): nat {
    match s
    case StartConnect => 0
    case EnterEarlyData => 1
    case ReadServerHello => 1
    case ReadServerCertificate => 2
    case ReadCertificateStatus => 3
    case VerifyServerCertificate => 4
    case ReadServerKeyExchange => 4
    case ReadCertificateRequest => 5
    case ReadServerHelloDone => 6
    case SendClientCertificate => 7
    case SendClientKeyExchange => 8
    case SendClientCertificateVerify => 9
    case SendClientFinished => if p.resumed then 5 else 10
    case FinishFlight => if p.resumed then 9 else 14
    case ReadSessionTicket => if p.resumed then 2 else 14
    case ClientProcessCcs => (if p.resumed then 3 else 15) + if w == ReadCcs then 0 else 1
    case ReadServerFinished => if p.resumed then 4 else 16
    case FinishClient => Stages(p)
    case ClientDone => Stages(p)
  }

  function ClientHalf(p: Params, c: Client, wire: seq<Item>): Half {
    Half(ClientPos(p, c.state, c.wait), c.core, wire)
  }

  ghost predicate ClientOk(p: Params, c: Client) {
    && (p.resumed ==> c.state in {StartConnect, EnterEarlyData, ReadServerHello, ReadSessionTicket, ClientProcessCcs, ReadServerFinished,
                                  SendClientFinished, FinishFlight, FinishClient, ClientDone})
    && c.certRequest == (!p.resumed && p.certRequest && ClientPos(p, c.state, c.wait) > 5)
    && c.wait != Failed(true)
    && (c.wait == Flush ==> c.state in {EnterEarlyData, FinishFlight})
    && (c.wait == ReadCcs ==> c.state == ClientProcessCcs)
    && (c.wait == ReadMessage ==> c.core.buf == [])
    && (c.wait == Ok && c.state == ClientProcessCcs ==> c.core.buf == [])
    && (c.wait in {Ok, ReadMessage, ReadCcs} && c.state !in {SendClientKeyExchange, SendClientCertificateVerify, SendClientFinished}
        ==> c.core.out == [])
    && (c.wait == ReadMessage ==> ClientReads(p, c.state))
  }

  // Where the client may wait for the server, with parameters that let it
  predicate ClientReads(p: Params, s: ClientState) {
    || s in {ReadServerHello, ReadServerCertificate, ReadCertificateStatus, ReadServerKeyExchange, ReadCertificateRequest, ReadServerHelloDone,
             ReadServerFinished}
    || (s == ReadSessionTicket && p.ticket)
  }

  // ---- The server ----

  function ServerExpect(s: Server, ty: MsgType, next: ServerState): Server {
    if s.core.buf == [] then s.(wait := ReadMessage)
    else if s.core.buf[0].ty != ty then s.(wait := Failed(true))
    else s.(core := Read(s.core), state := next)
  }

  function ServerDo(p: Params, f: Fns, s: Server, ch: Choice): Server {
    if ch.act == Fail then s.(wait := Failed(false))
    else
      match s.state
      case StartAccept => s.(state := ReadClientHello)
      case ReadClientHello =>
        if s.core.buf == [] then s.(wait := ReadMessage)
        else if s.core.buf[0].ty != ClientHello then s.(wait := Failed(true))
        else if ch.act == Retry then s
        else s.(state := SelectCertificate)
      case SelectCertificate =>
        if s.core.buf == [] then s.(wait := ReadMessage) else if ch.act == Retry then s else s.(state := SelectParameters)
      case SelectParameters =>
        if s.core.buf == [] then s.(wait := ReadMessage)
        else if ch.act == Retry then s
        else
          var hashed := Read(s.core.(transcript := InitHash(s.core.transcript)));
          s.(core := FreedIf(p.resumed || !p.certRequest, hashed), state := SendServerHello)
      case SendServerHello =>
        s.(core := Say(s.core, ServerHello, ch), state := if p.resumed then SendServerFinished else SendServerCertificate)
      case SendServerCertificate =>
        var core := SayIf(p.certAuth && p.status, SayIf(p.certAuth, s.core, Certificate, ch), CertificateStatus, ch);
        s.(core := core, state := SendServerKeyExchange)
      case SendServerKeyExchange =>
        if !p.skeRequired && !p.pskHint then s.(state := SendServerHelloDone)
        else if p.certAuth && ch.act == Retry then s
        else s.(core := Say(s.core, ServerKeyExchange, ch), state := SendServerHelloDone)
      case SendServerHelloDone =>
        s.(core := Say(SayIf(p.certRequest, s.core, CertificateRequest, ch), ServerHelloDone, ch), state := ReadClientCertificate, wait := Flush)
      case ReadClientCertificate =>
        if !p.certRequest then s.(state := VerifyClientCertificate)
        else
          var s' := ServerExpect(s, Certificate, VerifyClientCertificate);
          if s'.state != VerifyClientCertificate then s'
          else
            var empty := s.core.buf[0].body == [];
            s'.(core := FreedIf(empty, s'.core), peerCert := !empty)
      case VerifyClientCertificate => if s.peerCert && ch.act == Retry then s else s.(state := ReadClientKeyExchange)
      case ReadClientKeyExchange =>
        if s.core.buf != [] && s.core.buf[0].ty == ClientKeyExchange && ch.act == Retry then s
        else ServerExpect(s, ClientKeyExchange, ReadClientCertificateVerify)
      case ReadClientCertificateVerify =>
        if !s.peerCert then s.(core := Freed(s.core), state := ReadChangeCipherSpec)
        else if s.core.buf == [] then s.(wait := ReadMessage)
        else if s.core.buf[0].ty != CertificateVerify || s.core.buf[0].body != f.sign(BufferRead(s.core)) then s.(wait := Failed(true))
        else s.(core := Read(Freed(NoteBufferRead(s.core))), state := ReadChangeCipherSpec)
      case ReadChangeCipherSpec => s.(state := ServerProcessCcs, wait := ReadCcs)
      case ServerProcessCcs => if s.core.buf != [] then s.(wait := Failed(true)) else s.(state := ReadNextProto)
      case ReadNextProto => if !p.npn then s.(state := ReadChannelId) else ServerExpect(s, NextProto, ReadChannelId)
      case ReadChannelId => if !p.channelId then s.(state := ReadClientFinished) else ServerExpect(s, ChannelId, ReadClientFinished)
      case ReadClientFinished =>
        if s.core.buf != [] && s.core.buf[0].body != ExpectedFinished(s.core, f, false) then s.(wait := Failed(true))
        else ServerExpect(s, Finished, if p.resumed then FinishServer else SendServerFinished)
      case SendServerFinished =>
        var core := Sent(SayIf(p.ticket, s.core, NewSessionTicket, ch), ChangeCipherSpec);
        s.(core := SayFinished(core, f, true), state := if p.resumed then ReadChangeCipherSpec else FinishServer, wait := Flush)
      case FinishServer => s.(state := ServerDone)
      case ServerDone => s
  }

  function ServerPos(p: Params, s: ServerState, w: Wait): nat {
    match s
    case StartAccept => 0
    case ReadClientHello => 0
    case SelectCertificate => 0
    case SelectParameters => 0
    case SendServerHello => 1
    case SendServerCertificate => 2
    case SendServerKeyExchange => 4
    case SendServerHelloDone => 5
    case ReadClientCertificate => 7
    case VerifyClientCertificate => 8
    case ReadClientKeyExchange => 8
    case ReadClientCertificateVerify => 9
    case ReadChangeCipherSpec => if p.resumed then 5 else 10
    case ServerProcessCcs => (if p.resumed then 5 else 10) + if w == ReadCcs then 0 else 1
    case ReadNextProto => if p.resumed then 6 else 11
    case ReadChannelId => if p.resumed then 7 else 12
    case ReadClientFinished => if p.resumed then 8 else 13
    case SendServerFinished => if p.resumed then 2 else 14
    case FinishServer => Stages(p)
    case ServerDone => Stages(p)
  }

  function ServerHalf(p: Params, s: Server, wire: seq<Item>): Half {
    Half(ServerPos(p, s.state, s.wait), s.core, wire)
  }

  ghost predicate ServerOk(p: Params, s: Server) {
    && (p.resumed ==> s.state in {StartAccept, ReadClientHello, SelectCertificate, SelectParameters, SendServerHello, SendServerFinished,
                                  ReadChangeCipherSpec, ServerProcessCcs, ReadNextProto, ReadChannelId, ReadClientFinished, FinishServer, ServerDone})
    && s.peerCert == (!p.resumed && p.certRequest && p.hasCert && ServerPos(p, s.state, s.wait) > 7)
    && s.wait != Failed(true)
    && (s.wait == Flush ==> s.state in {ReadClientCertificate, ReadChangeCipherSpec, FinishServer})
    && (s.wait == ReadCcs ==> s.state == ServerProcessCcs)
    && (s.wait == ReadMessage ==> s.core.buf == [])
    && (s.wait == Ok && s.state == ServerProcessCcs ==> s.core.buf == [])
    && (s.state in {SelectCertificate, SelectParameters} ==> s.core.buf != [])
    && (s.wait in {Ok, ReadMessage, ReadCcs} && s.state !in {SendServerCertificate, SendServerKeyExchange, SendServerHelloDone, SendServerFinished}
        ==> s.core.out == [])
    && (s.wait == ReadMessage ==> ServerReads(p, s.state))
  }

  predicate ServerReads(p: Params, s: ServerState) {
    || s in {ReadClientHello, ReadClientKeyExchange, ReadClientFinished}
    || (s == ReadClientCertificate && p.certRequest) || (s == ReadClientCertificateVerify && p.certRequest && p.hasCert)
    || (s == ReadNextProto && p.npn) || (s == ReadChannelId && p.channelId)
  }
}
