// What holds a side up and what makes it fail, whatever its peer sends: pending
// callbacks, Finished and CertificateVerify.
module HandshakeGuards {
  import opened Wire
  import opened HandshakeScript
  import opened HandshakeMachines
  import opened HandshakeRun

  // ---- Pending callbacks ----

  // Where a step asks a callback that may not have its answer yet: certificate
  // verification, client certificate, signature and Channel ID.
  predicate ClientAsks(p: Params, c: Client) {
    match c.state
    case VerifyServerCertificate => p.certAuth
    case SendClientCertificate => c.certRequest
    case SendClientCertificateVerify => c.certRequest && p.hasCert
    case SendClientFinished => p.channelId
    case _ => false
  }

  // On the server: early and certificate callbacks, session lookup, the
  // signature of the key exchange, certificate verification and decryption
  predicate ServerAsks(p: Params, s: Server) {
    match s.state
    case ReadClientHello => s.core.buf != [] && s.core.buf[0].ty == ClientHello
    case SelectCertificate => s.core.buf != []
    case SelectParameters => s.core.buf != []
    case SendServerKeyExchange => p.certAuth && (p.skeRequired || p.pskHint)
    case VerifyClientCertificate => s.peerCert
    case ReadClientKeyExchange => s.core.buf != [] && s.core.buf[0].ty == ClientKeyExchange
    case _ => false
  }

  // All of it but the note that an absent buffer was read
  predicate SameCore(a: Core, b: Core) {
    a.buf == b.buf && a.out == b.out && a.transcript.hash == b.transcript.hash && a.transcript.buffer == b.transcript.buffer
  }

  // A callback without an answer holds the client where it is, whatever the
  // state of its verification; the step then ends as it would have at once.
  lemma ClientRetries(p: Params, f: Fns, c: Client, ch: Choice, later: Choice)
    requires ClientAsks(p, c) && ch.act == Retry && later.act == Go
    ensures var held := ClientDo(p, f, c, ch);
      && held == c.(core := held.core) && SameCore(held.core, c.core)
      && (c.core.transcript.buffer.Some? ==> held == c)
      && ClientDo(p, f, held, later) == ClientDo(p, f, c, later)
    ensures ClientDo(p, f, c, later).state != c.state
  {
    hide Update, Say, SayIf, SayFinished, ExpectedFinished, CertBody;
  }

  // Where no callback is asked, it does not matter.
  lemma ClientDoesNotAsk(p: Params, f: Fns, c: Client, ch: Choice)
    requires !ClientAsks(p, c) && ch.act == Retry
    ensures ClientDo(p, f, c, ch) == ClientDo(p, f, c, ch.(act := Go))
  {
    hide Update, Sent, ExpectedFinished, InitHash, Read, Freed;
  }

  lemma ServerRetries(p: Params, f: Fns, s: Server, ch: Choice, later: Choice)
    requires ServerAsks(p, s) && ch.act == Retry && later.act == Go
    ensures ServerDo(p, f, s, ch) == s
    ensures ServerDo(p, f, s, later).state != s.state
  {
    hide Update, Say, SayIf, SayFinished, ExpectedFinished, InitHash, Read, Freed;
  }

  lemma ServerDoesNotAsk(p: Params, f: Fns, s: Server, ch: Choice)
    requires !ServerAsks(p, s) && ch.act == Retry
    ensures ServerDo(p, f, s, ch) == ServerDo(p, f, s, ch.(act := Go))
  {
    hide Update, Sent, ExpectedFinished, InitHash, Read, Freed;
  }

  // ---- Finished and CertificateVerify ----

  // What a MAC or signature covers
  function Covered(messages: Option<seq<Msg>>): seq<Msg> {
    if messages.Some? then messages.value else []
  }

  // First in line is the Finished of a peer that has the same transcript.
  predicate FinishedFits(f: Fns, core: Core, byServer: bool) {
    core.buf != [] && core.buf[0].ty == Finished && core.buf[0].body == f.mac(Covered(core.transcript.hash), byServer)
  }

  predicate VerifyFits(f: Fns, core: Core) {
    core.buf != [] && core.buf[0].ty == CertificateVerify && core.buf[0].body == f.sign(Covered(core.transcript.buffer))
  }

  // Any other message first in line is a protocol error; and this one is read,
  // and becomes part of the transcript.
  lemma ClientChecksFinished(p: Params, f: Fns, c: Client, ch: Choice)
    requires c.state == ReadServerFinished && c.wait == Ok && c.core.buf != [] && ch.act != Fail
    ensures ClientDo(p, f, c, ch).wait == Failed(true) <==> !FinishedFits(f, c.core, true)
    ensures FinishedFits(f, c.core, true) ==>
      ClientDo(p, f, c, ch) == c.(core := Read(c.core), state := if p.resumed then SendClientFinished else FinishClient)
    ensures !FinishedFits(f, c.core, true) ==> ClientDo(p, f, c, ch) == c.(wait := Failed(true))
  {
    hide Update;
  }

  lemma ServerChecksFinished(p: Params, f: Fns, s: Server, ch: Choice)
    requires s.state == ReadClientFinished && s.wait == Ok && s.core.buf != [] && ch.act != Fail
    ensures ServerDo(p, f, s, ch).wait == Failed(true) <==> !FinishedFits(f, s.core, false)
    ensures FinishedFits(f, s.core, false) ==>
      ServerDo(p, f, s, ch) == s.(core := Read(s.core), state := if p.resumed then FinishServer else SendServerFinished)
    ensures !FinishedFits(f, s.core, false) ==> ServerDo(p, f, s, ch) == s.(wait := Failed(true))
  {
    hide Update;
  }

  lemma ServerChecksVerify(p: Params, f: Fns, s: Server, ch: Choice)
    requires s.state == ReadClientCertificateVerify && s.wait == Ok && s.peerCert && s.core.buf != [] && ch.act != Fail
    ensures ServerDo(p, f, s, ch).wait == Failed(true) <==> !VerifyFits(f, s.core)
    ensures VerifyFits(f, s.core) ==> ServerDo(p, f, s, ch).state == ReadChangeCipherSpec
    ensures !VerifyFits(f, s.core) ==> ServerDo(p, f, s, ch) == s.(wait := Failed(true))
  {
    hide Update;
  }

  // ---- Messages ----

  // What a state has to do with the message first in line: nothing, it must be
  // of this type, or if it is not, it is left for a later state.
  datatype Due = Nothing | Must(ty: MsgType) | May(ty: MsgType)

  function ClientDue(p: Params, s: ClientState): Due {
    match s
    case ReadServerHello => Must(ServerHello)
    case ReadServerCertificate => if p.certAuth then Must(Certificate) else Nothing
    case ReadCertificateStatus => if p.status then May(CertificateStatus) else Nothing
    case ReadServerKeyExchange => if p.skeRequired then Must(ServerKeyExchange) else May(ServerKeyExchange)
    case ReadCertificateRequest => if p.certAuth then May(CertificateRequest) else Nothing
    case ReadServerHelloDone => Must(ServerHelloDone)
    case ReadSessionTicket => if p.ticket then Must(NewSessionTicket) else Nothing
    case ReadServerFinished => Must(Finished)
    case _ => Nothing
  }

  // One message is taken off the line, and joins the hash if there is one.
  predicate ReadsOne(before: Core, now: Core) {
    && before.buf != [] && now.buf == before.buf[1..] && now.out == before.out
    && (before.transcript.hash.Some? ==> now.transcript.hash == Some(before.transcript.hash.value + [before.buf[0]]))
  }

  // A client reads just what is due; it fails on any other message that it may
  // not leave for later, and waits where there is none.
  lemma ClientReadsWhatIsDue(p: Params, f: Fns, c: Client, ch: Choice)
    requires c.wait == Ok && ch.act == Go && ClientDue(p, c.state) != Nothing && c.state != ReadServerHello
    ensures var due, c' := ClientDue(p, c.state), ClientDo(p, f, c, ch);
      if c.core.buf == [] then c' == c.(wait := ReadMessage)
      else if c.core.buf[0].ty == due.ty then
        if due.ty == Finished && !FinishedFits(f, c.core, true) then c' == c.(wait := Failed(true))
        else ReadsOne(c.core, c'.core) && c'.state != c.state && !c'.wait.Failed?
      else if due.Must? || (due.ty == CertificateRequest && c.core.buf[0].ty != ServerHelloDone) then c' == c.(wait := Failed(true))
      else c'.core.buf == c.core.buf && c'.core.out == c.core.out && c'.core.transcript.hash == c.core.transcript.hash
           && c'.state != c.state && c'.wait == Ok
  {
  }

  lemma ClientReadsHello(p: Params, f: Fns, c: Client, ch: Choice)
    requires c.wait == Ok && ch.act == Go && c.state == ReadServerHello
    ensures var c' := ClientDo(p, f, c, ch);
      if c.core.buf == [] then c' == c.(wait := ReadMessage)
      else if c.core.buf[0].ty != ServerHello then c' == c.(wait := Failed(true))
      else
        // The hash starts with the messages in the buffer.
        && c'.state == (if p.resumed then ReadSessionTicket else ReadServerCertificate) && c'.wait == Ok
        && c'.core.buf == c.core.buf[1..]
        && c'.core.transcript.hash == Some(Covered(c.core.transcript.buffer) + [c.core.buf[0]])
  {
  }

  // Everywhere else nothing is read, and where the ChangeCipherSpec comes,
  // nothing may be left unread before it.
  lemma ClientReadsNothingElse(p: Params, f: Fns, c: Client, ch: Choice)
    requires c.wait == Ok && ch.act == Go && ClientDue(p, c.state) == Nothing
    ensures ClientDo(p, f, c, ch).core.buf == c.core.buf
    ensures ClientDo(p, f, c, ch).wait == Failed(true) <==> c.state == ClientProcessCcs && c.core.buf != []
  {
    hide Update;
  }

  function ServerDue(p: Params, s: Server): Due {
    match s.state
    case ReadClientCertificate => if p.certRequest then Must(Certificate) else Nothing
    case ReadClientKeyExchange => Must(ClientKeyExchange)
    case ReadClientCertificateVerify => if s.peerCert then Must(CertificateVerify) else Nothing
    case ReadNextProto => if p.npn then Must(NextProto) else Nothing
    case ReadChannelId => if p.channelId then Must(ChannelId) else Nothing
    case ReadClientFinished => Must(Finished)
    case _ => Nothing
  }

  lemma ServerReadsWhatIsDue(p: Params, f: Fns, s: Server, ch: Choice)
    requires s.wait == Ok && ch.act == Go && ServerDue(p, s) != Nothing
    ensures var due, s' := ServerDue(p, s), ServerDo(p, f, s, ch);
      if s.core.buf == [] then s' == s.(wait := ReadMessage)
      else if s.core.buf[0].ty != due.ty || (due.ty == Finished && !FinishedFits(f, s.core, false))
              || (due.ty == CertificateVerify && !VerifyFits(f, s.core)) then s' == s.(wait := Failed(true))
      else ReadsOne(s.core, s'.core) && s'.state != s.state && s'.wait == Ok
  {
  }

  // The ClientHello is looked at three times before it is read.
  lemma ServerReadsHello(p: Params, f: Fns, s: Server, ch: Choice)
    requires s.wait == Ok && ch.act == Go && s.state in {ReadClientHello, SelectCertificate, SelectParameters}
    ensures var s' := ServerDo(p, f, s, ch);
      if s.core.buf == [] then s' == s.(wait := ReadMessage)
      else if s.state == ReadClientHello then
        if s.core.buf[0].ty == ClientHello then s' == s.(state := SelectCertificate) else s' == s.(wait := Failed(true))
      else if s.state == SelectCertificate then s' == s.(state := SelectParameters)
      else
        && s'.state == SendServerHello && s'.wait == Ok && s'.core.buf == s.core.buf[1..]
        && s'.core.transcript.hash == Some(Covered(s.core.transcript.buffer) + [s.core.buf[0]])
  {
  }

  lemma ServerReadsNothingElse(p: Params, f: Fns, s: Server, ch: Choice)
    requires s.wait == Ok && ch.act == Go && ServerDue(p, s) == Nothing
    requires s.state !in {ReadClientHello, SelectCertificate, SelectParameters}
    ensures ServerDo(p, f, s, ch).core.buf == s.core.buf
    ensures ServerDo(p, f, s, ch).wait == Failed(true) <==> s.state == ServerProcessCcs && s.core.buf != []
  {
    hide Update;
  }

  // ---- Against any peer ----

  // What happens to one side: a step, the transport takes n items, or the first
  // n items of whatever the peer has sent arrive.
  datatype Call = Runs(ch: Choice) | Takes(n: nat) | Gets(wire: seq<Item>, n: nat)

  function ClientMove(p: Params, f: Fns, c: Client, call: Call): Option<Client> {
    match call
    case Runs(ch) => if c.wait != Ok then None else Some(ClientDo(p, f, c, ch))
    case Takes(n) =>
      if c.wait != Flush || n > |c.core.out| then None
      else Some(c.(core := Flushes(c.core, n), wait := if n == |c.core.out| then Ok else Flush))
    case Gets(wire, n) =>
      if !CanReceive(c.wait, wire, n) then None
      else
        var r := Received(c.wait, c.core, wire, n);
        Some(c.(wait := r.0, core := r.1))
  }

  function ServerMove(p: Params, f: Fns, s: Server, call: Call): Option<Server> {
    match call
    case Runs(ch) => if s.wait != Ok then None else Some(ServerDo(p, f, s, ch))
    case Takes(n) =>
      if s.wait != Flush || n > |s.core.out| then None
      else Some(s.(core := Flushes(s.core, n), wait := if n == |s.core.out| then Ok else Flush))
    case Gets(wire, n) =>
      if !CanReceive(s.wait, wire, n) then None
      else
        var r := Received(s.wait, s.core, wire, n);
        Some(s.(wait := r.0, core := r.1))
  }

  ghost predicate IsClientRun(p: Params, f: Fns, cs: seq<Client>, calls: seq<Call>) {
    && |cs| == |calls| + 1 && cs[0] == START.c
    && forall k | 0 <= k < |calls| :: ClientMove(p, f, cs[k], calls[k]) == Some(cs[k + 1])
  }

  ghost predicate IsServerRun(p: Params, f: Fns, ss: seq<Server>, calls: seq<Call>) {
    && |ss| == |calls| + 1 && ss[0] == START.s
    && forall k | 0 <= k < |calls| :: ServerMove(p, f, ss[k], calls[k]) == Some(ss[k + 1])
  }

  lemma ClientMoved(p: Params, f: Fns, cs: seq<Client>, calls: seq<Call>, k: nat)
    requires IsClientRun(p, f, cs, calls) && k < |calls|
    ensures ClientMove(p, f, cs[k], calls[k]) == Some(cs[k + 1])
  {
    hide ClientMove;
  }

  lemma ServerMoved(p: Params, f: Fns, ss: seq<Server>, calls: seq<Call>, k: nat)
    requires IsServerRun(p, f, ss, calls) && k < |calls|
    ensures ServerMove(p, f, ss[k], calls[k]) == Some(ss[k + 1])
  {
    hide ServerMove;
  }

  // The last time that something was not yet so
  lemma {:induction false} LastBefore<T>(ts: seq<T>, past: T -> bool) returns (k: nat)
    requires |ts| > 0 && !past(ts[0]) && past(ts[|ts| - 1])
    ensures k < |ts| - 1 && !past(ts[k]) && forall j | k < j < |ts| :: past(ts[j])
  {
    var init := ts[..|ts| - 1];
    if past(init[|init| - 1]) {
      k := LastBefore(init, past);
    } else {
      k := |ts| - 2;
    }
  }

  // Past the verification of the server's certificate, in a full handshake
  predicate Verified(c: Client) {
    c.state !in {StartConnect, EnterEarlyData, ReadServerHello, ReadServerCertificate, ReadCertificateStatus, VerifyServerCertificate}
  }

  // Past the server's Finished
  predicate Finishing(p: Params, c: Client) {
    if p.resumed then c.state !in {StartConnect, EnterEarlyData, ReadServerHello, ReadSessionTicket, ClientProcessCcs, ReadServerFinished}
    else c.state in {FinishClient, ClientDone}
  }

  lemma ClientVerifies(p: Params, f: Fns, c: Client, call: Call)
    requires !p.resumed && p.certAuth && ClientMove(p, f, c, call).Some? && !Verified(c) && Verified(ClientMove(p, f, c, call).value)
    ensures c.state == VerifyServerCertificate && call.Runs? && call.ch.act == Go
  {
    hide Update, Say, Read, InitHash;
  }

  lemma ClientFinishes(p: Params, f: Fns, c: Client, call: Call)
    requires ClientMove(p, f, c, call).Some? && !Finishing(p, c) && Finishing(p, ClientMove(p, f, c, call).value)
    ensures c.state == ReadServerFinished && call.Runs? && call.ch.act != Fail && FinishedFits(f, c.core, true)
  {
    hide Update, Say, SayIf, SayFinished, Sent, InitHash, CertBody;
    if c.state == ReadServerFinished && call.Runs? && call.ch.act != Fail && c.core.buf != [] {
      ClientChecksFinished(p, f, c, call.ch);
    }
  }

  // A client that is done has met, whatever it was sent, a Finished over its own
  // transcript; and where certificates are used, its callback had accepted the
  // server's before.
  lemma ClientDoneMeans(p: Params, f: Fns, cs: seq<Client>, calls: seq<Call>) returns (finished: nat, verified: nat)
    requires IsClientRun(p, f, cs, calls) && cs[|calls|].state == ClientDone
    ensures finished < |calls| && cs[finished].state == ReadServerFinished && FinishedFits(f, cs[finished].core, true)
    ensures calls[finished].Runs?
    ensures !p.resumed && p.certAuth ==>
      verified < finished && cs[verified].state == VerifyServerCertificate && calls[verified].Runs? && calls[verified].ch.act == Go
  {
    finished := LastBefore(cs, (c: Client) => Finishing(p, c));
    ClientMoved(p, f, cs, calls, finished);
    ClientFinishes(p, f, cs[finished], calls[finished]);
    verified := 0;
    if !p.resumed && p.certAuth {
      verified := LastBefore(cs[..finished + 1], (c: Client) => Verified(c));
      ClientMoved(p, f, cs, calls, verified);
      ClientVerifies(p, f, cs[verified], calls[verified]);
    }
    hide ClientMove, IsClientRun;
  }

  // The same for the server, and the certificate of its client
  predicate ClientVerified(s: Server) {
    s.state in {ReadClientKeyExchange, ReadClientCertificateVerify, ReadChangeCipherSpec, ServerProcessCcs, ReadNextProto, ReadChannelId,
                ReadClientFinished, SendServerFinished, FinishServer, ServerDone}
  }

  predicate SignatureChecked(s: Server) {
    s.state in {ReadChangeCipherSpec, ServerProcessCcs, ReadNextProto, ReadChannelId, ReadClientFinished, SendServerFinished, FinishServer, ServerDone}
  }

  predicate ServerFinishing(p: Params, s: Server) {
    s.state in {FinishServer, ServerDone} || (!p.resumed && s.state == SendServerFinished)
  }

  lemma ServerVerifies(p: Params, f: Fns, s: Server, call: Call)
    requires !p.resumed && ServerMove(p, f, s, call).Some? && !ClientVerified(s) && ClientVerified(ServerMove(p, f, s, call).value)
    ensures s.state == VerifyClientCertificate && s.peerCert == ServerMove(p, f, s, call).value.peerCert && call.Runs?
    ensures s.peerCert ==> call.ch.act == Go
  {
    hide Update, Say, SayIf, SayFinished, Sent, InitHash, Read, Freed;
  }

  lemma ServerChecksSignature(p: Params, f: Fns, s: Server, call: Call)
    requires !p.resumed && ServerMove(p, f, s, call).Some? && !SignatureChecked(s) && SignatureChecked(ServerMove(p, f, s, call).value)
    ensures s.state == ReadClientCertificateVerify && s.peerCert == ServerMove(p, f, s, call).value.peerCert && call.Runs?
    ensures s.peerCert ==> VerifyFits(f, s.core)
  {
    hide Update, Say, SayIf, SayFinished, Sent, InitHash;
  }

  lemma ServerFinishes(p: Params, f: Fns, s: Server, call: Call)
    requires ServerMove(p, f, s, call).Some? && !ServerFinishing(p, s) && ServerFinishing(p, ServerMove(p, f, s, call).value)
    ensures s.state == ReadClientFinished && call.Runs? && FinishedFits(f, s.core, false)
  {
    hide Update, Say, SayIf, SayFinished, Sent, InitHash;
  }

  lemma PeerCertStays(p: Params, f: Fns, s: Server, call: Call)
    requires ServerMove(p, f, s, call).Some? && s.state != ReadClientCertificate
    ensures ServerMove(p, f, s, call).value.peerCert == s.peerCert
  {
    hide Update, Say, SayIf, SayFinished, Sent, InitHash, Read, Freed;
  }

  lemma {:induction false} PeerCertSince(p: Params, f: Fns, ss: seq<Server>, calls: seq<Call>, k: nat, n: nat)
    requires IsServerRun(p, f, ss, calls) && k <= n < |ss| && forall j | k <= j < n :: ss[j].state != ReadClientCertificate
    ensures ss[n].peerCert == ss[k].peerCert
    decreases n
  {
    hide ServerMove;
    if k < n {
      PeerCertSince(p, f, ss, calls, k, n - 1);
      ServerMoved(p, f, ss, calls, n - 1);
      PeerCertStays(p, f, ss[n - 1], calls[n - 1]);
    }
  }

  // Behind the place of the signature, a client's certificate was accepted by
  // the callback, and the signature was checked.
  lemma CertificateMeans(p: Params, f: Fns, ss: seq<Server>, calls: seq<Call>, n: nat) returns (signed: nat, verified: nat)
    requires IsServerRun(p, f, ss, calls) && !p.resumed && n < |ss| && SignatureChecked(ss[n]) && ss[n].peerCert
    ensures verified < signed < n
    ensures ss[signed].state == ReadClientCertificateVerify && VerifyFits(f, ss[signed].core) && calls[signed].Runs?
    ensures ss[verified].state == VerifyClientCertificate && calls[verified].Runs? && calls[verified].ch.act == Go
  {
    hide ServerMove, VerifyFits;
    signed := LastBefore(ss[..n + 1], (s: Server) => SignatureChecked(s));
    ServerMoved(p, f, ss, calls, signed);
    assert forall j | signed < j <= n :: ss[..n + 1][j] == ss[j];
    PeerCertSince(p, f, ss, calls, signed + 1, n);
    ServerChecksSignature(p, f, ss[signed], calls[signed]);
    verified := LastBefore(ss[..signed + 1], (s: Server) => ClientVerified(s));
    ServerMoved(p, f, ss, calls, verified);
    assert forall j | verified < j <= signed :: ss[..signed + 1][j] == ss[j];
    PeerCertSince(p, f, ss, calls, verified + 1, signed);
    ServerVerifies(p, f, ss[verified], calls[verified]);
  }

  // A server that is done has met a Finished over its own transcript; and if it
  // holds a client's certificate, its callback had accepted it, and a signature
  // over all that was said so far had been checked.
  lemma ServerDoneMeans(p: Params, f: Fns, ss: seq<Server>, calls: seq<Call>) returns (finished: nat, signed: nat, verified: nat)
    requires IsServerRun(p, f, ss, calls) && ss[|calls|].state == ServerDone
    ensures finished < |calls| && ss[finished].state == ReadClientFinished && FinishedFits(f, ss[finished].core, false)
    ensures calls[finished].Runs?
    ensures !p.resumed && ss[|calls|].peerCert ==>
      && verified < signed < finished
      && ss[signed].state == ReadClientCertificateVerify && VerifyFits(f, ss[signed].core) && calls[signed].Runs?
      && ss[verified].state == VerifyClientCertificate && calls[verified].Runs? && calls[verified].ch.act == Go
  {
    hide ServerMove, FinishedFits, VerifyFits;
    finished := LastBefore(ss, (s: Server) => ServerFinishing(p, s));
    ServerMoved(p, f, ss, calls, finished);
    ServerFinishes(p, f, ss[finished], calls[finished]);
    signed, verified := 0, 0;
    if !p.resumed && ss[|calls|].peerCert {
      PeerCertSince(p, f, ss, calls, finished, |calls|);
      signed, verified := CertificateMeans(p, f, ss, calls, finished);
    }
  }
}
