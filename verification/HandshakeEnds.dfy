// The handshake comes to an end: with callbacks that agree and a transport
// that moves on, both sides reach Done, whatever the order of events.
module HandshakeEnds {
  import opened Wire
  import opened HandshakeScript
  import opened HandshakeMachines
  import opened HandshakeRun
  import opened HandshakeDriver

  // A callback that neither refuses nor asks to be called again, a transport
  // that takes something, or something that arrives
  ghost predicate Productive(w: World, e: Event) {
    match e
    case ClientRuns(ch) => ch.act == Go && w.c.state != ClientDone
    case ServerRuns(ch) => ch.act == Go && w.s.state != ServerDone
    case ClientFlushes(n) => n > 0 || w.c.core.out == []
    case ServerFlushes(n) => n > 0 || w.s.core.out == []
    case ClientReceives(_) => true
    case ServerReceives(_) => true
  }

  ghost predicate ProductiveRun(p: Params, f: Fns, w: World, es: seq<Event>)
    decreases |es|
  {
    es == [] || (Productive(w, es[0]) && Next(p, f, w, es[0]).Some? && ProductiveRun(p, f, Next(p, f, w, es[0]).value, es[1..]))
  }

  // ---- What there is left to do ----

  function Rank(wait: Wait): nat {
    match wait
    case Flush => 2
    case Ok => 1
    case _ => 0
  }

  const STEP := 100  // one step of a machine outweighs all that it says

  ghost function ClientWork(p: Params, c: Client): nat {
    STEP * ClientLeft(p, c.state) + 5 * |c.core.out| + Rank(c.wait)
  }

  ghost function ServerWork(p: Params, s: Server): nat {
    STEP * ServerLeft(p, s.state) + 5 * |s.core.out| + Rank(s.wait)
  }

  ghost function Work(p: Params, w: World): nat {
    ClientWork(p, w.c) + ServerWork(p, w.s) + 3 * |w.toClient| + 3 * |w.toServer|
  }

  lemma ClientSaysLittle(p: Params, f: Fns, c: Client, ch: Choice)
    ensures |ClientDo(p, f, c, ch).core.out| <= |c.core.out| + 4
    ensures ClientDo(p, f, c, ch).state == c.state ==> ClientDo(p, f, c, ch).core.out == c.core.out
  {
    if c.state in {StartConnect, SendClientCertificate, SendClientKeyExchange, SendClientCertificateVerify, SendClientFinished} {
      ClientSendsLittle(p, f, c, ch);
    } else {
      ClientSaysNothing(p, f, c, ch);
    }
    hide ClientDo;
  }

  lemma ClientSendsLittle(p: Params, f: Fns, c: Client, ch: Choice)
    requires c.state in {StartConnect, SendClientCertificate, SendClientKeyExchange, SendClientCertificateVerify, SendClientFinished}
    ensures |ClientDo(p, f, c, ch).core.out| <= |c.core.out| + 4
    ensures ClientDo(p, f, c, ch).state == c.state ==> ClientDo(p, f, c, ch).core.out == c.core.out
  {
    hide Update, BufferRead;
  }

  lemma ClientSaysNothing(p: Params, f: Fns, c: Client, ch: Choice)
    requires c.state !in {StartConnect, SendClientCertificate, SendClientKeyExchange, SendClientCertificateVerify, SendClientFinished}
    ensures ClientDo(p, f, c, ch).core.out == c.core.out
  {
    hide Update, InitHash, ExpectedFinished, Say, SayIf, SayFinished, Sent, BufferRead;
  }

  lemma ServerSaysLittle(p: Params, f: Fns, s: Server, ch: Choice)
    ensures |ServerDo(p, f, s, ch).core.out| <= |s.core.out| + 4
    ensures ServerDo(p, f, s, ch).state == s.state ==> ServerDo(p, f, s, ch).core.out == s.core.out
  {
    if s.state in {SendServerHello, SendServerCertificate, SendServerKeyExchange, SendServerHelloDone, SendServerFinished} {
      ServerSendsLittle(p, f, s, ch);
    } else {
      ServerSaysNothing(p, f, s, ch);
    }
    hide ServerDo;
  }

  lemma ServerSendsLittle(p: Params, f: Fns, s: Server, ch: Choice)
    requires s.state in {SendServerHello, SendServerCertificate, SendServerKeyExchange, SendServerHelloDone, SendServerFinished}
    ensures |ServerDo(p, f, s, ch).core.out| <= |s.core.out| + 4
    ensures ServerDo(p, f, s, ch).state == s.state ==> ServerDo(p, f, s, ch).core.out == s.core.out
  {
    hide Update, BufferRead;
  }

  lemma ServerSaysNothing(p: Params, f: Fns, s: Server, ch: Choice)
    requires s.state !in {SendServerHello, SendServerCertificate, SendServerKeyExchange, SendServerHelloDone, SendServerFinished}
    ensures ServerDo(p, f, s, ch).core.out == s.core.out
  {
    hide Update, InitHash, ExpectedFinished, Say, SayIf, SayFinished, Sent, BufferRead;
  }

  lemma ClientWorks(p: Params, f: Fns, c: Client, ch: Choice)
    requires c.wait == Ok && c.state != ClientDone && ch.act == Go
    ensures ClientWork(p, ClientDo(p, f, c, ch)) < ClientWork(p, c)
  {
    ClientSaysLittle(p, f, c, ch);
    ClientProgress(p, f, c, ch);
    hide ClientDo, ClientLeft;
  }

  lemma ServerWorks(p: Params, f: Fns, s: Server, ch: Choice)
    requires s.wait == Ok && s.state != ServerDone && ch.act == Go
    ensures ServerWork(p, ServerDo(p, f, s, ch)) < ServerWork(p, s)
  {
    ServerSaysLittle(p, f, s, ch);
    ServerProgress(p, f, s, ch);
    hide ServerDo, ServerLeft;
  }

  lemma ReceivingKeepsOut(wait: Wait, core: Core, wire: seq<Item>, n: nat)
    requires CanReceive(wait, wire, n)
    ensures Received(wait, core, wire, n).1.out == core.out && Rank(Received(wait, core, wire, n).0) <= 1
    ensures 1 <= n <= |wire|
  {
  }

  // Every productive event leaves less.
  lemma LessWork(p: Params, f: Fns, w: World, e: Event)
    requires Productive(w, e) && Next(p, f, w, e).Some?
    ensures Work(p, Next(p, f, w, e).value) < Work(p, w)
  {
    hide ClientLeft, ServerLeft, ClientDo, ServerDo, CanReceive, Received;
    match e
    case ClientRuns(ch) => ClientWorks(p, f, w.c, ch);
    case ServerRuns(ch) => ServerWorks(p, f, w.s, ch);
    case ClientFlushes(n) =>
    case ServerFlushes(n) =>
    case ClientReceives(n) => ReceivingKeepsOut(w.c.wait, w.c.core, w.toClient, n);
    case ServerReceives(n) => ReceivingKeepsOut(w.s.wait, w.s.core, w.toServer, n);
  }

  lemma {:induction false} RunIsBounded(p: Params, f: Fns, w: World, es: seq<Event>)
    requires ProductiveRun(p, f, w, es)
    ensures Run(p, f, w, es).Some? && |es| + Work(p, Run(p, f, w, es).value) <= Work(p, w)
    decreases |es|
  {
    if es != [] {
      LessWork(p, f, w, es[0]);
      RunIsBounded(p, f, Next(p, f, w, es[0]).value, es[1..]);
    }
  }

  // ---- Nothing fails, and something is always left to do ----

  lemma NothingRefused(p: Params, f: Fns, w: World, e: Event)
    requires Productive(w, e) && Next(p, f, w, e).Some? && w.c.wait != Failed(false) && w.s.wait != Failed(false)
    ensures Next(p, f, w, e).value.c.wait != Failed(false) && Next(p, f, w, e).value.s.wait != Failed(false)
  {
    match e
    case ClientRuns(ch) => ClientAgrees(p, f, w.c, ch);
    case ServerRuns(ch) => ServerAgrees(p, f, w.s, ch);
    case _ =>
  }

  lemma ClientAgrees(p: Params, f: Fns, c: Client, ch: Choice)
    requires ch.act == Go && c.wait == Ok
    ensures ClientDo(p, f, c, ch).wait != Failed(false)
  {
    hide Update, InitHash, Say, SayIf, SayFinished, Sent, Read, Freed, FreedIf, NoteBufferRead, ExpectedFinished, BufferRead, CertBody;
  }

  lemma ServerAgrees(p: Params, f: Fns, s: Server, ch: Choice)
    requires ch.act == Go && s.wait == Ok
    ensures ServerDo(p, f, s, ch).wait != Failed(false)
  {
    hide Update, InitHash, Say, SayIf, SayFinished, Sent, Read, Freed, FreedIf, NoteBufferRead, ExpectedFinished, BufferRead;
  }

  lemma {:induction false} NothingRefusedInRun(p: Params, f: Fns, w: World, es: seq<Event>)
    requires ProductiveRun(p, f, w, es) && w.c.wait != Failed(false) && w.s.wait != Failed(false)
    ensures Run(p, f, w, es).Some?
    ensures Run(p, f, w, es).value.c.wait != Failed(false) && Run(p, f, w, es).value.s.wait != Failed(false)
    decreases |es|
  {
    if es != [] {
      NothingRefused(p, f, w, es[0]);
      NothingRefusedInRun(p, f, Next(p, f, w, es[0]).value, es[1..]);
    }
  }

  // Where one can go on, there is a productive way.
  lemma ProductiveWay(p: Params, f: Fns, w: World, body: MsgType -> seq<byte>) returns (e: Event)
    requires CanGoOn(p, f, w)
    ensures Productive(w, e) && Next(p, f, w, e).Some?
  {
    hide ClientDo, ServerDo, Received;
    var ch := Choice(Go, body);
    if w.c.wait == Ok && w.c.state != ClientDone {
      e := ClientRuns(ch);
    } else if w.s.wait == Ok && w.s.state != ServerDone {
      e := ServerRuns(ch);
    } else if w.c.wait == Flush {
      e := ClientFlushes(|w.c.core.out|);
    } else if w.s.wait == Flush {
      e := ServerFlushes(|w.s.core.out|);
    } else if CanReceive(w.c.wait, w.toClient, 1) {
      e := ClientReceives(1);
    } else {
      e := ServerReceives(1);
    }
  }

  // Every run of such events, in any order, is of bounded length; and as long
  // as the sides are not both done, there is a next one.  So every such run
  // that is gone on with ends with both sides done.
  lemma HandshakeCompletes(p: Params, f: Fns, es: seq<Event>, body: MsgType -> seq<byte>) returns (e: Event)
    requires ParamsOk(p) && ProductiveRun(p, f, START, es)
    ensures Run(p, f, START, es).Some? && |es| <= Work(p, START)
    ensures var w := Run(p, f, START, es).value;
      (w.c.state == ClientDone && w.s.state == ServerDone) || (Productive(w, e) && Next(p, f, w, e).Some?)
  {
    RunIsBounded(p, f, START, es);
    NothingRefusedInRun(p, f, START, es);
    NoRunIsStuck(p, f, es);
    var w := Run(p, f, START, es).value;
    hide *;
    if CanGoOn(p, f, w) {
      e := ProductiveWay(p, f, w, body);
    } else {
      e := ClientFlushes(0);
    }
  }

  // In particular there is a run to the end.
  lemma {:induction false} RunToTheEnd(p: Params, f: Fns, es: seq<Event>, body: MsgType -> seq<byte>) returns (all: seq<Event>)
    requires ParamsOk(p) && ProductiveRun(p, f, START, es)
    ensures es <= all && ProductiveRun(p, f, START, all) && Run(p, f, START, all).Some?
    ensures Run(p, f, START, all).value.c.state == ClientDone && Run(p, f, START, all).value.s.state == ServerDone
    decreases Work(p, START) - |es|
  {
    var e := HandshakeCompletes(p, f, es, body);
    var w := Run(p, f, START, es).value;
    if w.c.state == ClientDone && w.s.state == ServerDone {
      all := es;
    } else {
      OneMore(p, f, START, es, e);
      RunIsBounded(p, f, START, es + [e]);
      all := RunToTheEnd(p, f, es + [e], body);
    }
  }

  lemma {:induction false} OneMore(p: Params, f: Fns, w: World, es: seq<Event>, e: Event)
    requires ProductiveRun(p, f, w, es) && Run(p, f, w, es).Some?
    requires Productive(Run(p, f, w, es).value, e) && Next(p, f, Run(p, f, w, es).value, e).Some?
    ensures ProductiveRun(p, f, w, es + [e])
    decreases |es|
  {
    hide Next, Productive;
    if es == [] {
      assert ([] + [e])[1..] == [];
    } else {
      assert (es + [e])[0] == es[0] && (es + [e])[1..] == es[1..] + [e];
      OneMore(p, f, Next(p, f, w, es[0]).value, es[1..], e);
    }
  }
}
