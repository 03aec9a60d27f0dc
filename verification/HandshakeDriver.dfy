// The loops that drive the machines (ssl_run_handshake, ssl_client_handshake
// and ssl_server_handshake): each call is a run of the model, and it returns.
module HandshakeDriver {
  import opened Wire
  import opened HandshakeScript
  import opened HandshakeMachines
  import opened HandshakeRun

  // The k-th decision of the callbacks, and how many items the transport takes
  // or has for the k-th attempt
  datatype Env = Env(choose: nat -> Choice, takes: nat -> nat, arrives: nat -> nat)

  // What a call returns: the handshake is over, it failed, the transport would
  // block, or a callback wants it called again.
  datatype Ret = Complete | Error | Blocked | Again

  lemma {:induction false} RunThen(p: Params, f: Fns, w: World, es: seq<Event>, e: Event)
    requires Run(p, f, w, es).Some?
    ensures Run(p, f, w, es + [e]) == Next(p, f, Run(p, f, w, es).value, e)
    decreases |es|
  {
    hide Next;
    if es == [] {
      assert ([] + [e])[1..] == [];
    } else {
      assert (es + [e])[0] == es[0] && (es + [e])[1..] == es[1..] + [e];
      RunThen(p, f, Next(p, f, w, es[0]).value, es[1..], e);
    }
  }

  // How far a machine still has to go
  function ClientLeft(p: Params, s: ClientState): nat {
    match s
    case StartConnect => 20
    case EnterEarlyData => 19
    case ReadServerHello => 18
    case ReadServerCertificate => 17
    case ReadCertificateStatus => 16
    case VerifyServerCertificate => 15
    case ReadServerKeyExchange => 14
    case ReadCertificateRequest => 13
    case ReadServerHelloDone => 12
    case SendClientCertificate => 11
    case SendClientKeyExchange => 10
    case SendClientCertificateVerify => 9
    case SendClientFinished => if p.resumed then 3 else 8
    case FinishFlight => if p.resumed then 2 else 7
    case ReadSessionTicket => 6
    case ClientProcessCcs => 5
    case ReadServerFinished => 4
    case FinishClient => 1
    case ClientDone => 0
  }

  function ServerLeft(p: Params, s: ServerState): nat {
    match s
    case StartAccept => 20
    case ReadClientHello => 19
    case SelectCertificate => 18
    case SelectParameters => 17
    case SendServerHello => 16
    case SendServerCertificate => 15
    case SendServerKeyExchange => 14
    case SendServerHelloDone => 13
    case ReadClientCertificate => 12
    case VerifyClientCertificate => 11
    case ReadClientKeyExchange => 10
    case ReadClientCertificateVerify => 9
    case ReadChangeCipherSpec => 8
    case ServerProcessCcs => 7
    case ReadNextProto => 6
    case ReadChannelId => 5
    case ReadClientFinished => 4
    case SendServerFinished => if p.resumed then 9 else 3
    case FinishServer => 1
    case ServerDone => 0
  }

  // A step goes on, waits for a message it does not have, fails, or is to be tried again.
  lemma ClientProgress(p: Params, f: Fns, c: Client, ch: Choice)
    requires c.wait == Ok && c.state != ClientDone
    ensures var c' := ClientDo(p, f, c, ch);
      || ClientLeft(p, c'.state) < ClientLeft(p, c.state)
      || (c'.state == c.state && c'.wait == ReadMessage && c.core.buf == [])
      || (c'.state == c.state && (c'.wait.Failed? || (c'.wait == Ok && ch.act == Retry)))
  {
    hide Say, SayIf, SayFinished, Read, Sent, InitHash, FreedIf, Freed, NoteBufferRead, ExpectedFinished, BufferRead, CertBody;
  }

  lemma ServerProgress(p: Params, f: Fns, s: Server, ch: Choice)
    requires s.wait == Ok && s.state != ServerDone
    ensures var s' := ServerDo(p, f, s, ch);
      || ServerLeft(p, s'.state) < ServerLeft(p, s.state)
      || (s'.state == s.state && s'.wait == ReadMessage && s.core.buf == [])
      || (s'.state == s.state && (s'.wait.Failed? || (s'.wait == Ok && ch.act == Retry)))
  {
    hide Say, SayIf, SayFinished, Read, Sent, InitHash, FreedIf, Freed, NoteBufferRead, ExpectedFinished, BufferRead, CertBody;
  }

  lemma ClientNeverMisled(p: Params, f: Fns, es: seq<Event>, w: World)
    requires ParamsOk(p) && Run(p, f, START, es) == Some(w)
    ensures w.c.wait != Failed(true)
  {
    var log := EveryRunFollowsTheScript(p, f, es);
  }

  lemma ServerNeverMisled(p: Params, f: Fns, es: seq<Event>, w: World)
    requires ParamsOk(p) && Run(p, f, START, es) == Some(w)
    ensures w.s.wait != Failed(true)
  {
    var log := EveryRunFollowsTheScript(p, f, es);
  }

  lemma SomethingArrives(wait: Wait, wire: seq<Item>, m: nat, n: nat)
    requires wait in {ReadMessage, ReadCcs} && wire != [] && m == if CanReceive(wait, wire, n) then n else 1
    ensures CanReceive(wait, wire, m) && 1 <= m <= |wire|
  {
  }

  function WaitRank(wait: Wait): nat {
    match wait
    case ReadMessage => 0
    case Failed(_) => 0
    case Flush => 2
    case _ => 1
  }

  // The two machines and the channels between them, as one process each sees them
  class Connection {
    const p: Params
    const f: Fns
    const env: Env
    var w: World
    var k: nat
    // What has happened since the start
    ghost var events: seq<Event>

    ghost predicate Valid()
      reads this
    {
      Run(p, f, START, events) == Some(w)
    }

    constructor (params: Params, fns: Fns, e: Env)
      ensures Valid() && p == params && f == fns && w == START
    {
      p, f, env, w, k, events := params, fns, e, START, 0, [];
    }

    // One event of the model
    method Happens(e: Event)
      requires Valid() && Next(p, f, w, e).Some?
      modifies this`w, this`events
      ensures Valid() && Next(p, f, old(w), e) == Some(w) && events == old(events) + [e]
    {
      hide Next;
      RunThen(p, f, START, events, e);
      w := Next(p, f, w, e).value;
      events := events + [e];
    }

    // The last thing that happened is that a callback wanted to be asked again.
    ghost predicate EndsInRetryClient()
      reads this
    {
      events != [] && events[|events| - 1].ClientRuns? && events[|events| - 1].ch.act == Retry
    }

    ghost predicate EndsInRetryServer()
      reads this
    {
      events != [] && events[|events| - 1].ServerRuns? && events[|events| - 1].ch.act == Retry
    }

    // ssl_client_handshake: steps until one has to wait.  Again is a step that
    // asks to be tried once more.
    method ClientHandshake() returns (again: bool)
      requires Valid() && w.c.wait == Ok
      modifies this
      ensures Valid() && old(events) <= events && w.toClient == old(w).toClient && w.s == old(w).s
      ensures again ==> EndsInRetryClient()
      ensures again || w.c.wait != Ok || w.c.state == ClientDone
      ensures again ==> w.c.wait == Ok
      ensures ClientLeft(p, w.c.state) <= ClientLeft(p, old(w).c.state)
      ensures ClientLeft(p, w.c.state) == ClientLeft(p, old(w).c.state) && !again ==>
        w.c.wait.Failed? || (w.c.wait == ReadMessage && old(w).c.core.buf == []) || w.c.wait == Ok
    {
      hide Run, ClientDo, ClientLeft;
      while w.c.state != ClientDone
        invariant Valid() && old(events) <= events && w.toClient == old(w).toClient && w.s == old(w).s && w.c.wait == Ok
        invariant ClientLeft(p, w.c.state) <= ClientLeft(p, old(w).c.state)
        invariant ClientLeft(p, w.c.state) == ClientLeft(p, old(w).c.state) ==> w.c == old(w).c
        decreases ClientLeft(p, w.c.state)
      {
        var ch := env.choose(k);
        k := k + 1;
        ClientProgress(p, f, w.c, ch);
        var before := w.c;
        Happens(ClientRuns(ch));
        if w.c.wait != Ok {
          return false;
        }
        if ch.act == Retry && w.c.state == before.state {
          return true;
        }
      }
      again := false;
    }

    // ssl_run_handshake on the client.  It returns, and fails only where a
    // callback refused.
    method RunClient() returns (ret: Ret)
      requires Valid() && ParamsOk(p)
      modifies this
      ensures Valid() && old(events) <= events && w.s == old(w).s
      ensures ret == Complete ==> w.c.state == ClientDone && w.c.wait == Ok
      ensures ret == Error ==> w.c.wait == Failed(false)
      ensures ret == Blocked ==> (w.c.wait == Flush && w.c.core.out != []) || (w.c.wait in {ReadMessage, ReadCcs} && w.toClient == [])
      ensures ret == Again ==> w.c.wait == Ok && EndsInRetryClient()
    {
      hide Run, ClientLeft, ClientDo, CanReceive, Received;
      while true
        invariant Valid() && old(events) <= events && w.s == old(w).s
        decreases ClientLeft(p, w.c.state), |w.toClient|, WaitRank(w.c.wait)
      {
        match w.c.wait {
          case Failed(_) =>
            ClientNeverMisled(p, f, events, w);
            return Error;
          case Flush =>
            var n := env.takes(k);
            k := k + 1;
            Happens(ClientFlushes(if n > |w.c.core.out| then |w.c.core.out| else n));
            if w.c.wait == Flush {
              return Blocked;
            }
          case Ok =>
            var again := ClientHandshake();
            if again {
              return Again;
            }
            if w.c.wait == Ok {
              return Complete;
            }
          case _ =>
            if w.toClient == [] {
              return Blocked;
            }
            var n := env.arrives(k);
            k := k + 1;
            var m := if CanReceive(w.c.wait, w.toClient, n) then n else 1;
            SomethingArrives(w.c.wait, w.toClient, m, n);
            Happens(ClientReceives(m));
        }
      }
    }

    // ssl_server_handshake: steps until one has to wait.  Again is a step that
    // asks to be tried once more.
    method ServerHandshake() returns (again: bool)
      requires Valid() && w.s.wait == Ok
      modifies this
      ensures Valid() && old(events) <= events && w.toServer == old(w).toServer && w.c == old(w).c
      ensures again ==> EndsInRetryServer()
      ensures again || w.s.wait != Ok || w.s.state == ServerDone
      ensures again ==> w.s.wait == Ok
      ensures ServerLeft(p, w.s.state) <= ServerLeft(p, old(w).s.state)
      ensures ServerLeft(p, w.s.state) == ServerLeft(p, old(w).s.state) && !again ==>
        w.s.wait.Failed? || (w.s.wait == ReadMessage && old(w).s.core.buf == []) || w.s.wait == Ok
    {
      hide Run, ServerDo, ServerLeft;
      while w.s.state != ServerDone
        invariant Valid() && old(events) <= events && w.toServer == old(w).toServer && w.c == old(w).c && w.s.wait == Ok
        invariant ServerLeft(p, w.s.state) <= ServerLeft(p, old(w).s.state)
        invariant ServerLeft(p, w.s.state) == ServerLeft(p, old(w).s.state) ==> w.s == old(w).s
        decreases ServerLeft(p, w.s.state)
      {
        var ch := env.choose(k);
        k := k + 1;
        ServerProgress(p, f, w.s, ch);
        var before := w.s;
        Happens(ServerRuns(ch));
        if w.s.wait != Ok {
          return false;
        }
        if ch.act == Retry && w.s.state == before.state {
          return true;
        }
      }
      again := false;
    }

    // ssl_run_handshake on the server.  It returns, and fails only where a
    // callback refused.
    method RunServer() returns (ret: Ret)
      requires Valid() && ParamsOk(p)
      modifies this
      ensures Valid() && old(events) <= events && w.c == old(w).c
      ensures ret == Complete ==> w.s.state == ServerDone && w.s.wait == Ok
      ensures ret == Error ==> w.s.wait == Failed(false)
      ensures ret == Blocked ==> (w.s.wait == Flush && w.s.core.out != []) || (w.s.wait in {ReadMessage, ReadCcs} && w.toServer == [])
      ensures ret == Again ==> w.s.wait == Ok && EndsInRetryServer()
    {
      hide Run, ServerLeft, ServerDo, CanReceive, Received;
      while true
        invariant Valid() && old(events) <= events && w.c == old(w).c
        decreases ServerLeft(p, w.s.state), |w.toServer|, WaitRank(w.s.wait)
      {
        match w.s.wait {
          case Failed(_) =>
            ServerNeverMisled(p, f, events, w);
            return Error;
          case Flush =>
            var n := env.takes(k);
            k := k + 1;
            Happens(ServerFlushes(if n > |w.s.core.out| then |w.s.core.out| else n));
            if w.s.wait == Flush {
              return Blocked;
            }
          case Ok =>
            var again := ServerHandshake();
            if again {
              return Again;
            }
            if w.s.wait == Ok {
              return Complete;
            }
          case _ =>
            if w.toServer == [] {
              return Blocked;
            }
            var n := env.arrives(k);
            k := k + 1;
            var m := if CanReceive(w.s.wait, w.toServer, n) then n else 1;
            SomethingArrives(w.s.wait, w.toServer, m, n);
            Happens(ServerReceives(m));
        }
      }
    }
  }
}
