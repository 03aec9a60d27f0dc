// Client and server together, over two FIFO channels: what holds in every run,
// wherever it pauses.
module HandshakeRun {
  import opened Wire
  import opened HandshakeScript
  import opened HandshakeMachines
  import opened HandshakeSteps

  datatype World = World(c: Client, s: Server, toClient: seq<Item>, toServer: seq<Item>)

  const START: World := World(Client(StartConnect, Ok, NEW_CORE, false), Server(StartAccept, Ok, NEW_CORE, false), [], [])

  // What the scheduler lets happen: a step of a machine, the transport taking
  // n items of a flight, or a record with n messages arriving.
  datatype Event = ClientRuns(ch: Choice) | ServerRuns(ch: Choice) | ClientFlushes(n: nat) | ServerFlushes(n: nat)
                 | ClientReceives(n: nat) | ServerReceives(n: nat)

  // ---- The driver (ssl_run_handshake) ----

  function Flushes(core: Core, n: nat): Core
    requires n <= |core.out|
  {
    core.(out := core.out[n..])
  }

  predicate AllHandshake(items: seq<Item>) {
    forall i | 0 <= i < |items| :: items[i].Handshake?
  }

  function Messages(items: seq<Item>): seq<Msg>
    requires AllHandshake(items)
  {
    seq(|items|, i requires 0 <= i < |items| => items[i].m)
  }

  // Whether n items can arrive for a side that waits so
  predicate CanReceive(wait: Wait, wire: seq<Item>, n: nat) {
    1 <= n <= |wire| && (wait == ReadMessage || (wait == ReadCcs && n == 1)) && (n == 1 || AllHandshake(wire[..n]))
  }

  // ssl_open_handshake or ssl_open_change_cipher_spec: an unexpected record is an error.
  function Received(wait: Wait, core: Core, wire: seq<Item>, n: nat): (Wait, Core)
    requires CanReceive(wait, wire, n)
  {
    if wait == ReadCcs then (if wire[0].ChangeCipherSpec? && core.buf == [] then Ok else Failed(true), core)
    else if !AllHandshake(wire[..n]) then (Failed(true), core)
    else (Ok, core.(buf := core.buf + Messages(wire[..n])))
  }

  function Next(p: Params, f: Fns, w: World, e: Event): Option<World> {
    match e
    case ClientRuns(ch) => if w.c.wait != Ok then None else Some(w.(c := ClientDo(p, f, w.c, ch)))
    case ServerRuns(ch) => if w.s.wait != Ok then None else Some(w.(s := ServerDo(p, f, w.s, ch)))
    case ClientFlushes(n) =>
      if w.c.wait != Flush || n > |w.c.core.out| then None
      else
        var core := Flushes(w.c.core, n);
        Some(w.(c := w.c.(core := core, wait := if core.out == [] then Ok else Flush), toServer := w.toServer + w.c.core.out[..n]))
    case ServerFlushes(n) =>
      if w.s.wait != Flush || n > |w.s.core.out| then None
      else
        var core := Flushes(w.s.core, n);
        Some(w.(s := w.s.(core := core, wait := if core.out == [] then Ok else Flush), toClient := w.toClient + w.s.core.out[..n]))
    case ClientReceives(n) =>
      if !CanReceive(w.c.wait, w.toClient, n) then None
      else
        var r := Received(w.c.wait, w.c.core, w.toClient, n);
        Some(w.(c := w.c.(wait := r.0, core := r.1), toClient := w.toClient[n..]))
    case ServerReceives(n) =>
      if !CanReceive(w.s.wait, w.toServer, n) then None
      else
        var r := Received(w.s.wait, w.s.core, w.toServer, n);
        Some(w.(s := w.s.(wait := r.0, core := r.1), toServer := w.toServer[n..]))
  }

  function Run(p: Params, f: Fns, w: World, es: seq<Event>): Option<World>
    decreases |es|
  {
    if es == [] then Some(w)
    else
      var w' := Next(p, f, w, es[0]);
      if w'.None? then None else Run(p, f, w'.value, es[1..])
  }

  // ---- The invariant ----

  ghost predicate Inv(p: Params, f: Fns, w: World, log: Log) {
    && ClientOk(p, w.c) && ServerOk(p, w.s)
    && PairOk(p, f, log, ClientHalf(p, w.c, w.toClient), ServerHalf(p, w.s, w.toServer), true)
  }

  lemma InvAtStart(p: Params, f: Fns)
    ensures Inv(p, f, START, [])
  {
  }

  lemma ClientRunKeeps(p: Params, f: Fns, w: World, log: Log, ch: Choice) returns (log': Log)
    requires ParamsOk(p) && Inv(p, f, w, log) && w.c.wait == Ok
    ensures Inv(p, f, w.(c := ClientDo(p, f, w.c, ch)), log') && log <= log'
  {
    hide ClientOk, ServerOk, PairOk, ClientDo;
    log' := ClientStepKeeps(p, f, log, w.c, w.toClient, ServerHalf(p, w.s, w.toServer), ch);
  }

  lemma ServerRunKeeps(p: Params, f: Fns, w: World, log: Log, ch: Choice) returns (log': Log)
    requires ParamsOk(p) && Inv(p, f, w, log) && w.s.wait == Ok
    ensures Inv(p, f, w.(s := ServerDo(p, f, w.s, ch)), log') && log <= log'
  {
    hide ClientOk, ServerOk, PairOk, ServerDo;
    var c, s := ClientHalf(p, w.c, w.toClient), ServerHalf(p, w.s, w.toServer);
    PairIsSymmetric(p, f, log, c, s, true);
    log' := ServerStepKeeps(p, f, log, w.s, w.toServer, c, ch);
    PairIsSymmetric(p, f, log', ServerHalf(p, ServerDo(p, f, w.s, ch), w.toServer), c, false);
  }

  // A flight is flushed only in states whose stage does not depend on the wait.
  lemma ClientFlushKeeps(p: Params, f: Fns, w: World, log: Log, n: nat)
    requires Inv(p, f, w, log) && w.c.wait == Flush && n <= |w.c.core.out|
    ensures Inv(p, f, Next(p, f, w, ClientFlushes(n)).value, log)
  {
    hide PairOk;
    Flushed(p, f, log, ClientHalf(p, w.c, w.toClient), ServerHalf(p, w.s, w.toServer), true, n);
  }

  lemma ServerFlushKeeps(p: Params, f: Fns, w: World, log: Log, n: nat)
    requires Inv(p, f, w, log) && w.s.wait == Flush && n <= |w.s.core.out|
    ensures Inv(p, f, Next(p, f, w, ServerFlushes(n)).value, log)
  {
    hide PairOk;
    var c, s := ClientHalf(p, w.c, w.toClient), ServerHalf(p, w.s, w.toServer);
    PairIsSymmetric(p, f, log, c, s, true);
    Flushed(p, f, log, s, c, false, n);
    PairIsSymmetric(p, f, log, s.(core := Flushes(s.core, n)), c.(wire := c.wire + s.core.out[..n]), false);
  }

  // What arrives is what is waited for.
  lemma Arrives(p: Params, f: Fns, log: Log, me: Half, other: Half, isClient: bool, wait: Wait, n: nat)
    requires PairOk(p, f, log, me, other, isClient) && CanReceive(wait, me.wire, n)
    requires wait == ReadCcs ==> Present(p, me.pos) && Kind(p, me.pos) == None && me.pos > 1
    requires wait == ReadMessage ==> me.core.buf == [] && MessageDue(p, me.pos)
    ensures Received(wait, me.core, me.wire, n).0 == Ok
    ensures PairOk(p, f, log, Half(me.pos + (if wait == ReadCcs then 1 else 0), Received(wait, me.core, me.wire, n).1, me.wire[n..]), other, isClient)
    ensures wait == ReadCcs ==> me.core.buf == []
  {
    hide PairOk, Present, Kind;
    if wait == ReadCcs {
      ReadsCcs(p, f, log, me, other, isClient);
    } else {
      FirstIsMessage(p, f, log, me, other, isClient);
      assert AllHandshake(me.wire[..n]) by {
        assert me.wire[..1][0] == me.wire[0];
      }
      var msgs := Messages(me.wire[..n]);
      assert AsItems(msgs) == me.wire[..n];
      Delivered(p, f, log, me, other, isClient, msgs);
    }
  }

  // The next present stage is a message.
  ghost predicate MessageDue(p: Params, pos: nat) {
    forall j | pos <= j && Present(p, j) && (forall i | pos <= i < j :: !Present(p, i)) :: Kind(p, j).Some?
  }

  lemma FirstIsMessage(p: Params, f: Fns, log: Log, me: Half, other: Half, isClient: bool)
    requires PairOk(p, f, log, me, other, isClient) && me.core.buf == [] && me.wire != [] && MessageDue(p, me.pos)
    ensures me.wire[0].Handshake?
  {
    hide PairOk, Present, Kind;
    SideIsShort2(p, f, log, me, other, isClient);
    NextInLine(p, f, log, me, other, isClient);
    assert AsItems(me.core.buf) + me.wire == me.wire;
  }

  lemma SideIsShort2(p: Params, f: Fns, log: Log, me: Half, other: Half, isClient: bool)
    requires PairOk(p, f, log, me, other, isClient)
    ensures me.pos <= |log| <= Stages(p) && other.pos <= |log|
  {
    hide Present, Kind, ByClient;
  }

  lemma ClientWaits(p: Params, c: Client)
    requires ParamsOk(p) && ClientOk(p, c)
    ensures c.wait == ReadMessage ==> MessageDue(p, ClientPos(p, c.state, c.wait))
    ensures c.wait == ReadCcs ==>
      ClientPos(p, c.state, c.wait) > 1
      && Present(p, ClientPos(p, c.state, c.wait)) && Kind(p, ClientPos(p, c.state, c.wait)) == None
  {
    if c.wait == ReadMessage {
      SoonMessage(p, ClientPos(p, c.state, c.wait));
    }
  }

  // From these stages on, a message comes before any ChangeCipherSpec.
  lemma SoonMessage(p: Params, pos: nat)
    requires if p.resumed then pos == 1 || (pos == 2 && p.ticket) || pos in {4, 8} || (pos == 6 && p.npn) || (pos == 7 && p.channelId) || pos == 0
             else pos <= 6 || pos in {8, 13, 16} || (pos == 7 && p.certRequest) || (pos == 9 && p.certRequest && p.hasCert)
                  || (pos == 11 && p.npn) || (pos == 12 && p.channelId) || (pos == 14 && p.ticket)
    ensures MessageDue(p, pos)
  {
    forall j | pos <= j && Present(p, j) && (forall i | pos <= i < j :: !Present(p, i))
      ensures Kind(p, j).Some?
    {
      if !p.resumed && pos <= 6 && j > 6 {
        assert Present(p, 6);
        assert false;
      } else if pos < j {
        assert !Present(p, pos);
      }
    }
  }

  lemma ServerWaits(p: Params, s: Server)
    requires ParamsOk(p) && ServerOk(p, s)
    ensures s.wait == ReadMessage ==> MessageDue(p, ServerPos(p, s.state, s.wait))
    ensures s.wait == ReadCcs ==>
      ServerPos(p, s.state, s.wait) > 1
      && Present(p, ServerPos(p, s.state, s.wait)) && Kind(p, ServerPos(p, s.state, s.wait)) == None
  {
    if s.wait == ReadMessage {
      SoonMessage(p, ServerPos(p, s.state, s.wait));
    }
  }

  lemma ClientResumes(p: Params, c: Client, core: Core)
    requires ClientOk(p, c) && c.wait in {ReadMessage, ReadCcs} && core.out == c.core.out
    requires c.wait == ReadCcs ==> core == c.core && core.buf == []
    ensures ClientOk(p, c.(wait := Ok, core := core))
    ensures ClientPos(p, c.state, Ok) == ClientPos(p, c.state, c.wait) + if c.wait == ReadCcs then 1 else 0
  {
  }

  lemma ServerResumes(p: Params, s: Server, core: Core)
    requires ServerOk(p, s) && s.wait in {ReadMessage, ReadCcs} && core.out == s.core.out
    requires s.wait == ReadCcs ==> core == s.core && core.buf == []
    ensures ServerOk(p, s.(wait := Ok, core := core))
    ensures ServerPos(p, s.state, Ok) == ServerPos(p, s.state, s.wait) + if s.wait == ReadCcs then 1 else 0
  {
  }

  lemma ClientReceiveKeeps(p: Params, f: Fns, w: World, log: Log, n: nat)
    requires ParamsOk(p) && Inv(p, f, w, log) && CanReceive(w.c.wait, w.toClient, n)
    ensures Inv(p, f, Next(p, f, w, ClientReceives(n)).value, log)
  {
    hide PairOk, MessageDue, Present, Kind, ClientOk, ServerOk, ParamsOk, ClientPos, ServerPos;
    ClientWaits(p, w.c);
    ClientWaitsQuietly(p, w.c);
    Arrives(p, f, log, ClientHalf(p, w.c, w.toClient), ServerHalf(p, w.s, w.toServer), true, w.c.wait, n);
    ClientResumes(p, w.c, Received(w.c.wait, w.c.core, w.toClient, n).1);
  }

  lemma ClientWaitsQuietly(p: Params, c: Client)
    requires ClientOk(p, c)
    ensures c.wait == ReadMessage ==> c.core.buf == []
  {
  }

  lemma ServerWaitsQuietly(p: Params, s: Server)
    requires ServerOk(p, s)
    ensures s.wait == ReadMessage ==> s.core.buf == []
  {
  }

  lemma ServerReceiveKeeps(p: Params, f: Fns, w: World, log: Log, n: nat)
    requires ParamsOk(p) && Inv(p, f, w, log) && CanReceive(w.s.wait, w.toServer, n)
    ensures Inv(p, f, Next(p, f, w, ServerReceives(n)).value, log)
  {
    hide PairOk, MessageDue, Present, Kind, ClientOk, ServerOk, ParamsOk, ClientPos, ServerPos;
    ServerWaits(p, w.s);
    ServerWaitsQuietly(p, w.s);
    var c, s := ClientHalf(p, w.c, w.toClient), ServerHalf(p, w.s, w.toServer);
    PairIsSymmetric(p, f, log, c, s, true);
    Arrives(p, f, log, s, c, false, w.s.wait, n);
    ServerResumes(p, w.s, Received(w.s.wait, w.s.core, w.toServer, n).1);
    var w' := Next(p, f, w, ServerReceives(n)).value;
    PairIsSymmetric(p, f, log, ServerHalf(p, w'.s, w'.toServer), c, false);
  }

  lemma NextKeepsInv(p: Params, f: Fns, w: World, log: Log, e: Event) returns (log': Log)
    requires ParamsOk(p) && Inv(p, f, w, log) && Next(p, f, w, e).Some?
    ensures Inv(p, f, Next(p, f, w, e).value, log') && log <= log'
  {
    hide Inv, ParamsOk, ClientDo, ServerDo, CanReceive, Received;
    log' := log;
    match e
    case ClientRuns(ch) => log' := ClientRunKeeps(p, f, w, log, ch);
    case ServerRuns(ch) => log' := ServerRunKeeps(p, f, w, log, ch);
    case ClientFlushes(n) => ClientFlushKeeps(p, f, w, log, n);
    case ServerFlushes(n) => ServerFlushKeeps(p, f, w, log, n);
    case ClientReceives(n) => ClientReceiveKeeps(p, f, w, log, n);
    case ServerReceives(n) => ServerReceiveKeeps(p, f, w, log, n);
  }

  lemma {:induction false} RunKeepsInv(p: Params, f: Fns, w: World, log: Log, es: seq<Event>) returns (log': Log)
    requires ParamsOk(p) && Inv(p, f, w, log) && Run(p, f, w, es).Some?
    ensures Inv(p, f, Run(p, f, w, es).value, log') && log <= log'
    decreases |es|
  {
    hide Inv, ParamsOk, Next;
    if es == [] {
      log' := log;
    } else {
      log' := NextKeepsInv(p, f, w, log, es[0]);
      log' := RunKeepsInv(p, f, Next(p, f, w, es[0]).value, log', es[1..]);
    }
  }

  // ---- What that means ----

  // In every run from the start, however it pauses: neither side meets a
  // message, a Finished or a signature it does not expect, or uses its
  // transcript buffer after it was freed; and what each has hashed are the
  // messages of one history that follows the script, each once and in order,
  // up to the stage it has come to.
  lemma EveryRunFollowsTheScript(p: Params, f: Fns, es: seq<Event>) returns (log: Log)
    requires ParamsOk(p) && Run(p, f, START, es).Some?
    ensures var w := Run(p, f, START, es).value;
      && LogOk(p, f, log)
      && w.c.wait != Failed(true) && w.s.wait != Failed(true)
      && !w.c.core.transcript.misused && !w.s.core.transcript.misused
      && ClientPos(p, w.c.state, w.c.wait) <= |log| && ServerPos(p, w.s.state, w.s.wait) <= |log|
      && (ClientPos(p, w.c.state, w.c.wait) > 1 ==> w.c.core.transcript.hash == Some(Msgs(log[..ClientPos(p, w.c.state, w.c.wait)])))
      && (ServerPos(p, w.s.state, w.s.wait) > 0 ==> w.s.core.transcript.hash == Some(Msgs(log[..ServerPos(p, w.s.state, w.s.wait)])))
  {
    InvAtStart(p, f);
    log := RunKeepsInv(p, f, START, [], es);
    var w := Run(p, f, START, es).value;
    hide Run, LogOk, ClientPos, ServerPos, ChannelOk, Msgs;
  }

  // When both are done, both hashed the whole handshake.
  lemma BothDoneAgree(p: Params, f: Fns, es: seq<Event>) returns (log: Log)
    requires ParamsOk(p) && Run(p, f, START, es).Some?
    requires Run(p, f, START, es).value.c.state == ClientDone && Run(p, f, START, es).value.s.state == ServerDone
    ensures var w := Run(p, f, START, es).value;
      && LogOk(p, f, log) && |log| == Stages(p)
      && w.c.core.transcript.hash == w.s.core.transcript.hash == Some(Msgs(log))
  {
    log := EveryRunFollowsTheScript(p, f, es);
    assert log[..Stages(p)] == log by {
      hide Run, Msgs;
    }
    hide Run, Msgs;
  }

  // ---- No run gets stuck ----

  // What a side that waits is waiting for comes from the other.
  lemma ClientWaitsForServer(p: Params, c: Client) returns (j: nat)
    requires ParamsOk(p) && ClientOk(p, c) && c.wait in {ReadMessage, ReadCcs}
    ensures ClientPos(p, c.state, c.wait) <= j && Present(p, j) && !ByClient(p, j)
    ensures forall i | ClientPos(p, c.state, c.wait) <= i < j :: !Present(p, i)
  {
    var pos := ClientPos(p, c.state, c.wait);
    assert pos < Stages(p);
    j := FirstPresent(p, pos);
    if !p.resumed && pos <= 6 {
      assert Present(p, 6);
    }
    hide FirstPresent;
  }

  lemma ServerWaitsForClient(p: Params, s: Server) returns (j: nat)
    requires ParamsOk(p) && ServerOk(p, s) && s.wait in {ReadMessage, ReadCcs}
    ensures ServerPos(p, s.state, s.wait) == j && Present(p, j) && ByClient(p, j)
  {
    j := ServerPos(p, s.state, s.wait);
  }

  // A side that waits with nothing on its way has come to the end of what was said.
  lemma NothingUnread(p: Params, f: Fns, log: Log, me: Half, other: Half, isClient: bool)
    requires PairOk(p, f, log, me, other, isClient) && me.core.buf == [] && me.wire == [] && other.core.out == []
    ensures me.pos <= |log| && forall k | me.pos <= k < |log| :: !Present(p, k)
  {
    SideIsShort2(p, f, log, me, other, isClient);
    assert Items(log[me.pos..]) == [] by {
      assert AsItems(me.core.buf) == [];
    }
    HeadItem(p, f, log, me.pos);
    hide PairOk, Present, Items;
  }

  // Unless a callback refused, a run that is not over can go on.
  ghost predicate CanGoOn(p: Params, f: Fns, w: World) {
    || (w.c.wait == Ok && w.c.state != ClientDone) || (w.s.wait == Ok && w.s.state != ServerDone)
    || w.c.wait == Flush || w.s.wait == Flush
    || CanReceive(w.c.wait, w.toClient, 1) || CanReceive(w.s.wait, w.toServer, 1)
  }

  lemma ClientHeardAll(p: Params, f: Fns, w: World, log: Log) returns (j: nat)
    requires ParamsOk(p) && Inv(p, f, w, log) && w.c.wait in {ReadMessage, ReadCcs} && w.toClient == [] && w.s.core.out == []
    ensures var pos := ClientPos(p, w.c.state, w.c.wait);
      && pos <= |log| && (forall i | pos <= i < |log| :: !Present(p, i))
      && pos <= j && Present(p, j) && !ByClient(p, j) && forall i | pos <= i < j :: !Present(p, i)
  {
    hide PairOk, ClientOk, ServerOk, Present, ByClient, ClientPos, ServerPos, Kind;
    var c, s := ClientHalf(p, w.c, w.toClient), ServerHalf(p, w.s, w.toServer);
    ClientWaits(p, w.c);
    ClientWaitsQuietly(p, w.c);
    j := ClientWaitsForServer(p, w.c);
    if w.c.wait == ReadCcs {
      NoMessageDue(p, f, log, c, s, true);
    }
    NothingUnread(p, f, log, c, s, true);
  }

  lemma ServerHeardAll(p: Params, f: Fns, w: World, log: Log)
    requires ParamsOk(p) && Inv(p, f, w, log) && w.s.wait in {ReadMessage, ReadCcs} && w.toServer == [] && w.c.core.out == []
    ensures var pos := ServerPos(p, w.s.state, w.s.wait);
      pos <= |log| && (forall i | pos <= i < |log| :: !Present(p, i)) && Present(p, pos) && ByClient(p, pos)
  {
    hide PairOk, ClientOk, ServerOk, Present, ByClient, ClientPos, ServerPos, Kind;
    var c, s := ClientHalf(p, w.c, w.toClient), ServerHalf(p, w.s, w.toServer);
    PairIsSymmetric(p, f, log, c, s, true);
    ServerWaits(p, w.s);
    ServerWaitsQuietly(p, w.s);
    var j := ServerWaitsForClient(p, w.s);
    if w.s.wait == ReadCcs {
      NoMessageDue(p, f, log, s, c, false);
    }
    NothingUnread(p, f, log, s, c, false);
  }

  lemma HistoryLength(p: Params, f: Fns, w: World, log: Log)
    requires Inv(p, f, w, log)
    ensures ClientPos(p, w.c.state, w.c.wait) <= |log| <= Stages(p) && ServerPos(p, w.s.state, w.s.wait) <= |log|
  {
    hide PairOk, ClientPos, ServerPos;
    SideIsShort2(p, f, log, ClientHalf(p, w.c, w.toClient), ServerHalf(p, w.s, w.toServer), true);
  }

  // As long as no callback refuses, either a step is possible or both are done.
  lemma NobodyStuck(p: Params, f: Fns, w: World, log: Log)
    requires ParamsOk(p) && Inv(p, f, w, log) && w.c.wait != Failed(false) && w.s.wait != Failed(false)
    ensures CanGoOn(p, f, w) || (w.c.state == ClientDone && w.s.state == ServerDone)
  {
    if !CanGoOn(p, f, w) {
      StuckSides(p, f, w);
      HistoryLength(p, f, w, log);
      hide Inv, Present, ByClient, CanGoOn, ClientPos, ServerPos, ParamsOk;
      if w.c.wait in {ReadMessage, ReadCcs} {
        var j := ClientHeardAll(p, f, w, log);
        PresentIsStage(p, j);
        if w.s.wait in {ReadMessage, ReadCcs} {
          ServerHeardAll(p, f, w, log);
        } else {
          ServerDoneAtEnd(p, w.s);
        }
      } else if w.s.wait in {ReadMessage, ReadCcs} {
        ServerHeardAll(p, f, w, log);
        PresentIsStage(p, ServerPos(p, w.s.state, w.s.wait));
        ClientDoneAtEnd(p, w.c);
      }
    }
  }

  lemma StuckSides(p: Params, f: Fns, w: World)
    requires ClientOk(p, w.c) && ServerOk(p, w.s) && !CanGoOn(p, f, w) && w.c.wait != Failed(false) && w.s.wait != Failed(false)
    ensures w.c.wait in {ReadMessage, ReadCcs} || (w.c.wait == Ok && w.c.state == ClientDone)
    ensures w.s.wait in {ReadMessage, ReadCcs} || (w.s.wait == Ok && w.s.state == ServerDone)
    ensures w.c.core.out == [] && w.s.core.out == []
    ensures w.c.wait in {ReadMessage, ReadCcs} ==> w.toClient == []
    ensures w.s.wait in {ReadMessage, ReadCcs} ==> w.toServer == []
    ensures w.c.wait == ReadMessage ==> w.c.core.buf == []
    ensures w.s.wait == ReadMessage ==> w.s.core.buf == []
  {
  }

  lemma ServerDoneAtEnd(p: Params, s: Server)
    requires s.state == ServerDone
    ensures ServerPos(p, s.state, s.wait) == Stages(p)
  {
  }

  lemma ClientDoneAtEnd(p: Params, c: Client)
    requires c.state == ClientDone
    ensures ClientPos(p, c.state, c.wait) == Stages(p)
  {
  }

  lemma NoRunIsStuck(p: Params, f: Fns, es: seq<Event>)
    requires ParamsOk(p) && Run(p, f, START, es).Some?
    ensures var w := Run(p, f, START, es).value;
      w.c.wait == Failed(false) || w.s.wait == Failed(false) || CanGoOn(p, f, w) || (w.c.state == ClientDone && w.s.state == ServerDone)
  {
    InvAtStart(p, f);
    var log := RunKeepsInv(p, f, START, [], es);
    var w := Run(p, f, START, es).value;
    hide *;
    if w.c.wait != Failed(false) && w.s.wait != Failed(false) {
      NobodyStuck(p, f, w, log);
    }
  }
}
