// Writing application data over TLS so that a write can be resumed: records
// are sealed once, whatever the transport takes at a time.
module WriteBuffer {
  import opened Wire

  const ALIGN_PAYLOAD := 8  // SSL3_ALIGN_PAYLOAD

  // SSLBuffer.  No memory is an empty array.
  class SSLBuffer {
    var mem: array<byte>
    var offset: nat
    var size: nat
    var cap: nat

    ghost predicate Valid()
      reads this
    {
      size <= cap && offset + cap <= mem.Length
    }

    // offset_ has 16 bits: while this holds it does not wrap around.
    ghost predicate InRange()
      reads this
    {
      offset + cap <= 0xffff
    }

    ghost function Data(): (s: seq<byte>)
      requires Valid()
      reads this, mem
      ensures |s| == size
    {
      mem[offset..offset + size]
    }

    constructor ()
      ensures Valid() && InRange() && Data() == [] && cap == 0 && fresh(mem)
    {
      mem := new byte[0];
      offset, size, cap := 0, 0, 0;
    }

    method Clear()
      modifies this
      ensures Valid() && InRange() && Data() == [] && cap == 0 && fresh(mem)
    {
      mem := new byte[0];
      offset, size, cap := 0, 0, 0;
    }

    // slack is where the allocation has to start for the record body to be aligned.
    method EnsureCap(slack: nat, newCap: nat) returns (ok: bool)
      requires Valid() && slack < ALIGN_PAYLOAD
      modifies this
      ensures Valid() && Data() == old(Data())
      ensures ok <==> newCap <= 0xffff
      ensures newCap <= 0xffff - ALIGN_PAYLOAD + 1 && old(InRange()) ==> InRange()
      ensures !ok ==> cap == old(cap) && offset == old(offset)
      ensures ok ==> cap >= newCap
      ensures mem == old(mem) || fresh(mem)
    {
      if newCap > 0xffff {
        return false;
      }
      if cap >= newCap {
        return true;
      }
      var newMem := new byte[newCap + ALIGN_PAYLOAD - 1](_ => 0);
      forall i | 0 <= i < size {
        newMem[slack + i] := mem[offset + i];
      }
      assert newMem[slack..slack + size] == Data();
      mem := newMem;
      offset := slack;
      cap := newCap;
      ok := true;
    }

    // Copying into remaining(), then DidWrite
    method Append(bytes: seq<byte>)
      requires Valid() && |bytes| <= cap - size
      modifies this`size, mem
      ensures Valid() && Data() == old(Data()) + bytes
    {
      forall i | 0 <= i < |bytes| {
        mem[offset + size + i] := bytes[i];
      }
      size := size + |bytes|;
    }

    method Consume(len: nat)
      requires Valid() && len <= size
      modifies this`offset, this`size, this`cap
      ensures Valid() && size == old(size) - len && cap == old(cap) - len
      ensures old(offset) + len <= 0xffff ==> Data() == old(Data())[len..]
      ensures old(InRange()) ==> InRange()
    {
      offset := (offset + len) % 0x1_0000;
      size := size - len;
      cap := cap - len;
    }

    method DiscardConsumed()
      requires Valid()
      modifies this
      ensures Valid() && Data() == old(Data()) && (old(InRange()) ==> InRange())
      ensures mem == old(mem) || fresh(mem)
    {
      if size == 0 {
        Clear();
      }
    }
  }
}

module AppWrite {
  import opened Wire
  import opened WriteBuffer

  const MAX_PLAIN_LENGTH := 16384  // SSL3_RT_MAX_PLAIN_LENGTH
  const APPLICATION_DATA := 23     // SSL3_RT_APPLICATION_DATA
  const MAX_FLIGHT := 0x4000       // an unflushed flight leaves room for a record

  // What goes to the transport, in order: a handshake flight, or the record of
  // the num-th sealing
  datatype Item = Flight(wire: seq<byte>) | Record(num: nat, plain: seq<byte>, wire: seq<byte>)

  function WireOf(log: seq<Item>): seq<byte> {
    if log == [] then [] else WireOf(log[..|log| - 1]) + log[|log| - 1].wire
  }

  function PlainOf(log: seq<Item>): seq<byte> {
    if log == [] then []
    else PlainOf(log[..|log| - 1]) + if log[|log| - 1].Record? then log[|log| - 1].plain else []
  }

  function FlightsOf(log: seq<Item>): seq<byte> {
    if log == [] then []
    else FlightsOf(log[..|log| - 1]) + if log[|log| - 1].Flight? then log[|log| - 1].wire else []
  }

  lemma LogGrows(log: seq<Item>, x: Item)
    ensures WireOf(log + [x]) == WireOf(log) + x.wire
    ensures FlightsOf(log + [x]) == FlightsOf(log) + if x.Flight? then x.wire else []
    ensures PlainOf(log + [x]) == PlainOf(log) + if x.Record? then x.plain else []
  {
    assert (log + [x])[..|log|] == log;
  }

  // The surroundings: the k-th sealing, and what the k-th write to the
  // transport takes of so many bytes (0 or less is a failure).
  datatype Env = Env(seal: (nat, seq<byte>) -> Option<seq<byte>>, overhead: nat, take: (nat, nat) -> int, slack: nat -> nat)

  ghost predicate EnvOk(e: Env) {
    && e.overhead <= 0x1000
    && (forall k, p :: e.seal(k, p).Some? ==> |e.seal(k, p).value| <= |p| + e.overhead)
    && (forall k, n :: e.take(k, n) <= n)
    && forall k :: e.slack(k) < ALIGN_PAYLOAD
  }

  lemma EnvLimits(e: Env, k: nat, p: seq<byte>)
    requires EnvOk(e)
    ensures e.overhead <= 0x1000 && e.slack(k) < ALIGN_PAYLOAD
    ensures e.seal(k, p).Some? ==> |e.seal(k, p).value| <= |p| + e.overhead
  {
  }

  lemma TakesNoMore(e: Env, k: nat, n: nat)
    requires EnvOk(e)
    ensures e.take(k, n) <= n
  {
  }

  // Nothing goes wrong: every write takes something, every record is sealed.
  ghost predicate Smooth(e: Env) {
    (forall k, n: nat | n > 0 :: e.take(k, n) > 0) && forall k, p :: e.seal(k, p).Some?
  }

  lemma SmoothSteps(e: Env, k: nat, n: nat, p: seq<byte>)
    requires Smooth(e)
    ensures n > 0 ==> e.take(k, n) > 0
    ensures e.seal(k, p).Some?
  {
  }

  // wpend_tot, wpend_buf, wpend_type and wpend_ret of a record that is sealed
  // but not yet with the transport
  datatype Pending = Pending(tot: nat, buf: int, ty: nat, ret: nat)

  // Everything put into the buffer so far, what the transport took, what
  // callers were told is written, the data of a call to be retried, and all
  // flights there have been
  datatype Trace = Trace(log: seq<Item>, given: seq<byte>, reported: seq<byte>, current: seq<byte>, flights: seq<byte>)

  // The bytes with the transport and in the buffer are the flights and sealed
  // records, in order.
  ghost predicate InOrder(t: Trace, buffered: seq<byte>) {
    WireOf(t.log) == t.given + buffered
  }

  // The bytes sealed are those reported, then the first a of the current call,
  // then the pending record.
  ghost predicate SealedOnce(t: Trace, pending: Option<Pending>, a: nat) {
    var tot := if pending.Some? then pending.value.tot else 0;
    && a + tot <= |t.current|
    && PlainOf(t.log) == t.reported + t.current[..a + tot]
    && (pending.Some? ==> pending.value.ret == pending.value.tot > 0)
  }

  // Each record is the sealing of its plaintext, and no sealing is used twice.
  ghost predicate SealedInTurn(e: Env, log: seq<Item>, seals: nat) {
    && (forall i | 0 <= i < |log| && log[i].Record? :: log[i].num < seals && e.seal(log[i].num, log[i].plain) == Some(log[i].wire))
    && forall i, j | 0 <= i < j < |log| && log[i].Record? && log[j].Record? :: log[i].num < log[j].num
  }

  function Left(flight: Option<seq<byte>>): seq<byte> {
    if flight.Some? then flight.value else []
  }

  // The flights were queued as they came, but for what is left.
  ghost predicate FlightsQueued(log: seq<Item>, flight: Option<seq<byte>>, flights: seq<byte>) {
    FlightsOf(log) + Left(flight) == flights
  }

  // Records were added, behind the flight that was left.
  ghost predicate Extends(log: seq<Item>, flight: Option<seq<byte>>, log': seq<Item>, flight': Option<seq<byte>>) {
    && log <= log'
    && if log' == log then flight' == flight
       else
         && flight' == None
         && (flight.Some? ==> log'[|log|] == Flight(flight.value))
         && forall i | |log| <= i < |log'| && (i > |log| || flight.None?) :: log'[i].Record?
  }

  function FlightItems(flight: Option<seq<byte>>): seq<Item> {
    if flight.Some? then [Flight(flight.value)] else []
  }

  lemma NothingAdded(log: seq<Item>, flight: Option<seq<byte>>)
    ensures Extends(log, flight, log, flight)
  {
  }

  lemma ExtendsFurther(a: seq<Item>, f: Option<seq<byte>>, b: seq<Item>, g: Option<seq<byte>>, c: seq<Item>, h: Option<seq<byte>>)
    requires Extends(a, f, b, g) && Extends(b, g, c, h)
    ensures Extends(a, f, c, h)
  {
    if a != b && b != c {
      assert |a| < |b| < |c| && g == None;
      forall i | |a| <= i < |c| && (i > |a| || f.None?)
        ensures c[i].Record?
      {
        if i < |b| { assert c[i] == b[i]; }
      }
      assert f.Some? ==> c[|a|] == b[|a|];
    }
  }

  // What the k-th sealing gave is queued.
  lemma RecordAdded(e: Env, t: Trace, k: nat, plain: seq<byte>)
    requires SealedInTurn(e, t.log, k) && e.seal(k, plain).Some? && FlightsQueued(t.log, None, t.flights)
    ensures var t' := Adding(t, Record(k, plain, e.seal(k, plain).value));
      SealedInTurn(e, t'.log, k + 1) && FlightsQueued(t'.log, None, t'.flights) && Extends(t.log, None, t'.log, None)
  {
    var x := Record(k, plain, e.seal(k, plain).value);
    LogGrows(t.log, x);
    assert (t.log + [x])[|t.log|] == x && forall i | 0 <= i < |t.log| :: (t.log + [x])[i] == t.log[i];
  }

  lemma FlightAdded(e: Env, t: Trace, k: nat, wire: seq<byte>)
    requires SealedInTurn(e, t.log, k) && FlightsQueued(t.log, Some(wire), t.flights)
    ensures var t' := Adding(t, Flight(wire));
      SealedInTurn(e, t'.log, k) && FlightsQueued(t'.log, None, t'.flights) && Extends(t.log, Some(wire), t'.log, None)
  {
    LogGrows(t.log, Flight(wire));
    assert (t.log + [Flight(wire)])[|t.log|] == Flight(wire);
    assert forall i | 0 <= i < |t.log| :: (t.log + [Flight(wire)])[i] == t.log[i];
  }

  lemma SealingFailed(e: Env, log: seq<Item>, k: nat)
    requires SealedInTurn(e, log, k)
    ensures SealedInTurn(e, log, k + 1)
  {
  }

  function Min(a: nat, b: nat): nat {
    if a < b then a else b
  }

  function Adding(t: Trace, x: Item): Trace {
    t.(log := t.log + [x])
  }

  lemma Taken(t: Trace, buffered: seq<byte>, n: nat)
    requires InOrder(t, buffered) && n <= |buffered|
    ensures InOrder(t.(given := t.given + buffered[..n]), buffered[n..])
  {
    assert buffered == buffered[..n] + buffered[n..];
  }

  lemma Added(t: Trace, buffered: seq<byte>, x: Item)
    requires InOrder(t, buffered)
    ensures InOrder(Adding(t, x), buffered + x.wire)
  {
    LogGrows(t.log, x);
  }

  lemma FlightSealsNothing(t: Trace, p: Option<Pending>, a: nat, wire: seq<byte>)
    requires SealedOnce(t, p, a)
    ensures SealedOnce(Adding(t, Flight(wire)), p, a)
  {
    LogGrows(t.log, Flight(wire));
  }

  lemma RecordIsPending(t: Trace, a: nat, p: Pending, k: nat, wire: seq<byte>)
    requires SealedOnce(t, None, a) && a + p.tot <= |t.current| && p.ret == p.tot > 0
    ensures SealedOnce(Adding(t, Record(k, t.current[a..a + p.tot], wire)), Some(p), a)
  {
    LogGrows(t.log, Record(k, t.current[a..a + p.tot], wire));
    hide PlainOf, WireOf, FlightsOf;
    assert t.current[..a] + t.current[a..a + p.tot] == t.current[..a + p.tot];
  }

  lemma PendingIsDone(t: Trace, p: Pending, a: nat)
    requires SealedOnce(t, Some(p), a)
    ensures SealedOnce(t, None, a + p.tot) && p.ret == p.tot > 0
  {
  }

  // A retry with the same data, or more
  lemma Retried(t: Trace, p: Option<Pending>, a: nat, input: seq<byte>)
    requires SealedOnce(t, p, a) && t.current <= input
    ensures SealedOnce(t.(current := input), p, a) && a <= |input|
    ensures forall d :: InOrder(t, d) ==> InOrder(t.(current := input), d)
  {
    var tot := if p.Some? then p.value.tot else 0;
    assert input[..a + tot] == t.current[..a + tot];
  }

  lemma Reported(t: Trace, a: nat)
    requires SealedOnce(t, None, a) && a <= |t.current|
    ensures var t' := t.(reported := t.reported + t.current[..a], current := []);
      SealedOnce(t', None, 0) && forall d :: InOrder(t, d) ==> InOrder(t', d)
  {
  }

  // ---- Where each record stands ----

  // The records tile the plaintext, and items the wire, in the order of the log.
  lemma {:induction false} ItemsTile(log: seq<Item>, i: nat)
    requires i < |log|
    ensures PlainOf(log[..i]) <= PlainOf(log) && WireOf(log[..i]) <= WireOf(log)
    ensures WireOf(log[..i]) + log[i].wire <= WireOf(log)
    ensures PlainOf(log[..i]) + (if log[i].Record? then log[i].plain else []) <= PlainOf(log)
    decreases |log|
  {
    var n := |log| - 1;
    assert log == log[..n] + [log[n]];
    LogGrows(log[..n], log[n]);
    if i < n {
      ItemsTile(log[..n], i);
      assert log[..n][..i] == log[..i];
    }
  }

  // So each record on the wire is the sealing of its own stretch of what
  // callers handed in: the stretch starts where the records before it end, the
  // bytes on the wire where the items before it end.
  lemma RecordCarriesItsBytes(e: Env, seals: nat, t: Trace, pending: Option<Pending>, a: nat, buffered: seq<byte>, i: nat)
    requires InOrder(t, buffered) && SealedOnce(t, pending, a) && SealedInTurn(e, t.log, seals)
    requires i < |t.log| && t.log[i].Record?
    ensures var r, from, data := t.log[i], |PlainOf(t.log[..i])|, t.reported + t.current;
      from + |r.plain| <= |data| && r.plain == data[from..from + |r.plain|]
    ensures var r, from, wire := t.log[i], |WireOf(t.log[..i])|, t.given + buffered;
      from + |r.wire| <= |wire| && e.seal(r.num, r.plain) == Some(wire[from..from + |r.wire|])
  {
    ItemsTile(t.log, i);
    hide PlainOf, WireOf;
    assert PlainOf(t.log) <= t.reported + t.current;
    var from := |WireOf(t.log[..i])|;
    assert t.log[i].wire == (t.given + buffered)[from..from + |t.log[i].wire|];
  }

  // ---- Runs ----

  // What can be seen of a writer between two calls
  datatype Snapshot = Snapshot(trace: Trace, buffered: seq<byte>, pending: Option<Pending>, flight: Option<seq<byte>>, seals: nat, wnum: nat)

  ghost predicate Sound(e: Env, s: Snapshot) {
    && InOrder(s.trace, s.buffered) && SealedOnce(s.trace, s.pending, s.wnum)
    && SealedInTurn(e, s.trace.log, s.seals) && FlightsQueued(s.trace.log, s.flight, s.trace.flights)
  }

  // One call, to write or to add to the flight, comes after another.
  ghost predicate Follows(s: Snapshot, s': Snapshot) {
    OnlyAdds(s.trace, s'.trace)
    && s.seals <= s'.seals
    && (Extends(s.trace.log, s.flight, s'.trace.log, s'.flight)
        || (s'.trace.log == s.trace.log && s'.flight.Some? && Left(s.flight) <= s'.flight.value))
  }

  ghost predicate OnlyAdds(t: Trace, t': Trace) {
    t.given <= t'.given && t.reported <= t'.reported && t.flights <= t'.flights
  }

  lemma AddsToFlight(e: Env, t: Trace, flight: Option<seq<byte>>, wire: seq<byte>)
    requires FlightsQueued(t.log, flight, t.flights)
    ensures FlightsQueued(t.log, Some(Left(flight) + wire), t.flights + wire)
    ensures OnlyAdds(t, t.(flights := t.flights + wire)) && Left(flight) <= Left(flight) + wire
    ensures forall d :: InOrder(t, d) ==> InOrder(t.(flights := t.flights + wire), d)
    ensures forall p, a :: SealedOnce(t, p, a) ==> SealedOnce(t.(flights := t.flights + wire), p, a)
  {
    assert FlightsOf(t.log) + (Left(flight) + wire) == t.flights + wire;
  }

  ghost predicate IsRun(e: Env, run: seq<Snapshot>) {
    && (forall k | 0 <= k < |run| :: Sound(e, run[k]))
    && forall k | 0 <= k < |run| - 1 :: Follows(run[k], run[k + 1])
  }

  lemma {:induction false} RunOnlyAdds(e: Env, run: seq<Snapshot>, k: nat, m: nat)
    requires IsRun(e, run) && k <= m < |run|
    ensures run[k].trace.log <= run[m].trace.log && run[k].trace.given <= run[m].trace.given
    ensures run[k].trace.reported <= run[m].trace.reported && run[k].trace.flights <= run[m].trace.flights
    decreases m
  {
    if k < m {
      RunOnlyAdds(e, run, k, m - 1);
      assert Follows(run[m - 1], run[m]);
    }
  }

  // Over any run of calls: what the transport has been given, what is reported
  // and what is sealed only grow.  A record once sealed stays the sealing, under
  // a number no other record has, of the very bytes at its place in what callers
  // have handed in by then; it is on the wire, or on its way, at its place there;
  // and the flights come out as they went in.
  lemma WrittenAsHandedIn(e: Env, run: seq<Snapshot>, k: nat, m: nat, i: nat)
    requires IsRun(e, run) && k <= m < |run| && i < |run[k].trace.log| && run[k].trace.log[i].Record?
    ensures run[k].trace.given <= run[m].trace.given && run[k].trace.reported <= run[m].trace.reported
    ensures var s := run[m];
      && i < |s.trace.log| && s.trace.log[i] == run[k].trace.log[i]
      && FlightsOf(s.trace.log) + Left(s.flight) == s.trace.flights && run[k].trace.flights <= s.trace.flights
    ensures var r, from, data := run[k].trace.log[i], |PlainOf(run[k].trace.log[..i])|, run[m].trace.reported + run[m].trace.current;
      from + |r.plain| <= |data| && r.plain == data[from..from + |r.plain|]
    ensures var r, from, wire := run[k].trace.log[i], |WireOf(run[k].trace.log[..i])|, run[m].trace.given + run[m].buffered;
      from + |r.wire| <= |wire| && e.seal(r.num, r.plain) == Some(wire[from..from + |r.wire|])
    ensures forall j | 0 <= j < |run[m].trace.log| && j != i && run[m].trace.log[j].Record? :: run[m].trace.log[j].num != run[k].trace.log[i].num
  {
    RunOnlyAdds(e, run, k, m);
    var s := run[m];
    assert Sound(e, s);
    assert s.trace.log[i] == run[k].trace.log[i] && s.trace.log[..i] == run[k].trace.log[..i];
    RecordCarriesItsBytes(e, s.seals, s.trace, s.pending, s.wnum, s.buffered, i);
  }

  class Writer {
    const env: Env
    const partialWrite: bool    // SSL_MODE_ENABLE_PARTIAL_WRITE
    const movingBuffer: bool    // SSL_MODE_ACCEPT_MOVING_WRITE_BUFFER
    const buf: SSLBuffer        // write_buffer
    var maxSendFragment: nat
    var shutdown: bool
    var wnum: nat
    var pending: Option<Pending>
    var flight: Option<seq<byte>>  // what is left of pending_flight
    var seals: nat
    var writes: nat
    // Early data: whether it is being written, and how much more the ticket allows
    var early: bool
    var earlyLeft: nat
    ghost var trace: Trace

    ghost predicate Shape()
      reads this`flight, this`trace, this`seals, buf, buf.mem
    {
      && buf.Valid() && buf.InRange() && EnvOk(env) && (flight.Some? ==> |flight.value| <= MAX_FLIGHT)
      && InOrder(trace, buf.Data()) && SealedInTurn(env, trace.log, seals) && FlightsQueued(trace.log, flight, trace.flights)
    }

    ghost function View(): Snapshot
      requires buf.Valid()
      reads this, buf, buf.mem
    {
      Snapshot(trace, buf.Data(), pending, flight, seals, wnum)
    }

    // So the calls of a writer are a run: each ensures Follows.
    lemma ValidIsSound()
      requires Valid()
      ensures Sound(env, View())
    {
    }

    ghost predicate Valid()
      reads this, buf, buf.mem
    {
      Shape() && SealedOnce(trace, pending, wnum)
    }

    // No record is pending and none is half written, or the pending one is
    // asked for again: the same place, type, and no less data.
    ghost predicate Retries(ty: nat, ptr: int, len: nat)
      reads this`pending, buf
    {
      if pending.Some? then pending.value.tot <= len && (movingBuffer || pending.value.buf == ptr) && pending.value.ty == ty
      else buf.size == 0
    }

    // A call with so much data at ptr goes on where the last one stopped.
    ghost predicate Resumes(ptr: int, len: nat)
      reads this`pending, this`wnum, this`maxSendFragment, buf
    {
      ResumesFrom(wnum, ptr, len)
    }

    ghost predicate ResumesFrom(start: nat, ptr: int, len: nat)
      reads this`pending, this`maxSendFragment, buf
    {
      start <= len && Retries(APPLICATION_DATA, ptr + start, Min(len - start, maxSendFragment))
    }

    constructor (e: Env, partial: bool, moving: bool, fragment: nat)
      requires EnvOk(e)
      ensures Valid() && trace == Trace([], [], [], [], []) && wnum == 0
      ensures fresh(buf) && fresh(buf.mem)
    {
      env, partialWrite, movingBuffer, maxSendFragment := e, partial, moving, fragment;
      buf := new SSLBuffer();
      shutdown, wnum, pending, flight, seals, writes, early, earlyLeft := false, 0, None, None, 0, 0, false, 0;
      trace := Trace([], [], [], [], []);
    }

    // A handshake message for the transport, as part of the flight
    method AddToFlight(wire: seq<byte>)
      requires Valid() && |Left(flight)| + |wire| <= MAX_FLIGHT
      modifies this`flight, this`trace
      ensures Valid() && flight == Some(Left(old(flight)) + wire) && trace == old(trace).(flights := old(trace).flights + wire)
      ensures Follows(old(View()), View())
    {
      AddsToFlight(env, trace, flight, wire);
      hide InOrder, SealedOnce, SealedInTurn, FlightsQueued, EnvOk, Extends, OnlyAdds;
      trace := trace.(flights := trace.flights + wire);
      flight := Some(Left(flight) + wire);
    }

    // The transport has taken n bytes.
    method TakenFrom(n: nat)
      requires Shape() && n <= buf.size
      modifies this`trace, buf
      ensures Shape() && trace == old(trace).(given := old(trace).given + old(buf.Data())[..n])
      ensures buf.size == old(buf.size) - n && buf.mem == old(buf.mem)
    {
      hide InOrder, EnvOk, SealedInTurn, FlightsQueued;
      Taken(trace, buf.Data(), n);
      trace := trace.(given := trace.given + buf.Data()[..n]);
      buf.Consume(n);
    }

    // tls_write_buffer_flush: 1, or what the transport said
    method Flush() returns (ret: int)
      requires Shape()
      modifies this`writes, this`trace, buf
      ensures Shape() && ret <= 1
      ensures trace == old(trace).(given := trace.given) && old(trace).given <= trace.given
      ensures ret > 0 ==> buf.Data() == []
      ensures Smooth(env) ==> ret > 0
      ensures buf.mem == old(buf.mem) || fresh(buf.mem)
    {
      hide InOrder, EnvOk, Smooth, SealedInTurn, FlightsQueued;
      while buf.size > 0
        modifies this`writes, this`trace, buf
        invariant Shape() && buf.mem == old(buf.mem)
        invariant trace == old(trace).(given := trace.given) && old(trace).given <= trace.given
        decreases buf.size
      {
        ret := env.take(writes, buf.size);
        TakesNoMore(env, writes, buf.size);
        if Smooth(env) { SmoothSteps(env, writes, buf.size, []); }
        writes := writes + 1;
        if ret <= 0 {
          return;
        }
        TakenFrom(ret);
      }
      buf.Clear();
      ret := 1;
    }

    // ssl3_write_pending
    method WritePending(ty: nat, ptr: int, len: nat, ghost a: nat) returns (ret: int)
      requires Shape() && SealedOnce(trace, pending, a) && pending.Some?
      modifies this`writes, this`trace, this`pending, buf
      ensures Shape() && trace == old(trace).(given := trace.given) && old(trace).given <= trace.given
      ensures !old(Retries(ty, ptr, len)) ==> ret <= 0 && trace == old(trace) && writes == old(writes)
      ensures ret > 0 ==> ret == old(pending).value.tot <= len && pending == None && SealedOnce(trace, None, a + ret)
      ensures ret > 0 ==> buf.size == 0
      ensures ret <= 0 ==> pending == old(pending) && SealedOnce(trace, pending, a)
      ensures Smooth(env) && old(Retries(ty, ptr, len)) ==> ret > 0
      ensures buf.mem == old(buf.mem) || fresh(buf.mem)
    {
      hide Smooth, SealedInTurn, FlightsQueued, InOrder, EnvOk;
      if pending.value.tot > len || (!movingBuffer && pending.value.buf != ptr) || pending.value.ty != ty {
        // SSL_R_BAD_WRITE_RETRY
        return -1;
      }
      ret := Flush();
      if ret <= 0 {
        return;
      }
      PendingIsDone(trace, pending.value, a);
      ret := pending.value.ret;
      pending := None;
    }

    // Copying into the buffer
    method Queue(x: Item)
      requires buf.Valid() && InOrder(trace, buf.Data()) && |x.wire| <= buf.cap - buf.size
      modifies this`trace, buf`size, buf.mem
      ensures buf.Valid() && InOrder(trace, buf.Data())
      ensures trace == Adding(old(trace), x) && buf.size == old(buf.size) + |x.wire|
    {
      hide InOrder;
      Added(trace, buf.Data(), x);
      buf.Append(x.wire);
      trace := Adding(trace, x);
    }

    // do_ssl3_write, for the data at the given place of the current call
    method WriteRecord(ty: nat, ptr: int, data: seq<byte>, ghost a: nat) returns (ret: int)
      requires Shape() && SealedOnce(trace, pending, a)
      requires a + |data| <= |trace.current| && data == trace.current[a..a + |data|]
      modifies this`writes, this`trace, this`pending, this`seals, this`flight, buf, buf.mem
      ensures Shape() && ret <= |data|
      ensures trace == old(trace).(log := trace.log, given := trace.given) && old(trace).given <= trace.given && old(seals) <= seals
      ensures Extends(old(trace).log, old(flight), trace.log, flight)
      ensures ret > 0 ==> pending == None && buf.size == 0 && SealedOnce(trace, None, a + ret)
      ensures ret <= 0 ==> SealedOnce(trace, pending, a)
      ensures ret <= 0 && pending.Some? ==> pending == old(pending) || (old(pending).None? && Retries(ty, ptr, |data|))
      ensures Smooth(env) && 0 < |data| <= MAX_PLAIN_LENGTH && old(Retries(ty, ptr, |data|)) ==> ret > 0
      ensures buf.mem == old(buf.mem) || fresh(buf.mem)
    {
      hide Smooth, Extends;
      assert Extends(trace.log, flight, trace.log, flight) by { NothingAdded(trace.log, flight); }
      if pending.Some? {
        ret := WritePending(ty, ptr, |data|, a);
        return;
      }
      if |data| > MAX_PLAIN_LENGTH || buf.size > 0 {
        // Internal error
        return -1;
      }
      if |data| == 0 {
        return 0;
      }
      hide Shape, SealedOnce;
      var ok := SealRecord(ty, ptr, data, a);
      if !ok {
        return -1;
      }
      ret := WritePending(ty, ptr, |data|, a);
    }

    // Unflushed handshake data goes first.
    method QueueFlight(ghost a: nat)
      requires Shape() && SealedOnce(trace, None, a) && (flight.Some? ==> |flight.value| <= buf.cap - buf.size)
      modifies this`trace, this`flight, buf`size, buf.mem
      ensures Shape() && SealedOnce(trace, None, a) && flight == None
      ensures trace == if old(flight).Some? then Adding(old(trace), Flight(old(flight).value)) else old(trace)
      ensures Extends(old(trace).log, old(flight), trace.log, flight)
      ensures buf.size == old(buf.size) + |Left(old(flight))|
    {
      hide InOrder, SealedOnce, EnvOk, SealedInTurn, FlightsQueued, Extends;
      NothingAdded(trace.log, flight);
      if flight.Some? {
        FlightSealsNothing(trace, None, a, flight.value);
        FlightAdded(env, trace, seals, flight.value);
        Queue(Flight(flight.value));
        flight := None;
      }
    }

    // The part of do_ssl3_write that seals a new record
    method SealRecord(ty: nat, ptr: int, data: seq<byte>, ghost a: nat) returns (ok: bool)
      requires Shape() && SealedOnce(trace, None, a) && pending.None? && buf.size == 0
      requires 0 < |data| <= MAX_PLAIN_LENGTH && a + |data| <= |trace.current| && data == trace.current[a..a + |data|]
      modifies this`trace, this`pending, this`seals, this`flight, buf, buf.mem
      ensures Shape() && SealedOnce(trace, pending, a)
      ensures trace == old(trace).(log := trace.log) && old(seals) <= seals && Extends(old(trace).log, old(flight), trace.log, flight)
      ensures ok ==> flight == None && seals == old(seals) + 1 && env.seal(old(seals), data).Some?
      ensures ok ==> trace.log == old(trace).log + FlightItems(old(flight)) + [Record(old(seals), data, env.seal(old(seals), data).value)]
      ensures !ok ==> trace.log <= old(trace).log + FlightItems(old(flight))
      ensures pending == if ok then Some(Pending(|data|, ptr, ty, |data|)) else None
      ensures Smooth(env) ==> ok
      ensures buf.mem == old(buf.mem) || fresh(buf.mem)
    {
      hide InOrder, SealedOnce, EnvOk, Smooth, SealedInTurn, FlightsQueued, Extends;
      NothingAdded(trace.log, flight);
      EnvLimits(env, seals, data);
      var flightLen := if flight.Some? then |flight.value| else 0;
      var maxOut := |data| + env.overhead + flightLen;
      ok := buf.EnsureCap(env.slack(seals), maxOut);
      if !ok {
        return;
      }
      hide Shape;
      QueueFlight(a);
      ok := SealAndQueue(ty, ptr, data, a);
      if ok {
        ExtendsFurther(old(trace).log, old(flight), old(trace).log + FlightItems(old(flight)), None, trace.log, None);
      }
    }

    // tls_seal_record, and the arguments noted for a retry
    method SealAndQueue(ty: nat, ptr: int, data: seq<byte>, ghost a: nat) returns (ok: bool)
      requires Shape() && SealedOnce(trace, None, a) && pending.None? && flight.None? && |data| + env.overhead <= buf.cap - buf.size
      requires 0 < |data| && a + |data| <= |trace.current| && data == trace.current[a..a + |data|]
      modifies this`trace, this`pending, this`seals, buf`size, buf.mem
      ensures Shape() && SealedOnce(trace, pending, a) && seals == old(seals) + 1
      ensures ok <==> env.seal(old(seals), data).Some?
      ensures trace == if ok then Adding(old(trace), Record(old(seals), data, env.seal(old(seals), data).value)) else old(trace)
      ensures Extends(old(trace).log, None, trace.log, None)
      ensures pending == if ok then Some(Pending(|data|, ptr, ty, |data|)) else None
      ensures Smooth(env) ==> ok
    {
      hide InOrder, SealedOnce, EnvOk, Smooth, SealedInTurn, FlightsQueued, Extends;
      NothingAdded(trace.log, None);
      EnvLimits(env, seals, data);
      if Smooth(env) { SmoothSteps(env, seals, 0, data); }
      var sealedRecord := env.seal(seals, data);
      if sealedRecord.None? {
        SealingFailed(env, trace.log, seals);
        seals := seals + 1;
        return false;
      }
      RecordIsPending(trace, a, Pending(|data|, ptr, ty, |data|), seals, sealedRecord.value);
      RecordAdded(env, trace, seals, data);
      Queue(Record(seals, data, sealedRecord.value));
      seals := seals + 1;
      pending := Some(Pending(|data|, ptr, ty, |data|));
      ok := true;
    }

    // The data of a call, new or retried
    ghost method StartCall(input: seq<byte>)
      requires Shape() && SealedOnce(trace, pending, wnum) && trace.current <= input
      modifies this`trace
      ensures Shape() && SealedOnce(trace, pending, wnum) && trace == old(trace).(current := input) && wnum <= |input|
    {
      Retried(trace, pending, wnum, input);
      hide InOrder, SealedOnce, EnvOk, SealedInTurn;
      trace := trace.(current := input);
    }

    ghost method EndCall(n: nat)
      requires Shape() && SealedOnce(trace, None, n) && n <= |trace.current|
      modifies this`trace
      ensures Shape() && SealedOnce(trace, None, 0)
      ensures trace == old(trace).(reported := old(trace).reported + old(trace).current[..n], current := [])
    {
      Reported(trace, n);
      hide InOrder, SealedOnce, EnvOk, SealedInTurn;
      trace := trace.(reported := trace.reported + trace.current[..n], current := []);
    }

    // The loop of ssl3_write_app_data: what is left from start on, record by record
    method WriteFragments(input: seq<byte>, ptr: int, start: nat) returns (ret: int, needsHandshake: bool)
      requires Shape() && SealedOnce(trace, pending, start) && wnum == 0 && trace.current == input && start <= |input|
      modifies this`writes, this`trace, this`pending, this`seals, this`flight, this`wnum, this`early, this`earlyLeft, buf, buf.mem
      ensures Valid() && ret <= |input|
      ensures trace == (if ret > 0 then old(trace).(reported := old(trace).reported + input[..ret], current := []) else old(trace)).(log := trace.log, given := trace.given)
      ensures old(trace).given <= trace.given && old(seals) <= seals && Extends(old(trace).log, old(flight), trace.log, flight)
      ensures ret > 0 ==> wnum == 0 && pending == None
      ensures ret > 0 && !partialWrite ==> ret == |input|
      ensures ret <= 0 && pending.Some? && (old(pending).None? || old(ResumesFrom(start, ptr, |input|))) ==> Resumes(ptr, |input|)
      ensures Smooth(env) && !old(early) && start < |input| && 0 < maxSendFragment <= MAX_PLAIN_LENGTH && old(ResumesFrom(start, ptr, |input|))
        ==> ret > 0
      // What is reported as early data counts against the ticket's limit, and
      // the handshake is called for exactly when that is used up.
      ensures earlyLeft + (if !old(early) then 0 else if ret > 0 then ret - start else wnum - start) == old(earlyLeft)
      ensures needsHandshake ==> old(early) && earlyLeft == 0 && ret == -1 && !early
      ensures !needsHandshake ==> early == old(early)
      ensures buf.mem == old(buf.mem) || fresh(buf.mem)
    {
      needsHandshake := false;
      hide Shape, SealedOnce, Smooth, Extends;
      NothingAdded(trace.log, flight);
      var tot: nat, n, isEarly := start, |input| - start, early;
      while true
        invariant Shape() && SealedOnce(trace, pending, tot) && wnum == 0
        invariant trace == old(trace).(log := trace.log, given := trace.given)
        invariant old(trace).given <= trace.given && old(seals) <= seals && Extends(old(trace).log, old(flight), trace.log, flight)
        invariant n == |input| - tot >= 0
        invariant early == isEarly && earlyLeft + (if isEarly then tot - start else 0) == old(earlyLeft)
        invariant buf.mem == old(buf.mem) || fresh(buf.mem)
        invariant (pending == old(pending) && tot == start && buf.size == old(buf.size)) || (pending.None? && buf.size == 0 && n > 0)
        decreases n
      {
        var max := maxSendFragment;
        if isEarly && max > earlyLeft {
          max := earlyLeft;
          if max == 0 {
            wnum := tot;
            early := false;
            return -1, true;
          }
        }
        var nw := if n > max then max else n;
        ghost var log, left := trace.log, flight;
        var r := WriteRecord(APPLICATION_DATA, ptr + tot, input[tot..tot + nw], tot);
        ExtendsFurther(old(trace).log, old(flight), log, left, trace.log, flight);
        if r <= 0 {
          wnum := tot;
          return r, false;
        }
        if isEarly {
          earlyLeft := earlyLeft - r;
        }
        if r == n || partialWrite {
          ret := tot + r;
          EndCall(ret);
          return;
        }
        n := n - r;
        tot := tot + r;
      }
    }

    // ssl3_write_app_data.  A call that returned 0 or less is to be retried
    // with the same data, or more of it.
    method WriteAppData(input: seq<byte>, ptr: int) returns (ret: int, needsHandshake: bool)
      requires Valid() && trace.current <= input
      modifies this`writes, this`trace, this`pending, this`seals, this`flight, this`wnum, this`early, this`earlyLeft, buf, buf.mem
      ensures Valid() && ret <= |input|
      ensures Follows(old(View()), View()) && Extends(old(trace).log, old(flight), trace.log, flight)
      ensures ret > 0 ==> trace.reported == old(trace).reported + input[..ret] && trace.current == [] && wnum == 0 && pending == None
      ensures ret > 0 && !partialWrite ==> ret == |input|
      // Behind a close_notify nothing is written.
      ensures old(shutdown) ==> ret == -1 && trace == old(trace).(current := input) && writes == old(writes)
      ensures ret <= 0 ==> trace.reported == old(trace).reported && trace.current == input
      // A record that is left pending can be asked for with the same arguments.
      ensures ret <= 0 && pending.Some? && (old(pending).None? || old(Resumes(ptr, |input|))) ==> Resumes(ptr, |input|)
      ensures Smooth(env) && !shutdown && !old(early) && old(wnum) < |input| && 0 < maxSendFragment <= MAX_PLAIN_LENGTH && old(Resumes(ptr, |input|))
        ==> ret > 0
      ensures !old(shutdown) ==>
                earlyLeft + (if !old(early) then 0 else if ret > 0 then ret - old(wnum) else wnum - old(wnum)) == old(earlyLeft)
      ensures needsHandshake ==> old(early) && earlyLeft == 0 && ret == -1 && !early
      ensures !needsHandshake ==> early == old(early)
      ensures buf.mem == old(buf.mem) || fresh(buf.mem)
    {
      hide Shape, SealedOnce, Smooth, Extends;
      NothingAdded(trace.log, flight);
      StartCall(input);
      if shutdown {
        // SSL_R_PROTOCOL_IS_SHUTDOWN
        return -1, false;
      }
      var tot: nat := wnum;
      wnum := 0;
      if |input| < tot {
        // SSL_R_BAD_LENGTH: not in a proper retry
        assert false;
      }
      ret, needsHandshake := WriteFragments(input, ptr, tot);
    }
  }
}
