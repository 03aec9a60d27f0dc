// Saturating reference counts: the locked version, the compare-and-swap
// version run by any number of threads, and why they agree.
module RefCount {
  import opened Wire

  const MAX_COUNT: nat := 0xFFFF_FFFF  // CRYPTO_REFCOUNT_MAX

  // ---- The locked version ----

  function Incremented(count: nat): nat {
    if count < MAX_COUNT then count + 1 else count
  }

  function Decremented(count: nat): nat
    requires count > 0
  {
    if count < MAX_COUNT then count - 1 else count
  }

  // crypto/refcount_lock.c; the bodies run under the lock.
  class Counter {
    var count: nat

    constructor (n: nat)
      ensures count == n
    {
      count := n;
    }

    method Inc()
      modifies this
      ensures count == Incremented(old(count))
    {
      if count < MAX_COUNT {
        count := count + 1;
      }
    }

    // None is abort().
    method DecAndTestZero() returns (ret: Option<bool>)
      modifies this
      ensures if old(count) == 0 then ret == None && count == 0
              else count == Decremented(old(count)) && ret == Some(count == 0)
    {
      if count == 0 {
        return None;
      }
      if count < MAX_COUNT {
        count := count - 1;
      }
      ret := Some(count == 0);
    }
  }

  // Threads that call these: the body runs in one step, unless a thread has
  // called abort() with the lock held.
  datatype LockedThread = AtRest | IncCalled | IncReturning | DecCalled | DecReturning(ret: bool) | Crashed

  datatype LockedState = LockedState(count: nat, threads: seq<LockedThread>)

  datatype LockedStep = CallInc | CallDec | Body | Return

  function LockedNext(s: LockedState, t: nat, step: LockedStep): Option<LockedState> {
    if t >= |s.threads| || Crashed in s.threads then None
    else
      match (step, s.threads[t])
      case (CallInc, AtRest) => Some(s.(threads := s.threads[t := IncCalled]))
      case (CallDec, AtRest) => Some(s.(threads := s.threads[t := DecCalled]))
      case (Body, IncCalled) => Some(LockedState(Incremented(s.count), s.threads[t := IncReturning]))
      case (Body, DecCalled) =>
        if s.count == 0 then Some(s.(threads := s.threads[t := Crashed]))
        else Some(LockedState(Decremented(s.count), s.threads[t := DecReturning(Decremented(s.count) == 0)]))
      case (Return, IncReturning) => Some(s.(threads := s.threads[t := AtRest]))
      case (Return, DecReturning(_)) => Some(s.(threads := s.threads[t := AtRest]))
      case _ => None
  }

  function LockedRun(s: LockedState, steps: seq<(nat, LockedStep)>): Option<LockedState>
    decreases |steps|
  {
    if steps == [] then Some(s)
    else
      var s' := LockedNext(s, steps[0].0, steps[0].1);
      if s'.None? then None else LockedRun(s'.value, steps[1..])
  }

  // ---- The compare-and-swap version ----

  // Where a thread is, and how many references its owner holds.  A reference
  // is given up when a decrement is called, and gained when an increment took
  // effect.
  datatype Pc = Idle | IncStart | IncLoop(expected: nat) | IncDone | DecStart | DecLoop(expected: nat) | DecDone(ret: bool) | Dead

  datatype Thread = Thread(pc: Pc, held: int)

  // incs and decs count the exchanges that succeeded, zeros those decrements
  // that return 1.
  datatype State = State(count: nat, threads: seq<Thread>, incs: nat, decs: nat, zeros: nat)

  // Loop is one pass of the loop; its exchange may fail although the value is
  // the expected one.  HandOver passes a reference to another thread.
  datatype Step = StartInc | StartDec | Load | Loop(spurious: bool) | Leave | HandOver(to: nat)

  function Set(s: State, t: nat, pc: Pc): State
    requires t < |s.threads|
  {
    s.(threads := s.threads[t := s.threads[t].(pc := pc)])
  }

  function Next(s: State, t: nat, step: Step): Option<State> {
    if t >= |s.threads| then None
    else
      var th := s.threads[t];
      match (step, th.pc)
      case (StartInc, Idle) => Some(Set(s, t, IncStart))
      case (StartDec, Idle) => Some(s.(threads := s.threads[t := Thread(DecStart, th.held - 1)]))
      case (Load, IncStart) => Some(Set(s, t, IncLoop(s.count)))
      case (Load, DecStart) => Some(Set(s, t, DecLoop(s.count)))
      case (Loop(spurious), IncLoop(expected)) =>
        if expected == MAX_COUNT then Some(s.(threads := s.threads[t := Thread(IncDone, th.held + 1)]))
        else if s.count == expected && !spurious then
          Some(s.(count := expected + 1, threads := s.threads[t := Thread(IncDone, th.held + 1)], incs := s.incs + 1))
        else Some(Set(s, t, IncLoop(s.count)))
      case (Loop(spurious), DecLoop(expected)) =>
        if expected == 0 then Some(Set(s, t, Dead))
        else if expected == MAX_COUNT then Some(Set(s, t, DecDone(false)))
        else if s.count == expected && !spurious then
          var newValue := expected - 1;
          Some(Set(s, t, DecDone(newValue == 0)).(count := newValue, decs := s.decs + 1, zeros := s.zeros + if newValue == 0 then 1 else 0))
        else Some(Set(s, t, DecLoop(s.count)))
      case (Leave, IncDone) => Some(Set(s, t, Idle))
      case (Leave, DecDone(_)) => Some(Set(s, t, Idle))
      case (HandOver(to), Idle) =>
        if to >= |s.threads| || to == t then None
        else
          Some(s.(threads := s.threads[t := Thread(Idle, th.held - 1)][to := s.threads[to].(held := s.threads[to].held + 1)]))
      case _ => None
  }

  function Run(s: State, steps: seq<(nat, Step)>): Option<State>
    decreases |steps|
  {
    if steps == [] then Some(s)
    else
      var s' := Next(s, steps[0].0, steps[0].1);
      if s'.None? then None else Run(s'.value, steps[1..])
  }

  // ---- It refines the locked version ----

  // A thread that saw a saturated count may act on it later: it still is.
  ghost predicate Sound(s: State) {
    && s.count <= MAX_COUNT
    && forall t | 0 <= t < |s.threads| ::
         var pc := s.threads[t].pc;
         && (pc.IncLoop? || pc.DecLoop? ==> pc.expected <= MAX_COUNT)
         && ((pc.IncLoop? || pc.DecLoop?) && pc.expected == MAX_COUNT ==> s.count == MAX_COUNT)
  }

  lemma NextKeepsSound(s: State, t: nat, step: Step)
    requires Sound(s) && Next(s, t, step).Some?
    ensures Sound(Next(s, t, step).value) && |Next(s, t, step).value.threads| == |s.threads|
    ensures s.count == MAX_COUNT ==> Next(s, t, step).value.count == MAX_COUNT
  {
  }

  // A saturated count never changes.
  lemma {:induction false} SaturatedForever(s: State, steps: seq<(nat, Step)>)
    requires Sound(s) && s.count == MAX_COUNT && Run(s, steps).Some?
    ensures Run(s, steps).value.count == MAX_COUNT
    decreases |steps|
  {
    if steps != [] {
      NextKeepsSound(s, steps[0].0, steps[0].1);
      SaturatedForever(Next(s, steps[0].0, steps[0].1).value, steps[1..]);
    }
  }

  // A call takes effect when its exchange succeeds, or when it sees that there
  // is nothing to exchange.
  function Locked(pc: Pc): LockedThread {
    match pc
    case Idle => AtRest
    case IncStart => IncCalled
    case IncLoop(expected) => if expected == MAX_COUNT then IncReturning else IncCalled
    case IncDone => IncReturning
    case DecStart => DecCalled
    case DecLoop(expected) => if expected == 0 then Crashed else if expected == MAX_COUNT then DecReturning(false) else DecCalled
    case DecDone(ret) => DecReturning(ret)
    case Dead => Crashed
  }

  function AsLocked(s: State): LockedState {
    LockedState(s.count, seq(|s.threads|, t requires 0 <= t < |s.threads| => Locked(s.threads[t].pc)))
  }

  // No decrement has seen zero.
  ghost predicate NoneCrashed(s: State) {
    forall t | 0 <= t < |s.threads| :: Locked(s.threads[t].pc) != Crashed
  }

  // Each step is a step of the locked version, or none.
  function Matching(s: State, t: nat, step: Step): seq<(nat, LockedStep)>
    requires t < |s.threads|
  {
    var pc := s.threads[t].pc;
    match step
    case StartInc => [(t, CallInc)]
    case StartDec => [(t, CallDec)]
    case Load => if s.count == MAX_COUNT || (pc.DecStart? && s.count == 0) then [(t, Body)] else []
    case Loop(spurious) =>
      if (pc.IncLoop? || pc.DecLoop?) && pc.expected != MAX_COUNT
         && ((s.count == pc.expected && !spurious) || s.count == MAX_COUNT || (pc.DecLoop? && s.count == 0))
      then [(t, Body)] else []
    case Leave => [(t, Return)]
    case HandOver(_) => []
  }

  lemma StepRefinesLocked(s: State, t: nat, step: Step)
    requires Sound(s) && NoneCrashed(s) && Next(s, t, step).Some?
    ensures LockedRun(AsLocked(s), Matching(s, t, step)) == Some(AsLocked(Next(s, t, step).value))
  {
    var s' := Next(s, t, step).value;
    var m := Matching(s, t, step);
    var a, a' := AsLocked(s), AsLocked(s');
    assert Crashed !in a.threads;
    assert a.threads[t] == Locked(s.threads[t].pc);
    if m == [] {
      assert a.threads == a'.threads;
    } else {
      assert a'.threads == a.threads[t := Locked(s'.threads[t].pc)];
      assert LockedNext(a, t, m[0].1) == Some(a');
      assert LockedRun(a', m[1..]) == Some(a');
    }
  }

  // No decrement has seen zero before the last step.
  ghost predicate NoCrashBefore(s: State, steps: seq<(nat, Step)>)
    decreases |steps|
  {
    steps == [] || (NoneCrashed(s) && Next(s, steps[0].0, steps[0].1).Some?
                    && NoCrashBefore(Next(s, steps[0].0, steps[0].1).value, steps[1..]))
  }

  lemma {:induction false} LockedRunThen(s: LockedState, p: seq<(nat, LockedStep)>, q: seq<(nat, LockedStep)>)
    requires LockedRun(s, p).Some?
    ensures LockedRun(s, p + q) == LockedRun(LockedRun(s, p).value, q)
    decreases |p|
  {
    if p == [] {
      assert p + q == q;
    } else {
      assert (p + q)[0] == p[0] && (p + q)[1..] == p[1..] + q;
      LockedRunThen(LockedNext(s, p[0].0, p[0].1).value, p[1..], q);
    }
  }

  // What callers see: calls, and what they return
  datatype Event = IncCall | DecCall | IncReturn | DecReturn(ret: bool)

  function EventsOf(s: State, t: nat, step: Step): seq<(nat, Event)>
    requires t < |s.threads|
  {
    match (step, s.threads[t].pc)
    case (StartInc, _) => [(t, IncCall)]
    case (StartDec, _) => [(t, DecCall)]
    case (Leave, IncDone) => [(t, IncReturn)]
    case (Leave, DecDone(ret)) => [(t, DecReturn(ret))]
    case _ => []
  }

  function Events(s: State, steps: seq<(nat, Step)>): seq<(nat, Event)>
    requires Run(s, steps).Some?
    decreases |steps|
  {
    if steps == [] then []
    else EventsOf(s, steps[0].0, steps[0].1) + Events(Next(s, steps[0].0, steps[0].1).value, steps[1..])
  }

  function LockedEventsOf(s: LockedState, t: nat, step: LockedStep): seq<(nat, Event)>
    requires t < |s.threads|
  {
    match (step, s.threads[t])
    case (CallInc, _) => [(t, IncCall)]
    case (CallDec, _) => [(t, DecCall)]
    case (Return, IncReturning) => [(t, IncReturn)]
    case (Return, DecReturning(ret)) => [(t, DecReturn(ret))]
    case _ => []
  }

  function LockedEvents(s: LockedState, steps: seq<(nat, LockedStep)>): seq<(nat, Event)>
    requires LockedRun(s, steps).Some?
    decreases |steps|
  {
    if steps == [] then []
    else LockedEventsOf(s, steps[0].0, steps[0].1) + LockedEvents(LockedNext(s, steps[0].0, steps[0].1).value, steps[1..])
  }

  lemma StepKeepsEvents(s: State, t: nat, step: Step)
    requires Sound(s) && NoneCrashed(s) && Next(s, t, step).Some?
    ensures LockedRun(AsLocked(s), Matching(s, t, step)).Some?
    ensures LockedEvents(AsLocked(s), Matching(s, t, step)) == EventsOf(s, t, step)
  {
    StepRefinesLocked(s, t, step);
    var a, m := AsLocked(s), Matching(s, t, step);
    assert a.threads[t] == Locked(s.threads[t].pc);
    if m != [] {
      assert m[1..] == [];
      assert LockedEvents(LockedNext(a, t, m[0].1).value, m[1..]) == [];
    }
  }

  lemma {:induction false} LockedEventsThen(s: LockedState, p: seq<(nat, LockedStep)>, q: seq<(nat, LockedStep)>)
    requires LockedRun(s, p).Some? && LockedRun(LockedRun(s, p).value, q).Some?
    ensures LockedRun(s, p + q).Some?
    ensures LockedEvents(s, p + q) == LockedEvents(s, p) + LockedEvents(LockedRun(s, p).value, q)
    decreases |p|
  {
    LockedRunThen(s, p, q);
    if p == [] {
      assert p + q == q;
    } else {
      assert (p + q)[0] == p[0] && (p + q)[1..] == p[1..] + q;
      LockedEventsThen(LockedNext(s, p[0].0, p[0].1).value, p[1..], q);
    }
  }

  // The locked steps that match, one step after the other
  function MatchingRun(s: State, steps: seq<(nat, Step)>): seq<(nat, LockedStep)>
    requires Run(s, steps).Some?
    decreases |steps|
  {
    if steps == [] then []
    else Matching(s, steps[0].0, steps[0].1) + MatchingRun(Next(s, steps[0].0, steps[0].1).value, steps[1..])
  }

  // Every run, and with it each of its beginnings, is one of the locked
  // version: the matching steps lead to the same count, and callers see the
  // same calls and the same returned values in the same order, up to the
  // moment a decrement sees zero.
  lemma {:induction false} RunRefinesLocked(s: State, steps: seq<(nat, Step)>)
    requires Sound(s) && Run(s, steps).Some? && NoCrashBefore(s, steps)
    ensures LockedRun(AsLocked(s), MatchingRun(s, steps)) == Some(AsLocked(Run(s, steps).value))
    ensures LockedEvents(AsLocked(s), MatchingRun(s, steps)) == Events(s, steps)
    decreases |steps|
  {
    if steps != [] {
      var t, step := steps[0].0, steps[0].1;
      var s' := Next(s, t, step).value;
      NextKeepsSound(s, t, step);
      StepRefinesLocked(s, t, step);
      StepKeepsEvents(s, t, step);
      RunRefinesLocked(s', steps[1..]);
      hide Next, Matching, Locked, AsLocked, LockedNext, EventsOf, LockedEventsOf;
      LockedRunThen(AsLocked(s), Matching(s, t, step), MatchingRun(s', steps[1..]));
      LockedEventsThen(AsLocked(s), Matching(s, t, step), MatchingRun(s', steps[1..]));
    }
  }

  // From then on that thread can only abort.
  lemma CrashIsFinal(s: State, t: nat, step: Step)
    requires t < |s.threads| && Locked(s.threads[t].pc) == Crashed && Next(s, t, step).Some?
    ensures Next(s, t, step).value == Set(s, t, Dead)
  {
  }

  // ---- Counting ----

  // No state of the run is saturated.
  ghost predicate NeverSaturates(s: State, steps: seq<(nat, Step)>)
    decreases |steps|
  {
    s.count < MAX_COUNT
    && (steps == [] || (Next(s, steps[0].0, steps[0].1).Some? && NeverSaturates(Next(s, steps[0].0, steps[0].1).value, steps[1..])))
  }

  // The count is what went in, less what went out.
  lemma {:induction false} CountIsBalance(s: State, steps: seq<(nat, Step)>)
    requires Sound(s) && Run(s, steps).Some? && NeverSaturates(s, steps)
    ensures var s' := Run(s, steps).value;
      s'.count - s.count == (s'.incs - s.incs) - (s'.decs - s.decs)
    decreases |steps|
  {
    if steps != [] {
      NextKeepsSound(s, steps[0].0, steps[0].1);
      CountIsBalance(Next(s, steps[0].0, steps[0].1).value, steps[1..]);
    }
  }

  // ---- Who frees the object ----

  // References held, and decrements that are under way
  function Refs(threads: seq<Thread>): int {
    if threads == [] then 0
    else threads[0].held + (if threads[0].pc.DecStart? || threads[0].pc.DecLoop? then 1 else 0) + Refs(threads[1..])
  }

  function RefsOf(th: Thread): int {
    th.held + if th.pc.DecStart? || th.pc.DecLoop? then 1 else 0
  }

  lemma {:induction false} RefsUpdate(threads: seq<Thread>, t: nat, th: Thread)
    requires t < |threads|
    ensures Refs(threads[t := th]) == Refs(threads) - RefsOf(threads[t]) + RefsOf(th)
    decreases |threads|
  {
    if t == 0 {
      assert threads[0 := th][1..] == threads[1..];
    } else {
      assert threads[t := th][1..] == threads[1..][t - 1 := th];
      RefsUpdate(threads[1..], t - 1, th);
    }
  }

  lemma {:induction false} RefsAtLeast(threads: seq<Thread>, t: nat)
    requires t < |threads| && forall k | 0 <= k < |threads| :: threads[k].held >= 0
    ensures Refs(threads) >= RefsOf(threads[t]) >= 0
    decreases |threads|
  {
    if t > 0 {
      RefsAtLeast(threads[1..], t - 1);
    } else if |threads| > 1 {
      RefsAtLeast(threads[1..], 0);
    }
  }

  // Callers increment only while they hold a reference, and give up only what
  // they hold.
  ghost predicate Disciplined(s: State, t: nat, step: Step) {
    t < |s.threads| && (step.StartInc? || step.StartDec? || step.HandOver? ==> s.threads[t].held >= 1)
  }

  ghost predicate Owned(s: State) {
    && Sound(s)
    && s.count == Refs(s.threads)
    && (forall t | 0 <= t < |s.threads| ::
         && s.threads[t].held >= 0
         && s.threads[t].pc != Dead
         && (s.threads[t].pc.IncStart? || s.threads[t].pc.IncLoop? ==> s.threads[t].held >= 1)
         && (s.threads[t].pc.IncLoop? || s.threads[t].pc.DecLoop? ==> s.threads[t].pc.expected >= 1))
    && (s.zeros == 0 <==> s.count >= 1)
    && s.zeros <= 1
  }

  lemma OwnedMeansCounted(s: State, t: nat)
    requires Owned(s) && t < |s.threads|
    ensures s.count >= RefsOf(s.threads[t]) >= 0
  {
    RefsAtLeast(s.threads, t);
  }

  // Below saturation, the count follows the references.
  lemma RefsFollowCount(s: State, t: nat, step: Step)
    requires t < |s.threads| && Next(s, t, step).Some?
    requires s.threads[t].pc.IncLoop? || s.threads[t].pc.DecLoop? ==> 1 <= s.threads[t].pc.expected < MAX_COUNT
    ensures var s' := Next(s, t, step).value;
      Refs(s'.threads) - Refs(s.threads) == s'.count - s.count
  {
    var s', th := Next(s, t, step).value, s.threads[t];
    hide Refs;
    if step.HandOver? {
      var mid := s.threads[t := Thread(Idle, th.held - 1)];
      RefsUpdate(s.threads, t, Thread(Idle, th.held - 1));
      RefsUpdate(mid, step.to, s'.threads[step.to]);
    } else {
      assert s'.threads == s.threads[t := s'.threads[t]];
      RefsUpdate(s.threads, t, s'.threads[t]);
    }
  }

  lemma NextKeepsOwned(s: State, t: nat, step: Step)
    requires Owned(s) && s.count < MAX_COUNT && Disciplined(s, t, step) && Next(s, t, step).Some?
    requires Next(s, t, step).value.count < MAX_COUNT
    ensures Owned(Next(s, t, step).value)
    ensures s.zeros == 1 ==>
      var s' := Next(s, t, step).value;
      s'.count == 0 && s'.incs == s.incs && s'.decs == s.decs && s'.zeros == 1
  {
    hide Refs;
    NextKeepsSound(s, t, step);
    OwnedMeansCounted(s, t);
    RefsFollowCount(s, t, step);
  }

  ghost predicate DisciplinedRun(s: State, steps: seq<(nat, Step)>)
    decreases |steps|
  {
    steps == [] || (Disciplined(s, steps[0].0, steps[0].1) && Next(s, steps[0].0, steps[0].1).Some?
                    && DisciplinedRun(Next(s, steps[0].0, steps[0].1).value, steps[1..]))
  }

  // Among callers that increment only while holding a reference: no decrement
  // aborts; at most one returns 1, and only when no reference is left; and
  // once one has, nothing is incremented or decremented again.
  lemma {:induction false} FinalDecrementFrees(s: State, steps: seq<(nat, Step)>)
    requires Owned(s) && NeverSaturates(s, steps) && DisciplinedRun(s, steps)
    ensures Run(s, steps).Some? && Owned(Run(s, steps).value)
    ensures s.zeros == 1 ==> Run(s, steps).value.incs == s.incs && Run(s, steps).value.decs == s.decs
    ensures Run(s, steps).value.zeros == 1 <==> Run(s, steps).value.count == 0
    decreases |steps|
  {
    if steps != [] {
      NextKeepsOwned(s, steps[0].0, steps[0].1);
      FinalDecrementFrees(Next(s, steps[0].0, steps[0].1).value, steps[1..]);
    }
  }

  // So when everything was given up, exactly one decrement has returned 1.
  lemma AllGivenUp(s: State)
    requires Owned(s) && forall t | 0 <= t < |s.threads| :: s.threads[t] == Thread(Idle, 0)
    ensures s.count == 0 && s.zeros == 1
  {
    NothingHeld(s.threads);
  }

  lemma {:induction false} NothingHeld(threads: seq<Thread>)
    requires forall t | 0 <= t < |threads| :: threads[t] == Thread(Idle, 0)
    ensures Refs(threads) == 0
  {
    if threads != [] {
      NothingHeld(threads[1..]);
    }
  }
}
