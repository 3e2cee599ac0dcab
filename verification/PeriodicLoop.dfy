/**
 The drainable interval loop behind the retry queue: ticks never overlap, none
 begins once the loop is stopping, and stopping waits for the tick in flight, up
 to a bound.
 */
module PeriodicLoop {
  import opened Wrappers

  /** Whether a stop call has returned, and when. */
  datatype StopOutcome = Waiting | Drained(at: int) | TimedOut(at: int)

  /** One `stop()` that found a tick in flight.  `epoch` is how often the loop had been started. */
  datatype StopCall = StopCall(tick: nat, deadline: int, epoch: nat, outcome: StopOutcome)

  /** The three fields of the loop, and a record of what happened: how many ticks have begun
      (they are named by that number), how many times the loop was started, the ticks whose
      function has not settled yet, when the others settled, the stop calls, and the time. */
  datatype Loop = Loop(
    timer: bool,
    inFlight: Option<nat>,
    stopping: bool,
    begun: nat,
    epoch: nat,
    unsettled: set<nat>,
    settledAt: map<nat, int>,
    stops: seq<StopCall>,
    clock: int)

  const INITIAL := Loop(false, None, false, 0, 0, {}, map[], [], 0)

  datatype Action =
    | Start
    /** The interval fires; it can only while the interval exists. */
    | Fire
    /** The tick in flight resolves or rejects. */
    | Settle
    | Stop(timeout: nat)
    /** Stop call `k` sees the promise it awaits settled. */
    | Resolve(k: nat)
    /** The timeout of stop call `k` fires. */
    | Expire(k: nat)
    | Pass(time: nat)

  function StartLoop(l: Loop): Loop {
    if l.timer then l else l.(timer := true, stopping := false, epoch := l.epoch + 1)
  }

  function TickLoop(l: Loop): Loop {
    if l.stopping || l.inFlight.Some? then l
    else l.(inFlight := Some(l.begun), unsettled := l.unsettled + {l.begun}, begun := l.begun + 1)
  }

  function SettleTick(l: Loop): Loop
    requires l.inFlight.Some?
  {
    l.(inFlight := None, unsettled := l.unsettled - {l.inFlight.value},
       settledAt := l.settledAt[l.inFlight.value := l.clock])
  }

  function BeginStop(l: Loop, timeout: nat): Loop {
    var stopped := l.(stopping := true, timer := false);
    if l.inFlight.None? then stopped
    else stopped.(stops := l.stops + [StopCall(l.inFlight.value, l.clock + timeout, l.epoch, Waiting)])
  }

  predicate Awaiting(l: Loop, k: nat) {
    k < |l.stops| && l.stops[k].outcome == Waiting
  }

  function EndStop(l: Loop, k: nat, outcome: StopOutcome): Loop
    requires Awaiting(l, k)
  {
    l.(stops := l.stops[k := l.stops[k].(outcome := outcome)])
  }

  /** Stop call `k` is waiting for a tick that has settled: its promise callback is due. */
  predicate Due(l: Loop, k: nat) {
    Awaiting(l, k) && l.stops[k].tick !in l.unsettled
  }

  /** An action that is not enabled is absent, and time does not pass a stop call's timeout before
      that call has returned.  Callbacks and timers run in any order. */
  ghost predicate Enabled(l: Loop, a: Action) {
    match a
    case Fire => l.timer
    case Settle => l.inFlight.Some?
    case Resolve(k) => Due(l, k)
    case Expire(k) => Awaiting(l, k) && l.clock >= l.stops[k].deadline
    case Pass(time) => forall k :: 0 <= k < |l.stops| && Awaiting(l, k) ==> l.clock + time <= l.stops[k].deadline
    case _ => true
  }

  function Do(l: Loop, a: Action): Loop {
    match a
    case Start => StartLoop(l)
    case Fire => TickLoop(l)
    case Settle => if l.inFlight.Some? then SettleTick(l) else l
    case Stop(timeout) => BeginStop(l, timeout)
    case Resolve(k) => if Awaiting(l, k) then EndStop(l, k, Drained(l.clock)) else l
    case Expire(k) => if Awaiting(l, k) then EndStop(l, k, TimedOut(l.clock)) else l
    case Pass(time) => l.(clock := l.clock + time)
  }

  ghost predicate Path(trace: seq<Loop>, acts: seq<Action>) {
    && |trace| == |acts| + 1
    && forall i :: 0 <= i < |acts| ==> Enabled(trace[i], acts[i]) && trace[i + 1] == Do(trace[i], acts[i])
  }

  ghost predicate Run(trace: seq<Loop>, acts: seq<Action>) {
    Path(trace, acts) && trace[0] == INITIAL
  }

  ghost predicate StopSound(l: Loop, s: StopCall) {
    && s.epoch <= l.epoch && s.tick < l.begun
    && (s.outcome == Waiting ==> l.clock <= s.deadline)
    // Until a restart, the only tick that can be in flight is the one this call waits for.
    && (s.epoch == l.epoch ==> l.stopping && (l.inFlight.Some? ==> l.inFlight.value == s.tick))
  }

  ghost predicate Inv(l: Loop) {
    && l.unsettled == (if l.inFlight.Some? then {l.inFlight.value} else {})
    && (l.inFlight.Some? ==> l.inFlight.value < l.begun)
    && (l.timer ==> !l.stopping)
    && forall k :: 0 <= k < |l.stops| ==> StopSound(l, l.stops[k])
  }

  lemma InvStep(l: Loop, a: Action)
    requires Inv(l) && Enabled(l, a)
    ensures Inv(Do(l, a))
  {
  }

  lemma {:induction false} InvAlways(trace: seq<Loop>, acts: seq<Action>, n: nat)
    requires Run(trace, acts) && n < |trace|
    ensures Inv(trace[n])
  {
    if n > 0 {
      InvAlways(trace, acts, n - 1);
      InvStep(trace[n - 1], acts[n - 1]);
    }
  }

  /** At every moment at most one tick is running. */
  lemma AtMostOneTick(trace: seq<Loop>, acts: seq<Action>, n: nat)
    requires Run(trace, acts) && n < |trace|
    ensures |trace[n].unsettled| <= 1
  {
    InvAlways(trace, acts, n);
  }

  /** Between a stop and the next start no tick begins. */
  lemma {:induction false} NoTickAfterStop(trace: seq<Loop>, acts: seq<Action>, m: nat, n: nat)
    requires Run(trace, acts) && m < n < |trace| && acts[m].Stop?
    requires forall i :: m < i < n ==> !acts[i].Start?
    ensures trace[n].stopping && !trace[n].timer && trace[n].begun == trace[m].begun
  {
    assert trace[n] == Do(trace[n - 1], acts[n - 1]);
    if m + 1 < n {
      NoTickAfterStop(trace, acts, m, n - 1);
    }
  }

  /** A stop reports "drained" only when its own tick is done and, unless the loop was restarted
      meanwhile, no tick is in flight. */
  lemma DrainedMeansIdle(trace: seq<Loop>, acts: seq<Action>, n: nat, k: nat)
    requires Run(trace, acts) && n < |acts| && acts[n] == Resolve(k)
    ensures trace[n + 1].stops[k].outcome == Drained(trace[n].clock)
    ensures trace[n].stops[k].tick !in trace[n + 1].unsettled
    ensures trace[n].stops[k].epoch == trace[n].epoch ==> trace[n + 1].inFlight.None?
  {
    InvAlways(trace, acts, n);
    assert StopSound(trace[n], trace[n].stops[k]);
  }

  /** A stop call returns once: its outcome, when it has one, is final. */
  lemma {:induction false} ReturnsOnce(trace: seq<Loop>, acts: seq<Action>, m: nat, n: nat, k: nat)
    requires Path(trace, acts) && m <= n < |trace| && k < |trace[m].stops|
    ensures k < |trace[n].stops| && trace[n].stops[k].tick == trace[m].stops[k].tick
    ensures trace[n].stops[k].deadline == trace[m].stops[k].deadline
    ensures trace[m].stops[k].outcome != Waiting ==> trace[n].stops[k] == trace[m].stops[k]
  {
    if m < n {
      ReturnsOnce(trace, acts, m, n - 1, k);
      assert trace[n] == Do(trace[n - 1], acts[n - 1]);
    }
  }

  /** A stop never waits for ever: the call with the nearest deadline times out there, unless its tick
      settles before. */
  lemma SomeWaitEnds(l: Loop) returns (k: nat)
    requires Inv(l) && exists j :: Awaiting(l, j)
    ensures Awaiting(l, k) && l.clock <= l.stops[k].deadline
    ensures var wait := l.stops[k].deadline - l.clock;
            && Enabled(l, Pass(wait)) && Enabled(Do(l, Pass(wait)), Expire(k))
            && Do(Do(l, Pass(wait)), Expire(k)).stops[k].outcome == TimedOut(l.stops[k].deadline)
  {
    k :| Awaiting(l, k);
    for j := 0 to |l.stops|
      invariant Awaiting(l, k)
      invariant forall i :: 0 <= i < j && Awaiting(l, i) ==> l.stops[k].deadline <= l.stops[i].deadline
    {
      if Awaiting(l, j) && l.stops[j].deadline < l.stops[k].deadline {
        k := j;
      }
    }
    assert StopSound(l, l.stops[k]);
  }

  // ---------------------------------------------------------------- callbacks before timers

  /** The event loop's rule: while a promise callback is due nothing but callbacks runs, which may
      themselves start or stop the loop. */
  ghost predicate Prompt(l: Loop, a: Action) {
    (exists k :: 0 <= k < |l.stops| && Due(l, k)) ==> a.Resolve? || a.Start? || a.Stop?
  }

  ghost predicate PromptRun(trace: seq<Loop>, acts: seq<Action>) {
    Run(trace, acts) && forall i :: 0 <= i < |acts| ==> Prompt(trace[i], acts[i])
  }

  ghost predicate Timely(l: Loop, s: StopCall) {
    match s.outcome
    case Waiting =>
      && l.clock <= s.deadline
      && if s.tick in l.unsettled then l.inFlight == Some(s.tick)
         else l.inFlight.None? && s.tick in l.settledAt && l.settledAt[s.tick] == l.clock
    case Drained(at) => s.tick in l.settledAt && l.settledAt[s.tick] == at <= s.deadline
    case TimedOut(at) => at == s.deadline <= l.clock && (s.tick in l.settledAt ==> at <= l.settledAt[s.tick])
  }

  ghost predicate TimelyInv(l: Loop) {
    && Inv(l)
    && (forall t :: t in l.settledAt ==> t !in l.unsettled && t < l.begun)
    && forall k :: 0 <= k < |l.stops| ==> Timely(l, l.stops[k])
  }

  lemma TimelyStep(l: Loop, a: Action)
    requires TimelyInv(l) && Enabled(l, a) && Prompt(l, a)
    ensures TimelyInv(Do(l, a))
  {
    var l' := Do(l, a);
    InvStep(l, a);
    forall k | 0 <= k < |l'.stops| ensures Timely(l', l'.stops[k]) {
      if k < |l.stops| {
        assert StopSound(l, l.stops[k]) && Timely(l, l.stops[k]);
        assert !a.Resolve? && !a.Start? && !a.Stop? ==> !Due(l, k);
      }
    }
  }

  lemma {:induction false} TimelyAlways(trace: seq<Loop>, acts: seq<Action>, n: nat)
    requires PromptRun(trace, acts) && n < |trace|
    ensures TimelyInv(trace[n])
  {
    if n > 0 {
      TimelyAlways(trace, acts, n - 1);
      TimelyStep(trace[n - 1], acts[n - 1]);
    }
  }

  /** The race of a stop call, under that rule: it has returned once its bound is passed; a call that
      returned is drained, at the very time its tick settled, if that was before the deadline, and
      timed out, exactly at the deadline, if the tick settled later or never; and what it returned
      stays so. */
  lemma StopIsBounded(trace: seq<Loop>, acts: seq<Action>, m: nat, n: nat, k: nat)
    requires PromptRun(trace, acts) && m <= n < |trace| && k < |trace[m].stops|
    ensures k < |trace[n].stops|
    ensures var s := trace[n].stops[k];
            && (trace[n].clock > s.deadline ==> s.outcome != Waiting)
            && (s.outcome.Drained? ==>
                  s.tick in trace[n].settledAt && s.outcome.at == trace[n].settledAt[s.tick] <= s.deadline)
            && (s.outcome.TimedOut? ==>
                  && s.outcome.at == s.deadline
                  && (s.tick in trace[n].settledAt ==> s.deadline <= trace[n].settledAt[s.tick]))
            && (s.outcome != Waiting && !(s.tick in trace[n].settledAt && trace[n].settledAt[s.tick] == s.deadline) ==>
                  (s.outcome.Drained? <==> s.tick in trace[n].settledAt && trace[n].settledAt[s.tick] < s.deadline))
    ensures trace[m].stops[k].outcome != Waiting ==> trace[n].stops[k] == trace[m].stops[k]
  {
    TimelyAlways(trace, acts, n);
    ReturnsOnce(trace, acts, m, n, k);
    assert Timely(trace[n], trace[n].stops[k]);
  }

  /** From the call on, with its own timeout: a stop that finds a tick in flight awaits that tick; it has
      returned once the timeout has passed since the call; it is drained, at the time the tick settled,
      if that was earlier, and timed out exactly at the timeout if the tick settled later or never. One
      that finds none awaits nothing. */
  lemma StopWithinTimeout(trace: seq<Loop>, acts: seq<Action>, m: nat, n: nat)
    requires PromptRun(trace, acts) && m < n < |trace| && acts[m].Stop?
    ensures trace[m].inFlight.None? ==> trace[m + 1].stops == trace[m].stops
    ensures trace[m].inFlight.Some? ==>
              var k, bound, tick := |trace[m].stops|, trace[m].clock + acts[m].timeout, trace[m].inFlight.value;
              && k < |trace[n].stops| && trace[n].stops[k].tick == tick
              && var outcome, settledAt := trace[n].stops[k].outcome, trace[n].settledAt;
              && (trace[n].clock > bound ==> outcome != Waiting)
              && (outcome.Drained? ==> tick in settledAt && outcome.at == settledAt[tick] <= bound)
              && (outcome.TimedOut? ==> outcome.at == bound && (tick in settledAt ==> bound <= settledAt[tick]))
              && (outcome != Waiting && tick in settledAt && settledAt[tick] < bound ==>
                     outcome == Drained(settledAt[tick]))
              && (outcome != Waiting && !(tick in settledAt && settledAt[tick] <= bound) ==> outcome == TimedOut(bound))
  {
    assert trace[m + 1] == Do(trace[m], acts[m]);
    if trace[m].inFlight.Some? {
      var k := |trace[m].stops|;
      StopIsBounded(trace, acts, m + 1, n, k);
      ReturnsOnce(trace, acts, m + 1, n, k);
    }
  }

  /** Under that rule "drained" always means that no tick is running, restarted or not. */
  lemma PromptDrainedIsIdle(trace: seq<Loop>, acts: seq<Action>, n: nat, k: nat)
    requires PromptRun(trace, acts) && n < |acts| && acts[n] == Resolve(k)
    ensures trace[n + 1].inFlight.None? && trace[n + 1].unsettled == {}
  {
    TimelyAlways(trace, acts, n);
    assert Timely(trace[n], trace[n].stops[k]);
  }

  // ---------------------------------------------------------------- callbacks in any order

  /** Stop call `k` reports "drained" at the end, with a tick in flight, and the loop is not started
      on the way. */
  ghost predicate DrainsRunning(trace: seq<Loop>, acts: seq<Action>, k: nat) {
    && Path(trace, acts) && acts != [] && acts[|acts| - 1] == Resolve(k) && trace[|acts|].inFlight.Some?
    && forall i :: 0 <= i < |acts| ==> !acts[i].Start?
  }

  /** The loop can have another tick in flight than the awaited one, without being started. */
  predicate MayRunOther(l: Loop, tick: nat) {
    l.timer || (l.inFlight.Some? && l.inFlight.value != tick)
  }

  lemma {:induction false} OnlyAwaited(trace: seq<Loop>, acts: seq<Action>, n: nat, k: nat)
    requires Path(trace, acts) && n < |trace| && Inv(trace[0]) && k < |trace[0].stops|
    requires forall i :: 0 <= i < |acts| ==> !acts[i].Start?
    requires !MayRunOther(trace[0], trace[0].stops[k].tick)
    ensures Inv(trace[n]) && k < |trace[n].stops| && !MayRunOther(trace[n], trace[n].stops[k].tick)
  {
    if n > 0 {
      OnlyAwaited(trace, acts, n - 1, k);
      InvStep(trace[n - 1], acts[n - 1]);
      assert trace[n] == Do(trace[n - 1], acts[n - 1]);
    }
  }

  lemma DrainsRunningWitness(l: Loop, k: nat) returns (trace: seq<Loop>, acts: seq<Action>)
    requires Inv(l) && Awaiting(l, k) && MayRunOther(l, l.stops[k].tick)
    ensures trace != [] && trace[0] == l && DrainsRunning(trace, acts, k)
  {
    assert StopSound(l, l.stops[k]);
    if l.inFlight.Some? && l.inFlight.value != l.stops[k].tick {
      trace, acts := [l, Do(l, Resolve(k))], [Resolve(k)];
    } else if l.inFlight.None? {
      var l1 := Do(l, Fire);
      trace, acts := [l, l1, Do(l1, Resolve(k))], [Fire, Resolve(k)];
    } else {
      var l1 := Do(l, Settle);
      var l2 := Do(l1, Fire);
      trace, acts := [l, l1, l2, Do(l2, Resolve(k))], [Settle, Fire, Resolve(k)];
    }
  }

  /** Were callbacks allowed to run late, a waiting stop could report "drained" with a tick in flight
      exactly if the loop has been started again, or already runs another tick than the awaited one. */
  lemma DrainedWhileRunningIff(l: Loop, k: nat)
    requires Inv(l) && Awaiting(l, k)
    ensures (exists trace, acts :: trace != [] && trace[0] == l && DrainsRunning(trace, acts, k)) <==>
            MayRunOther(l, l.stops[k].tick)
  {
    if MayRunOther(l, l.stops[k].tick) {
      var trace, acts := DrainsRunningWitness(l, k);
    } else {
      forall trace: seq<Loop>, acts: seq<Action> |
        && trace != [] && trace[0] == l && Path(trace, acts) && acts != [] && acts[|acts| - 1] == Resolve(k)
        && forall i :: 0 <= i < |acts| ==> !acts[i].Start?
        ensures !DrainsRunning(trace, acts, k)
      {
        OnlyAwaited(trace, acts, |acts| - 1, k);
        assert trace[|acts|] == Do(trace[|acts| - 1], acts[|acts| - 1]);
      }
    }
  }

  /** Its witness from the initial state. */
  lemma DrainedAfterRestart() returns (trace: seq<Loop>, acts: seq<Action>)
    ensures Run(trace, acts) && acts != [] && acts[|acts| - 1] == Resolve(0)
    ensures trace[|acts|].inFlight == Some(1)
    ensures |trace[|acts|].stops| == 1 && trace[|acts|].stops[0].outcome == Drained(0)
  {
    acts := [Start, Fire, Stop(10), Start, Settle, Fire, Resolve(0)];
    var l1 := Do(INITIAL, Start);
    var l2 := Do(l1, Fire);
    var l3 := Do(l2, Stop(10));
    var l4 := Do(l3, Start);
    var l5 := Do(l4, Settle);
    var l6 := Do(l5, Fire);
    trace := [INITIAL, l1, l2, l3, l4, l5, l6, Do(l6, Resolve(0))];
  }

  /** The loop as the backend's object; the tick's function and the promise plumbing are the
      caller's moves. */
  class PeriodicTask {
    var timer: bool
    var inFlight: Option<nat>
    var stopping: bool
    ghost var record: Loop

    ghost predicate Valid() reads this {
      record.timer == timer && record.inFlight == inFlight && record.stopping == stopping && Inv(record)
    }

    constructor ()
      ensures Valid() && record == INITIAL
    {
      timer, inFlight, stopping, record := false, None, false, INITIAL;
    }

    method Start()
      requires Valid()
      modifies this
      ensures Valid() && record == StartLoop(old(record))
    {
      ghost var before := record;
      record := StartLoop(record);
      InvStep(before, Action.Start);
      if timer {
        return;
      }
      stopping := false;
      timer := true;
    }

    /** `tick` names the promise of the function that is called, when it is called. */
    method Tick(tick: nat) returns (began: bool)
      requires Valid() && timer && tick == record.begun
      modifies this
      ensures Valid() && record == TickLoop(old(record))
      ensures began <==> record.begun == old(record.begun) + 1
    {
      ghost var before := record;
      record := TickLoop(record);
      InvStep(before, Fire);
      if stopping || inFlight.Some? {
        return false;
      }
      inFlight := Some(tick);
      began := true;
    }

    /** The `finally` of the tick in flight. */
    method TickSettled()
      requires Valid() && inFlight.Some?
      modifies this
      ensures Valid() && record == SettleTick(old(record))
    {
      ghost var before := record;
      record := SettleTick(record);
      InvStep(before, Settle);
      inFlight := None;
    }

    /** Clears the interval and hands back the tick to wait for, if there is one. */
    method Stop(timeout: nat) returns (running: Option<nat>)
      requires Valid()
      modifies this
      ensures Valid() && record == BeginStop(old(record), timeout)
      ensures running == old(inFlight) && stopping && !timer
    {
      ghost var before := record;
      record := BeginStop(record, timeout);
      InvStep(before, Action.Stop(timeout));
      stopping := true;
      if timer {
        timer := false;
      }
      running := inFlight;
    }
  }
}
