/**
 The 60-second cache of the client configuration, filled by asynchronous reads
 that may overlap, arrive out of order, fail, and race with invalidation.
 */
module ConfigCache {
  import opened Wrappers

  const TTL := 60000

  /** Where a served document came from: compiled in, or read from the database at a moment. */
  datatype Origin = Defaults | ReadAt(time: int)

  datatype Cache = Cache(lastGood: Option<Origin>, expiresAt: int)

  const EMPTY := Cache(None, 0)

  datatype Phase =
    /** Waiting for the database. */
    | Waiting
    /** The database answered: the moment it was read, or an error. */
    | Answered(readAt: Option<int>)
    | Served(origin: Origin)

  datatype Request = Request(start: int, phase: Phase)

  /** `everRead` records that some read has been merged into the cache. */
  datatype Sys = Sys(cache: Cache, requests: seq<Request>, clock: int, everRead: bool)

  datatype Action =
    /** A request arrives: served from the cache, or sent to the database. */
    | Arrive
    /** The database evaluates the query of request `i`, or fails it. */
    | Evaluate(i: nat, fails: bool)
    /** The answer of request `i` reaches the process. */
    | Complete(i: nat)
    | Invalidate
    | Pass(time: nat)

  /** The synchronous part of a request: fresh cache or not. */
  function Hit(cache: Cache, now: int): Option<Origin> {
    if cache.lastGood.Some? && now < cache.expiresAt then cache.lastGood else None
  }

  /** After the answer: what is served and what the cache holds, stamped from the request's start. */
  function Finish(cache: Cache, start: int, readAt: Option<int>): (Origin, Cache) {
    var value :=
      if readAt.Some? then ReadAt(readAt.value)
      else if cache.lastGood.Some? then cache.lastGood.value
      else Defaults;
    (value, Cache(Some(value), start + TTL))
  }

  predicate Enabled(s: Sys, a: Action) {
    match a
    case Evaluate(i, _) => i < |s.requests| && s.requests[i].phase.Waiting?
    case Complete(i) => i < |s.requests| && s.requests[i].phase.Answered?
    case _ => true
  }

  function Next(s: Sys, a: Action): Sys
    requires Enabled(s, a)
  {
    match a
    case Arrive =>
      var hit := Hit(s.cache, s.clock);
      s.(requests := s.requests + [Request(s.clock, if hit.Some? then Served(hit.value) else Waiting)])
    case Evaluate(i, fails) =>
      s.(requests := s.requests[i := s.requests[i].(phase := Answered(if fails then None else Some(s.clock)))])
    case Complete(i) =>
      var r := s.requests[i];
      var (value, cache) := Finish(s.cache, r.start, r.phase.readAt);
      s.(cache := cache,
         requests := s.requests[i := r.(phase := Served(value))],
         everRead := s.everRead || r.phase.readAt.Some?)
    case Invalidate => s.(cache := s.cache.(expiresAt := 0))
    case Pass(time) => s.(clock := s.clock + time)
  }

  ghost predicate Path(trace: seq<Sys>, acts: seq<Action>) {
    && |trace| == |acts| + 1
    && forall k :: 0 <= k < |acts| ==> Enabled(trace[k], acts[k]) && trace[k + 1] == Next(trace[k], acts[k])
  }

  /** A process that has just started, at a time after the epoch. */
  ghost predicate Run(trace: seq<Sys>, acts: seq<Action>) {
    Path(trace, acts) && trace[0].cache == EMPTY && trace[0].requests == [] && trace[0].clock >= 0 && !trace[0].everRead
  }

  predicate NoErrors(acts: seq<Action>) {
    forall k :: 0 <= k < |acts| && acts[k].Evaluate? ==> !acts[k].fails
  }

  // ---------------------------------------------------------------- staleness

  ghost predicate RequestFresh(s: Sys, r: Request) {
    && 0 <= r.start <= s.clock
    && match r.phase
       case Waiting => true
       case Answered(readAt) => readAt.Some? && r.start <= readAt.value
       case Served(origin) => origin.ReadAt? && origin.time > r.start - TTL
  }

  ghost predicate Fresh(s: Sys) {
    && (s.cache.lastGood.Some? ==>
         s.cache.lastGood.value.ReadAt? && s.cache.lastGood.value.time >= s.cache.expiresAt - TTL)
    && s.clock >= 0
    && (s.cache.lastGood.Some? ==> s.cache.lastGood.value.time >= 0)
    && forall i :: 0 <= i < |s.requests| ==> RequestFresh(s, s.requests[i])
  }

  lemma {:induction false} FreshAlways(trace: seq<Sys>, acts: seq<Action>, n: nat)
    requires Run(trace, acts) && NoErrors(acts) && n < |trace|
    ensures Fresh(trace[n])
  {
    if n > 0 {
      FreshAlways(trace, acts, n - 1);
      var s, s' := trace[n - 1], trace[n];
      assert s' == Next(s, acts[n - 1]);
      forall i | 0 <= i < |s'.requests| ensures RequestFresh(s', s'.requests[i]) {
        if i < |s.requests| {
          assert RequestFresh(s, s.requests[i]);
        }
      }
    }
  }

  /** Bounded staleness: however reads overlap and whenever the cache is invalidated, without read
      errors every request is served a document read less than 60 s before the request began. */
  lemma BoundedStaleness(trace: seq<Sys>, acts: seq<Action>, n: nat, i: nat)
    requires Run(trace, acts) && NoErrors(acts) && n < |trace|
    requires i < |trace[n].requests| && trace[n].requests[i].phase.Served?
    ensures var r := trace[n].requests[i];
            r.phase.origin.ReadAt? && r.phase.origin.time > r.start - 60000
  {
    FreshAlways(trace, acts, n);
    assert RequestFresh(trace[n], trace[n].requests[i]);
  }

  /** A request that waits gets the document the database answers, and the last good one, or else the
      defaults, if that fails; whatever it gets is served again exactly within 60 s of its start, and
      never after an invalidation. */
  lemma AnsweredThenHit(s: Sys, i: nat, fails: bool, time: nat)
    requires i < |s.requests| && s.requests[i].phase.Waiting? && s.clock >= 0
    ensures var s1 := Next(Next(s, Evaluate(i, fails)), Complete(i));
            var (s2, s3) := (Next(Next(s1, Pass(time)), Arrive), Next(Next(s1, Invalidate), Arrive));
            var origin :=
              if !fails then ReadAt(s.clock) else if s.cache.lastGood.Some? then s.cache.lastGood.value else Defaults;
            && s1.requests[i] == Request(s.requests[i].start, Served(origin))
            && (s1.everRead <==> s.everRead || !fails)
            && |s2.requests| == |s3.requests| == |s.requests| + 1
            && s2.requests[|s.requests|] ==
                 Request(s.clock + time,
                         if s.clock + time < s.requests[i].start + 60000 then Served(origin) else Waiting)
            && s3.requests[|s.requests|] == Request(s.clock, Waiting)
            && Next(s1, Invalidate).cache.lastGood == Some(origin)
  {
  }

  ghost predicate Remembers(s: Sys) {
    s.everRead ==> s.cache.lastGood.Some? && s.cache.lastGood.value.ReadAt?
  }

  lemma {:induction false} RemembersAlways(trace: seq<Sys>, acts: seq<Action>, n: nat)
    requires Run(trace, acts) && n < |trace|
    ensures Remembers(trace[n])
  {
    if n > 0 {
      RemembersAlways(trace, acts, n - 1);
      assert trace[n] == Next(trace[n - 1], acts[n - 1]);
    }
  }

  predicate IsServed(s: Sys, i: nat) {
    i < |s.requests| && s.requests[i].phase.Served?
  }

  /** Through errors and invalidations: once one read has succeeded, no request is served the
      compiled defaults again. */
  lemma DefaultsNeverReturn(trace: seq<Sys>, acts: seq<Action>, n: nat, i: nat)
    requires Run(trace, acts) && n < |acts| && trace[n].everRead
    requires IsServed(trace[n + 1], i) && !IsServed(trace[n], i)
    ensures trace[n + 1].requests[i].phase.origin.ReadAt?
  {
    RemembersAlways(trace, acts, n);
    assert trace[n + 1] == Next(trace[n], acts[n]);
  }

  // ---------------------------------------------------------------- what invalidation reaches

  /** A request in flight has already read the database, before this moment, and its answer will
      still count as fresh when it arrives. */
  predicate Straggler(s: Sys, r: Request) {
    r.phase.Answered? && r.phase.readAt.Some? && r.phase.readAt.value < s.clock && s.clock < r.start + 60000
  }

  ghost predicate HasStraggler(s: Sys) {
    exists i :: 0 <= i < |s.requests| && Straggler(s, s.requests[i])
  }

  /** A request that arrives later is answered from the cache with a document read before `since`. */
  ghost predicate LaterHitIsOlder(trace: seq<Sys>, acts: seq<Action>, since: int, n: nat) {
    && n < |acts| && n < |trace| && acts[n] == Arrive
    && var hit := Hit(trace[n].cache, trace[n].clock);
       hit.Some? && hit.value.ReadAt? && hit.value.time < since
  }

  ghost predicate Barrier(s: Sys, since: int) {
    && s.clock >= since
    && (s.cache.lastGood.Some? && s.clock < s.cache.expiresAt ==>
          s.cache.lastGood.value.ReadAt? && s.cache.lastGood.value.time >= since)
    && forall i :: 0 <= i < |s.requests| && s.requests[i].phase.Answered? ==>
         s.requests[i].phase.readAt.Some?
         && (s.requests[i].phase.readAt.value >= since || s.clock >= s.requests[i].start + TTL)
  }

  lemma {:induction false} BarrierHolds(trace: seq<Sys>, acts: seq<Action>, since: int, n: nat)
    requires Path(trace, acts) && NoErrors(acts) && n < |trace|
    requires Fresh(trace[0]) && Barrier(trace[0], since)
    ensures Fresh(trace[n]) && Barrier(trace[n], since)
  {
    if n > 0 {
      BarrierHolds(trace, acts, since, n - 1);
      var s, s' := trace[n - 1], trace[n];
      assert s' == Next(s, acts[n - 1]);
      forall i | 0 <= i < |s'.requests| ensures RequestFresh(s', s'.requests[i]) {
        if i < |s.requests| {
          assert RequestFresh(s, s.requests[i]);
        }
      }
      if acts[n - 1].Complete? {
        assert s.requests[acts[n - 1].i].phase.Answered?;
      }
    }
  }

  /** Without read errors invalidation takes effect at once exactly if no straggler is in flight: only
      then is every later cache hit a document read at or after the invalidation. */
  lemma InvalidationWithoutErrorsIff(s: Sys)
    requires Fresh(s) && s.clock > 0
    ensures HasStraggler(s) <==>
            exists trace, acts, n: nat :: Path(trace, acts) && NoErrors(acts) && trace[0] == Next(s, Invalidate)
                                     && LaterHitIsOlder(trace, acts, s.clock, n)
  {
    var s0 := Next(s, Invalidate);
    if HasStraggler(s) {
      var i :| 0 <= i < |s.requests| && Straggler(s, s.requests[i]);
      var s1 := Next(s0, Complete(i));
      var trace, acts := [s0, s1, Next(s1, Arrive)], [Complete(i), Arrive];
      assert NoErrors(acts);
      assert Path(trace, acts);
      assert LaterHitIsOlder(trace, acts, s.clock, 1);
    } else {
      forall i | 0 <= i < |s.requests| ensures RequestFresh(s0, s0.requests[i]) {
        assert RequestFresh(s, s.requests[i]);
      }
      forall i | 0 <= i < |s0.requests| && s0.requests[i].phase.Answered?
        ensures s0.requests[i].phase.readAt.Some?
             && (s0.requests[i].phase.readAt.value >= s.clock || s0.clock >= s0.requests[i].start + TTL)
      {
        assert !Straggler(s, s.requests[i]) && RequestFresh(s, s.requests[i]);
      }
      forall trace, acts, n: nat | Path(trace, acts) && NoErrors(acts) && trace[0] == s0 && n < |acts|
        ensures !LaterHitIsOlder(trace, acts, s.clock, n)
      {
        BarrierHolds(trace, acts, s.clock, n);
      }
    }
  }

  // ---------------------------------------------------------------- invalidation and failing reads

  predicate OldOrigin(origin: Option<Origin>, since: int) {
    origin.Some? && origin.value.ReadAt? && origin.value.time < since
  }

  predicate OldAnswer(r: Request, since: int) {
    r.phase.Answered? && r.phase.readAt.Some? && r.phase.readAt.value < since
  }

  /** The process still holds a document read before this moment, or an answer with one is in flight. */
  ghost predicate HoldsOlder(s: Sys, since: int) {
    OldOrigin(s.cache.lastGood, since) || exists i :: 0 <= i < |s.requests| && OldAnswer(s.requests[i], since)
  }

  lemma NewerStep(s: Sys, a: Action, since: int)
    requires Enabled(s, a) && s.clock >= since && !HoldsOlder(s, since)
    ensures Next(s, a).clock >= since && !HoldsOlder(Next(s, a), since)
  {
    var s' := Next(s, a);
    if a.Complete? {
      assert !OldAnswer(s.requests[a.i], since);
    }
    forall i | 0 <= i < |s'.requests| ensures !OldAnswer(s'.requests[i], since) {
      assert i < |s.requests| ==> !OldAnswer(s.requests[i], since);
    }
  }

  lemma {:induction false} NewerAlways(trace: seq<Sys>, acts: seq<Action>, since: int, n: nat)
    requires Path(trace, acts) && n < |trace| && trace[0].clock >= since && !HoldsOlder(trace[0], since)
    ensures trace[n].clock >= since && !HoldsOlder(trace[n], since)
  {
    if n > 0 {
      NewerAlways(trace, acts, since, n - 1);
      NewerStep(trace[n - 1], acts[n - 1], since);
    }
  }

  /** The way an old document comes back: it is still fresh, or a read fails and re-stamps it. */
  lemma OldIsServed(s: Sys, since: int) returns (trace: seq<Sys>, acts: seq<Action>, n: nat)
    requires OldOrigin(s.cache.lastGood, since)
    ensures Path(trace, acts) && trace[0] == s && LaterHitIsOlder(trace, acts, since, n)
  {
    var s1 := Next(s, Arrive);
    if Hit(s.cache, s.clock).Some? {
      trace, acts, n := [s, s1], [Arrive], 0;
    } else {
      var i := |s.requests|;
      var s2 := Next(s1, Evaluate(i, true));
      var s3 := Next(s2, Complete(i));
      trace, acts, n := [s, s1, s2, s3, Next(s3, Arrive)], [Arrive, Evaluate(i, true), Complete(i), Arrive], 3;
    }
  }

  lemma OldAnswerIsServed(s: Sys, since: int, i: nat) returns (trace: seq<Sys>, acts: seq<Action>, n: nat)
    requires i < |s.requests| && OldAnswer(s.requests[i], since)
    ensures Path(trace, acts) && trace[0] == s && LaterHitIsOlder(trace, acts, since, n)
  {
    var tail, rest, m := OldIsServed(Next(s, Complete(i)), since);
    trace, acts, n := [s] + tail, [Complete(i)] + rest, m + 1;
    forall k | 0 <= k < |acts| ensures Enabled(trace[k], acts[k]) && trace[k + 1] == Next(trace[k], acts[k]) {
      assert k > 0 ==> Enabled(tail[k - 1], rest[k - 1]) && tail[k] == Next(tail[k - 1], rest[k - 1]);
    }
  }

  /** Whatever fails afterwards, and in any state: an invalidation keeps later requests from a hit on an
      older document exactly if there is none, neither as the last good one, which a failed read
      re-stamps, nor in an answer in flight, of whatever age. */
  lemma InvalidationIsABarrierIff(s: Sys)
    ensures HoldsOlder(s, s.clock) <==>
            exists trace, acts, n: nat :: Path(trace, acts) && trace[0] == Next(s, Invalidate)
                                     && LaterHitIsOlder(trace, acts, s.clock, n)
  {
    var s0 := Next(s, Invalidate);
    if OldOrigin(s.cache.lastGood, s.clock) {
      var trace, acts, n := OldIsServed(s0, s.clock);
    } else if HoldsOlder(s, s.clock) {
      var i :| 0 <= i < |s.requests| && OldAnswer(s.requests[i], s.clock);
      var trace, acts, n := OldAnswerIsServed(s0, s.clock, i);
    } else {
      forall trace, acts, n: nat | Path(trace, acts) && trace[0] == s0 && n < |acts|
        ensures !LaterHitIsOlder(trace, acts, s.clock, n)
      {
        NewerAlways(trace, acts, s.clock, n);
      }
    }
  }

  // ---------------------------------------------------------------- the service object

  class AppConfigService {
    var lastGood: Option<Origin>
    var expiresAt: int

    function State(): Cache reads this {
      Cache(lastGood, expiresAt)
    }

    constructor ()
      ensures State() == EMPTY
    {
      lastGood, expiresAt := None, 0;
    }

    /** A request that is not overtaken while it waits; `answer` is the moment the database was
        read, or none for an error. */
    method ClientConfig(now: int, answer: Option<int>) returns (served: Origin)
      modifies this
      ensures Hit(old(State()), now).Some? ==> served == Hit(old(State()), now).value && State() == old(State())
      ensures Hit(old(State()), now).None? ==> (served, State()) == Finish(old(State()), now, answer)
    {
      if lastGood.Some? && now < expiresAt {
        return lastGood.value;
      }
      if answer.None? {
        served := if lastGood.Some? then lastGood.value else Defaults;
        lastGood := Some(served);
        expiresAt := now + TTL;
        return;
      }
      served := ReadAt(answer.value);
      lastGood := Some(served);
      expiresAt := now + TTL;
    }

    /** Forces the next request to read again; the last good document is kept. */
    method Invalidate()
      modifies `expiresAt
      ensures State() == old(State()).(expiresAt := 0)
    {
      expiresAt := 0;
    }
  }
}
