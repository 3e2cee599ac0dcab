/**
 The bounded cache of moderation denials: one entry per account and capability,
 15 seconds each, at most 5,000 entries, dropped per account after every action.
 */
module DenialCache {
  import opened Wrappers

  const TTL := 15000
  const MAX_ENTRIES := 5000
  const NUL := '\0'

  datatype Denial = Banned | Suspended | MessagingRestricted | MarketplaceRestricted

  /** `readAt` is the moment the database gave this answer. */
  datatype Entry = Entry(value: Option<Denial>, readAt: int, expiresAt: int)

  type Cache = map<string, Entry>

  function KeyOf(user: string, capability: string): string {
    user + [NUL] + capability
  }

  function PrefixOf(user: string): string {
    user + [NUL]
  }

  /** The database's answer is an error, or a denial the service knows, or anything else. */
  datatype Answer = Failure | Known(denial: Denial) | Other

  function Hit(cache: Cache, key: string, now: int): Option<Entry> {
    if key in cache && cache[key].expiresAt > now then Some(cache[key]) else None
  }

  /** Storing an answer for a request that began at `start`; a full cache is emptied first. */
  function Store(cache: Cache, key: string, entry: Entry): Cache {
    (if |cache| >= MAX_ENTRIES then map[] else cache)[key := entry]
  }

  function ValueOf(answer: Answer): Option<Denial> {
    if answer.Known? then Some(answer.denial) else None
  }

  function Forget(cache: Cache, user: string): Cache {
    map k | k in cache && !(PrefixOf(user) <= k) :: cache[k]
  }

  // ---------------------------------------------------------------- overlapping requests

  datatype Phase =
    | Waiting
    | Answered(answer: Answer, asked: int)
    /** `readAt` is when the served answer was read; a failure is served unread, as no denial. */
    | Served(value: Option<Denial>, readAt: Option<int>)

  datatype Request = Request(key: string, start: int, phase: Phase)

  /** What the database answered for a key, and when. */
  datatype Evaluation = Evaluation(key: string, at: int, answer: Answer)

  /** `evaluations` lists every answer the database gave. */
  datatype Sys = Sys(cache: Cache, requests: seq<Request>, clock: int, evaluations: seq<Evaluation>)

  datatype Action =
    | Arrive(user: string, capability: string)
    | Evaluate(i: nat, answer: Answer)
    | Complete(i: nat)
    | Invalidate(user: string)
    | Pass(time: nat)

  predicate Enabled(s: Sys, a: Action) {
    match a
    case Evaluate(i, _) => i < |s.requests| && s.requests[i].phase.Waiting?
    case Complete(i) => i < |s.requests| && s.requests[i].phase.Answered?
    case _ => true
  }

  function Next(s: Sys, a: Action): Sys
    requires Enabled(s, a)
  {
    match a
    case Arrive(user, capability) =>
      var key := KeyOf(user, capability);
      var hit := Hit(s.cache, key, s.clock);
      s.(requests := s.requests + [Request(key, s.clock,
           if hit.Some? then Served(hit.value.value, Some(hit.value.readAt)) else Waiting)])
    case Evaluate(i, answer) =>
      s.(requests := s.requests[i := s.requests[i].(phase := Answered(answer, s.clock))],
         evaluations := s.evaluations + [Evaluation(s.requests[i].key, s.clock, answer)])
    case Complete(i) =>
      var r := s.requests[i];
      if r.phase.answer.Failure? then
        s.(requests := s.requests[i := r.(phase := Served(None, None))])
      else
        var value := ValueOf(r.phase.answer);
        s.(cache := Store(s.cache, r.key, Entry(value, r.phase.asked, r.start + TTL)),
           requests := s.requests[i := r.(phase := Served(value, Some(r.phase.asked)))])
    case Invalidate(user) => s.(cache := Forget(s.cache, user))
    case Pass(time) => s.(clock := s.clock + time)
  }

  ghost predicate Path(trace: seq<Sys>, acts: seq<Action>) {
    && |trace| == |acts| + 1
    && forall k :: 0 <= k < |acts| ==> Enabled(trace[k], acts[k]) && trace[k + 1] == Next(trace[k], acts[k])
  }

  /** A process that has just started. */
  ghost predicate Run(trace: seq<Sys>, acts: seq<Action>) {
    Path(trace, acts) && trace[0].cache == map[] && trace[0].requests == [] && trace[0].evaluations == []
  }

  ghost predicate RequestSound(s: Sys, r: Request) {
    && r.start <= s.clock
    && match r.phase
       case Waiting => true
       case Answered(_, asked) => r.start <= asked
       case Served(value, readAt) => if readAt.Some? then readAt.value > r.start - TTL else value.None?
  }

  ghost predicate Inv(s: Sys) {
    && |s.cache| <= MAX_ENTRIES
    && (forall k :: k in s.cache ==> s.cache[k].readAt >= s.cache[k].expiresAt - TTL)
    && forall i :: 0 <= i < |s.requests| ==> RequestSound(s, s.requests[i])
  }

  lemma StoreIsBounded(cache: Cache, key: string, entry: Entry)
    requires |cache| <= MAX_ENTRIES
    ensures |Store(cache, key, entry)| <= MAX_ENTRIES
  {
  }

  /** Storing an answer keeps every other entry, unless there are 5,000: then none. */
  lemma StoreKeeps(cache: Cache, key: string, entry: Entry, other: string)
    requires other != key
    ensures key in Store(cache, key, entry) && Store(cache, key, entry)[key] == entry
    ensures other in Store(cache, key, entry) <==> other in cache && |cache| < 5000
    ensures other in Store(cache, key, entry) ==> Store(cache, key, entry)[other] == cache[other]
  {
  }

  /** A request that waits gets what the database answers, a failed check counting as no denial; the
      answer is served again to a request for the same account and capability exactly within 15 s of
      that first request's start. */
  lemma AnsweredThenHit(s: Sys, i: nat, answer: Answer, time: nat, user: string, capability: string)
    requires i < |s.requests| && s.requests[i].phase.Waiting? && s.requests[i].key == KeyOf(user, capability)
    ensures var s1 := Next(Next(s, Evaluate(i, answer)), Complete(i));
            var s2 := Next(Next(s1, Pass(time)), Arrive(user, capability));
            var value := if answer.Known? then Some(answer.denial) else None;
            && s1.requests[i].phase == (if answer.Failure? then Served(None, None) else Served(value, Some(s.clock)))
            && (answer.Failure? ==> s1.cache == s.cache)
            && |s2.requests| == |s.requests| + 1
            && (!answer.Failure? ==>
                  s2.requests[|s.requests|] ==
                  Request(KeyOf(user, capability), s.clock + time,
                          if s.clock + time < s.requests[i].start + 15000 then Served(value, Some(s.clock))
                          else Waiting))
  {
  }

  lemma ForgetIsSmaller(cache: Cache, user: string)
    ensures |Forget(cache, user)| <= |cache|
  {
    SubsetIsSmaller(Forget(cache, user).Keys, cache.Keys);
  }

  lemma {:induction false} SubsetIsSmaller<T>(a: set<T>, b: set<T>)
    requires a <= b
    ensures |a| <= |b|
  {
    if a != {} {
      var x :| x in a;
      SubsetIsSmaller(a - {x}, b - {x});
    }
  }

  lemma InvStep(s: Sys, a: Action)
    requires Inv(s) && Enabled(s, a)
    ensures Inv(Next(s, a))
  {
    var s' := Next(s, a);
    if a.Invalidate? {
      ForgetIsSmaller(s.cache, a.user);
    }
    if a.Complete? && !s.requests[a.i].phase.answer.Failure? {
      var r := s.requests[a.i];
      StoreIsBounded(s.cache, r.key, Entry(ValueOf(r.phase.answer), r.phase.asked, r.start + TTL));
      assert RequestSound(s, r);
    }
    forall i | 0 <= i < |s'.requests| ensures RequestSound(s', s'.requests[i]) {
      if i < |s.requests| {
        assert RequestSound(s, s.requests[i]);
      }
    }
  }

  lemma {:induction false} InvAlways(trace: seq<Sys>, acts: seq<Action>, n: nat)
    requires Run(trace, acts) && n < |trace|
    ensures Inv(trace[n])
  {
    if n > 0 {
      InvAlways(trace, acts, n - 1);
      InvStep(trace[n - 1], acts[n - 1]);
    }
  }

  /** In every interleaving, errors included: a request is served an answer read less than 15 s
      before it began, or, when its own check failed, no denial; and the cache stays bounded. */
  lemma BoundedStaleness(trace: seq<Sys>, acts: seq<Action>, n: nat, i: nat)
    requires Run(trace, acts) && n < |trace| && i < |trace[n].requests| && trace[n].requests[i].phase.Served?
    ensures |trace[n].cache| <= 5000
    ensures var r := trace[n].requests[i];
            if r.phase.readAt.Some? then r.phase.readAt.value > r.start - 15000 else r.phase.value.None?
  {
    InvAlways(trace, acts, n);
    assert RequestSound(trace[n], trace[n].requests[i]);
  }

  // ---------------------------------------------------------------- what is served

  /** The database answered for the key at that moment, and the value is that answer's denial, or none
      for any answer that is not a known one. */
  ghost predicate Vouched(s: Sys, key: string, value: Option<Denial>, at: int) {
    exists k :: 0 <= k < |s.evaluations| && Vouches(s.evaluations[k], key, value, at)
  }

  predicate Vouches(e: Evaluation, key: string, value: Option<Denial>, at: int) {
    && e.key == key && e.at == at && !e.answer.Failure?
    && (value.Some? <==> e.answer.Known?) && (value.Some? ==> e.answer == Known(value.value))
  }

  ghost predicate RequestVouched(s: Sys, r: Request) {
    match r.phase
    case Waiting => true
    case Answered(answer, asked) => Evaluation(r.key, asked, answer) in s.evaluations
    case Served(value, readAt) => if readAt.Some? then Vouched(s, r.key, value, readAt.value) else value.None?
  }

  ghost predicate AllVouched(s: Sys) {
    && (forall key :: key in s.cache ==> Vouched(s, key, s.cache[key].value, s.cache[key].readAt))
    && forall i :: 0 <= i < |s.requests| ==> RequestVouched(s, s.requests[i])
  }

  lemma EvaluationsGrow(s: Sys, s': Sys, r: Request, key: string, value: Option<Denial>, at: int)
    requires s.evaluations <= s'.evaluations
    ensures RequestVouched(s, r) ==> RequestVouched(s', r)
    ensures Vouched(s, key, value, at) ==> Vouched(s', key, value, at)
  {
    assert forall k :: 0 <= k < |s.evaluations| ==> s'.evaluations[k] == s.evaluations[k];
  }

  lemma AnswerVouches(s: Sys, r: Request)
    requires r.phase.Answered? && RequestVouched(s, r) && !r.phase.answer.Failure?
    ensures Vouched(s, r.key, ValueOf(r.phase.answer), r.phase.asked)
  {
    var k :| 0 <= k < |s.evaluations| && s.evaluations[k] == Evaluation(r.key, r.phase.asked, r.phase.answer);
    assert Vouches(s.evaluations[k], r.key, ValueOf(r.phase.answer), r.phase.asked);
  }

  lemma VouchedStep(s: Sys, a: Action)
    requires AllVouched(s) && Enabled(s, a)
    ensures AllVouched(Next(s, a))
  {
    var s' := Next(s, a);
    if a.Complete? && !s.requests[a.i].phase.answer.Failure? {
      AnswerVouches(s, s.requests[a.i]);
    }
    if a.Evaluate? {
      assert s'.evaluations[|s.evaluations|] == Evaluation(s.requests[a.i].key, s.clock, a.answer);
    }
    forall key | key in s'.cache ensures Vouched(s', key, s'.cache[key].value, s'.cache[key].readAt) {
      EvaluationsGrow(s, s', Request(key, 0, Waiting), key, s'.cache[key].value, s'.cache[key].readAt);
    }
    forall i | 0 <= i < |s'.requests| ensures RequestVouched(s', s'.requests[i]) {
      if i < |s.requests| {
        EvaluationsGrow(s, s', s.requests[i], "", None, 0);
      }
    }
  }

  /** In every interleaving: what a request is served is what the database answered for that very
      account and capability at the moment named: the denial if it was a known one, and no denial for
      any other answer. */
  lemma {:induction false} ServedIsAnswered(trace: seq<Sys>, acts: seq<Action>, n: nat)
    requires Run(trace, acts) && n < |trace|
    ensures AllVouched(trace[n])
  {
    if n > 0 {
      ServedIsAnswered(trace, acts, n - 1);
      VouchedStep(trace[n - 1], acts[n - 1]);
    }
  }

  // ---------------------------------------------------------------- what invalidation reaches

  /** A check of the account that was answered before this moment, and whose answer will still
      count when it arrives. */
  predicate Straggler(s: Sys, user: string, r: Request) {
    && PrefixOf(user) <= r.key
    && r.phase.Answered? && !r.phase.answer.Failure? && r.phase.asked < s.clock && s.clock < r.start + 15000
  }

  ghost predicate HasStraggler(s: Sys, user: string) {
    exists i :: 0 <= i < |s.requests| && Straggler(s, user, s.requests[i])
  }

  /** A check of the account that arrives later is answered from the cache, as of before `since`. */
  ghost predicate LaterHitIsOlder(trace: seq<Sys>, acts: seq<Action>, user: string, since: int, n: nat) {
    && n < |acts| && n < |trace| && acts[n].Arrive?
    && var key := KeyOf(acts[n].user, acts[n].capability);
       var hit := Hit(trace[n].cache, key, trace[n].clock);
       PrefixOf(user) <= key && hit.Some? && hit.value.readAt < since
  }

  predicate EntryBarrier(s: Sys, since: int, entry: Entry) {
    entry.readAt >= since || entry.expiresAt <= s.clock
  }

  predicate RequestBarrier(s: Sys, since: int, r: Request) {
    r.phase.Answered? && !r.phase.answer.Failure? ==> r.phase.asked >= since || r.start + TTL <= s.clock
  }

  /** Nothing read before `since` about the account can be served from the cache any more. */
  ghost predicate Barrier(s: Sys, user: string, since: int) {
    && s.clock >= since
    && (forall k :: k in s.cache && PrefixOf(user) <= k ==> EntryBarrier(s, since, s.cache[k]))
    && (forall i :: 0 <= i < |s.requests| && PrefixOf(user) <= s.requests[i].key ==>
         RequestBarrier(s, since, s.requests[i]))
  }

  lemma BarrierStep(s: Sys, a: Action, user: string, since: int)
    requires Enabled(s, a) && Barrier(s, user, since)
    ensures Barrier(Next(s, a), user, since)
  {
    var s' := Next(s, a);
    if a.Complete? {
      assert PrefixOf(user) <= s.requests[a.i].key ==> RequestBarrier(s, since, s.requests[a.i]);
    }
    forall i | 0 <= i < |s'.requests| && PrefixOf(user) <= s'.requests[i].key
      ensures RequestBarrier(s', since, s'.requests[i])
    {
      assert i < |s.requests| ==> PrefixOf(user) <= s.requests[i].key && RequestBarrier(s, since, s.requests[i]);
    }
  }

  lemma {:induction false} BarrierHolds(trace: seq<Sys>, acts: seq<Action>, user: string, since: int, n: nat)
    requires Path(trace, acts) && n < |trace| && Barrier(trace[0], user, since)
    ensures Barrier(trace[n], user, since)
  {
    if n > 0 {
      BarrierHolds(trace, acts, user, since, n - 1);
      BarrierStep(trace[n - 1], acts[n - 1], user, since);
    }
  }

  /** The way an old answer gets through: it arrives, and the next check of its key finds it. */
  lemma StragglerIsServed(s: Sys, user: string, i: nat) returns (trace: seq<Sys>, acts: seq<Action>)
    requires i < |s.requests| && Straggler(s, user, s.requests[i])
    ensures Path(trace, acts) && |acts| == 2 && trace[0] == Next(s, Invalidate(user))
    ensures LaterHitIsOlder(trace, acts, user, s.clock, 1)
  {
    var key := s.requests[i].key;
    var rest := key[|PrefixOf(user)|..];
    assert KeyOf(user, rest) == key;
    acts := [Complete(i), Arrive(user, rest)];
    var s0 := Next(s, Invalidate(user));
    var s1 := Next(s0, acts[0]);
    trace := [s0, s1, Next(s1, acts[1])];
  }

  /** An action against an account takes effect on the next check of it exactly if no earlier check
      of it is in flight, answered before the action and young enough to be cached: in any state, and
      whatever happens afterwards. */
  lemma InvalidationIsABarrierIff(s: Sys, user: string)
    ensures HasStraggler(s, user) <==>
            exists trace, acts, n: nat :: Path(trace, acts) && trace[0] == Next(s, Invalidate(user))
                                     && LaterHitIsOlder(trace, acts, user, s.clock, n)
  {
    if HasStraggler(s, user) {
      var i :| 0 <= i < |s.requests| && Straggler(s, user, s.requests[i]);
      var trace, acts := StragglerIsServed(s, user, i);
    } else {
      var s0 := Next(s, Invalidate(user));
      forall i | 0 <= i < |s0.requests| && PrefixOf(user) <= s0.requests[i].key
        ensures RequestBarrier(s0, s.clock, s0.requests[i])
      {
        assert !Straggler(s, user, s.requests[i]);
      }
      forall trace, acts, n: nat | Path(trace, acts) && trace[0] == s0 && n < |acts|
        ensures !LaterHitIsOlder(trace, acts, user, s.clock, n)
      {
        BarrierHolds(trace, acts, user, s.clock, n);
      }
    }
  }

  /** Its witness from a process that has just started: the account is acted against while a check of
      it is under way, and the next check is served the answer read before the action. */
  lemma StaleAfterInvalidate() returns (trace: seq<Sys>, acts: seq<Action>)
    ensures Run(trace, acts) && |acts| == 6
    ensures acts[2] == Pass(1) && acts[3] == Invalidate("u") && trace[3].clock == 1
    ensures |trace[6].requests| == 2 && trace[6].requests[1] == Request(KeyOf("u", "post"), 1, Served(None, Some(0)))
  {
    acts := [Arrive("u", "post"), Evaluate(0, Other), Pass(1), Invalidate("u"), Complete(0), Arrive("u", "post")];
    var s0 := Sys(map[], [], 0, []);
    var s1 := Next(s0, acts[0]);
    var s2 := Next(s1, acts[1]);
    var s3 := Next(s2, acts[2]);
    var s4 := Next(s3, acts[3]);
    var s5 := Next(s4, acts[4]);
    trace := [s0, s1, s2, s3, s4, s5, Next(s5, acts[5])];
    assert s4.cache == map[];
  }

  // ---------------------------------------------------------------- keys

  predicate Plain(s: string) {
    NUL !in s
  }

  /** Two pairs share a cache entry only if they are the same pair. */
  lemma KeysAreDistinct(u: string, c: string, u': string, c': string)
    requires Plain(c) && Plain(c') && KeyOf(u, c) == KeyOf(u', c')
    ensures u == u' && c == c'
  {
    var key := KeyOf(u, c);
    assert key[|u|] == NUL && key[|u'|] == NUL;
    assert |u| == |u'|;
    assert key[..|u|] == u && key[..|u'|] == u';
    assert key[|u| + 1..] == c && key[|u'| + 1..] == c';
  }

  /** An invalidation drops the entry of another account exactly if that account's id continues
      the first one's after a NUL: never when ids hold no NUL. */
  lemma ForgottenIff(user: string, other: string, capability: string)
    requires Plain(capability)
    ensures PrefixOf(user) <= KeyOf(other, capability) <==> other == user || PrefixOf(user) <= other
    ensures Plain(other) ==> (PrefixOf(user) <= KeyOf(other, capability) <==> other == user)
  {
    var key := KeyOf(other, capability);
    if PrefixOf(user) <= key {
      assert key[|user|] == NUL;
      assert |other| >= |user|;
      if |other| == |user| {
        assert key[..|user|] == user && key[..|other|] == other;
      } else {
        assert key[..|user| + 1] == other[..|user| + 1];
        assert other[|user|] == NUL;
      }
    }
    if PrefixOf(user) <= other {
      assert other[|user|] == NUL;
    }
  }

  // ---------------------------------------------------------------- the service object

  class AccountStateService {
    var cache: Cache

    constructor ()
      ensures cache == map[]
    {
      cache := map[];
    }

    /** Why the account may not use the capability, or none when it may: a request that is not
        overtaken while the database, read at `readAt`, answers it. */
    method Denial(user: string, capability: string, now: int, answer: Answer, readAt: int)
      returns (value: Option<Denial>)
      requires |cache| <= MAX_ENTRIES
      modifies this
      ensures |cache| <= MAX_ENTRIES
      ensures var key := KeyOf(user, capability);
              var hit := Hit(old(cache), key, now);
              if hit.Some? then value == hit.value.value && cache == old(cache)
              else if answer.Failure? then value == None && cache == old(cache)
              else value == ValueOf(answer) && cache == Store(old(cache), key, Entry(value, readAt, now + TTL))
      ensures var key := user + [NUL] + capability;
              !(key in old(cache) && old(cache)[key].expiresAt > now) ==>
                && (value.Some? <==> answer.Known?) && (answer.Known? ==> value == Some(answer.denial))
                && (!answer.Failure? ==> key in cache && cache[key] == Entry(value, readAt, now + 15_000))
    {
      var key := user + [NUL] + capability;
      if key in cache && cache[key].expiresAt > now {
        return cache[key].value;
      }
      if answer.Failure? {
        return None;
      }
      value := if answer.Known? then Some(answer.denial) else None;
      StoreIsBounded(cache, key, Entry(value, readAt, now + TTL));
      if |cache| >= MAX_ENTRIES {
        cache := map[];
      }
      cache := cache[key := Entry(value, readAt, now + TTL)];
    }

    /** Forgets everything cached about an account. */
    method Invalidate(user: string)
      modifies this
      ensures cache == Forget(old(cache), user)
      ensures forall capability :: KeyOf(user, capability) !in cache
    {
      ghost var before := cache;
      var prefix := user + [NUL];
      var todo := cache.Keys;
      while todo != {}
        invariant todo <= before.Keys
        invariant cache == map k | k in before && (k in todo || !(prefix <= k)) :: before[k]
      {
        var key :| key in todo;
        todo := todo - {key};
        if prefix <= key {
          cache := cache - {key};
        }
      }
      forall capability ensures KeyOf(user, capability) !in cache {
        assert PrefixOf(user) <= KeyOf(user, capability);
      }
    }
  }
}
