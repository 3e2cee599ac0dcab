/**
 The `system_events` rows and the retry loop over them: at most three attempts
 per event, batches of one hundred, oldest first.
 */
module EventQueue {
  const MAX_RETRIES := 3
  const BATCH := 100

  /** Rows are kept in order of creation; `created` is the creation time. */
  datatype EventRow = EventRow(id: nat, created: int, processed: bool, retries: nat, dead: bool)

  predicate Live(r: EventRow, since: int) {
    !r.processed && !r.dead && r.retries < MAX_RETRIES && r.created >= since
  }

  ghost predicate OldestFirst(rows: seq<EventRow>) {
    forall i, j :: 0 <= i < j < |rows| ==> rows[i].created <= rows[j].created
  }

  ghost predicate DistinctIds(rows: seq<EventRow>) {
    forall i, j :: 0 <= i < j < |rows| ==> rows[i].id != rows[j].id
  }

  function LiveCount(rows: seq<EventRow>, since: int): nat {
    if rows == [] then 0 else (if Live(rows[0], since) then 1 else 0) + LiveCount(rows[1..], since)
  }

  /** Unprocessed, not dead-lettered, in the window: no look at the retry count. */
  function QueueSize(rows: seq<EventRow>, since: int): nat {
    if rows == [] then 0
    else
      var counted := !rows[0].processed && !rows[0].dead && rows[0].created >= since;
      (if counted then 1 else 0) + QueueSize(rows[1..], since)
  }

  // ---------------------------------------------------------------- single-row writes

  /** `markFailed`, whose read of the retry count was answered or not: no answer counts as zero. */
  function Failed(r: EventRow, readAnswered: bool): EventRow {
    var next := (if readAnswered then r.retries else 0) + 1;
    r.(retries := next, dead := next >= MAX_RETRIES)
  }

  /** One run of an event's handler: whether it succeeds, whether the read of the retry count is
      answered if it does not, and whether the write that records the result lands: its error is
      only logged. */
  datatype HandlerRun = HandlerRun(succeeds: bool, answered: bool, lands: bool)

  function Attempt(r: EventRow, h: HandlerRun): EventRow {
    if !h.lands then r else if h.succeeds then r.(processed := true) else Failed(r, h.answered)
  }

  function Reset(r: EventRow): EventRow {
    r.(dead := false, retries := 0, processed := false)
  }

  // ---------------------------------------------------------------- one tick

  /** What one handler run does with an event is the world's choice. */
  type Verdict = nat -> HandlerRun

  /** The calls to the event table succeed, whatever the handlers do. */
  ghost predicate Recorded(verdict: Verdict) {
    forall id :: verdict(id).answered && verdict(id).lands
  }

  /** One tick: the first `budget` live rows are attempted, every other row stays. */
  function TickRows(rows: seq<EventRow>, since: int, verdict: Verdict, budget: nat): (r: seq<EventRow>)
    ensures |r| == |rows|
  {
    if rows == [] then []
    else if Live(rows[0], since) && budget > 0 then
      [Attempt(rows[0], verdict(rows[0].id))] + TickRows(rows[1..], since, verdict, budget - 1)
    else
      [rows[0]] + TickRows(rows[1..], since, verdict, budget)
  }

  predicate InBatch(rows: seq<EventRow>, since: int, budget: nat, i: nat)
    requires i < |rows|
  {
    Live(rows[i], since) && LiveCount(rows[..i], since) < budget
  }

  lemma {:induction false} TickAt(rows: seq<EventRow>, since: int, verdict: Verdict, budget: nat, i: nat)
    requires i < |rows|
    ensures TickRows(rows, since, verdict, budget)[i]
         == if InBatch(rows, since, budget, i) then Attempt(rows[i], verdict(rows[i].id)) else rows[i]
  {
    if i > 0 {
      assert rows[..i][1..] == rows[1..][..i - 1];
      var left := if Live(rows[0], since) && budget > 0 then budget - 1 else budget;
      TickAt(rows[1..], since, verdict, left, i - 1);
    }
  }

  /** What one tick leaves of a row: only the first hundred live rows change, a success sets the row
      processed, a failure counts one more or, its read unanswered, starts from one, and the third
      failure dead-letters; and nothing changes where the write did not land. */
  lemma RowAfterTick(rows: seq<EventRow>, since: int, verdict: Verdict, i: nat)
    requires i < |rows|
    ensures var (r, h) := (rows[i], verdict(rows[i].id));
            var counted := if h.answered then r.retries + 1 else 1;
            var live := !r.processed && !r.dead && r.retries < 3 && r.created >= since;
            TickRows(rows, since, verdict, BATCH)[i] ==
              if !live || LiveCount(rows[..i], since) >= 100 || !h.lands then r
              else if h.succeeds then EventRow(r.id, r.created, true, r.retries, r.dead)
              else EventRow(r.id, r.created, r.processed, counted, counted >= 3)
  {
    TickAt(rows, since, verdict, BATCH, i);
  }

  lemma {:induction false} CountSplit(p: seq<EventRow>, q: seq<EventRow>, since: int)
    ensures LiveCount(p + q, since) == LiveCount(p, since) + LiveCount(q, since)
  {
    if p == [] {
      assert p + q == q;
    } else {
      assert (p + q)[1..] == p[1..] + q;
      CountSplit(p[1..], q, since);
    }
  }

  lemma {:induction false} TickSplit(p: seq<EventRow>, q: seq<EventRow>, since: int, verdict: Verdict, budget: nat)
    requires LiveCount(p, since) <= budget
    ensures TickRows(p + q, since, verdict, budget)
         == TickRows(p, since, verdict, budget) + TickRows(q, since, verdict, budget - LiveCount(p, since))
  {
    if p == [] {
      assert p + q == q;
    } else {
      assert (p + q)[1..] == p[1..] + q;
      TickSplit(p[1..], q, since, verdict, if Live(p[0], since) then budget - 1 else budget);
    }
  }

  // ---------------------------------------------------------------- runs of ticks

  /** The start of the 24-hour window when the tick fires, and its verdicts. */
  datatype Tick = Tick(since: int, verdict: Verdict)

  function RunTicks(rows: seq<EventRow>, ticks: seq<Tick>): (r: seq<EventRow>)
    ensures |r| == |rows|
    decreases |ticks|
  {
    if ticks == [] then rows
    else RunTicks(TickRows(rows, ticks[0].since, ticks[0].verdict, BATCH), ticks[1..])
  }

  ghost predicate Forward(since: int, ticks: seq<Tick>) {
    && (forall i :: 0 <= i < |ticks| ==> since <= ticks[i].since)
    && (forall i, j :: 0 <= i < j < |ticks| ==> ticks[i].since <= ticks[j].since)
  }

  ghost predicate AllRecorded(ticks: seq<Tick>) {
    forall i :: 0 <= i < |ticks| ==> Recorded(ticks[i].verdict)
  }

  /** Every live row has been attempted at least `k` times. */
  ghost predicate Worn(rows: seq<EventRow>, since: int, k: nat) {
    forall i :: 0 <= i < |rows| && Live(rows[i], since) ==> rows[i].retries >= k
  }

  lemma {:induction false} LaterIsFewer(rows: seq<EventRow>, since: int, later: int)
    requires since <= later
    ensures LiveCount(rows, later) <= LiveCount(rows, since)
  {
    if rows != [] {
      LaterIsFewer(rows[1..], since, later);
    }
  }

  lemma {:induction false} TickShrinks(rows: seq<EventRow>, since: int, verdict: Verdict, budget: nat)
    ensures LiveCount(TickRows(rows, since, verdict, budget), since) <= LiveCount(rows, since)
  {
    if rows != [] {
      TickShrinks(rows[1..], since, verdict, if Live(rows[0], since) && budget > 0 then budget - 1 else budget);
    }
  }

  /** When the live rows fit into one batch, a tick wears every one of them down by one attempt. */
  lemma {:induction false} TickWears(rows: seq<EventRow>, since: int, verdict: Verdict, budget: nat, k: nat)
    requires LiveCount(rows, since) <= budget && Worn(rows, since, k) && Recorded(verdict)
    ensures Worn(TickRows(rows, since, verdict, budget), since, k + 1)
  {
    if rows != [] {
      assert Worn(rows[1..], since, k);
      var left := if Live(rows[0], since) then budget - 1 else budget;
      TickWears(rows[1..], since, verdict, left, k);
    }
  }

  lemma {:induction false} WornOut(rows: seq<EventRow>, since: int)
    requires Worn(rows, since, MAX_RETRIES)
    ensures LiveCount(rows, since) == 0
  {
    if rows != [] {
      assert Worn(rows[1..], since, MAX_RETRIES);
      WornOut(rows[1..], since);
    }
  }

  /** The shortest prefix that holds `n` live rows, or every row. */
  function Head(rows: seq<EventRow>, since: int, n: nat): (h: nat)
    ensures h <= |rows|
    ensures LiveCount(rows[..h], since) == if LiveCount(rows, since) <= n then LiveCount(rows, since) else n
  {
    if rows == [] || n == 0 then
      0
    else
      var h := Head(rows[1..], since, if Live(rows[0], since) then n - 1 else n);
      assert rows[..h + 1][1..] == rows[1..][..h];
      h + 1
  }

  /** A tick on a queue cut in two: the front, which fits into the batch, is worn; the back does not grow. */
  lemma TickOnParts(front: seq<EventRow>, back: seq<EventRow>, before: int, t: Tick, k: nat)
    returns (front': seq<EventRow>, back': seq<EventRow>)
    requires before <= t.since && LiveCount(front, before) <= BATCH && Worn(front, before, k) && Recorded(t.verdict)
    ensures TickRows(front + back, t.since, t.verdict, BATCH) == front' + back'
    ensures LiveCount(front', t.since) <= BATCH && Worn(front', t.since, k + 1)
    ensures LiveCount(back', t.since) <= LiveCount(back, before)
  {
    LaterIsFewer(front, before, t.since);
    LaterIsFewer(back, before, t.since);
    var left := BATCH - LiveCount(front, t.since);
    TickSplit(front, back, t.since, t.verdict, BATCH);
    front', back' := TickRows(front, t.since, t.verdict, BATCH), TickRows(back, t.since, t.verdict, left);
    TickShrinks(front, t.since, t.verdict, BATCH);
    TickShrinks(back, t.since, t.verdict, left);
    TickWears(front, t.since, t.verdict, BATCH, k);
  }

  /** Three ticks finish the hundred oldest live events. */
  lemma ThreeTicks(rows: seq<EventRow>, since: int, ticks: seq<Tick>)
    requires |ticks| == 3 && Forward(since, ticks) && AllRecorded(ticks)
    ensures LiveCount(RunTicks(rows, ticks), ticks[2].since)
         <= if LiveCount(rows, since) <= BATCH then 0 else LiveCount(rows, since) - BATCH
  {
    var h := Head(rows, since, BATCH);
    assert rows[..h] + rows[h..] == rows;
    CountSplit(rows[..h], rows[h..], since);
    var f1, b1 := TickOnParts(rows[..h], rows[h..], since, ticks[0], 0);
    var f2, b2 := TickOnParts(f1, b1, ticks[0].since, ticks[1], 1);
    var f3, b3 := TickOnParts(f2, b2, ticks[1].since, ticks[2], 2);
    WornOut(f3, ticks[2].since);
    CountSplit(f3, b3, ticks[2].since);
    var r1 := TickRows(rows, ticks[0].since, ticks[0].verdict, BATCH);
    var r2 := TickRows(r1, ticks[1].since, ticks[1].verdict, BATCH);
    assert RunTicks(rows, ticks) == RunTicks(r1, ticks[1..]);
    assert RunTicks(r1, ticks[1..]) == RunTicks(r2, ticks[1..][1..]);
    assert RunTicks(r2, ticks[1..][1..]) == TickRows(r2, ticks[2].since, ticks[2].verdict, BATCH) by {
      assert ticks[1..][1..][1..] == [];
    }
  }

  lemma {:induction false} RunSplit(rows: seq<EventRow>, first: seq<Tick>, rest: seq<Tick>)
    ensures RunTicks(rows, first + rest) == RunTicks(RunTicks(rows, first), rest)
    decreases |first|
  {
    if first == [] {
      assert first + rest == rest;
    } else {
      assert (first + rest)[1..] == first[1..] + rest;
      RunSplit(TickRows(rows, first[0].since, first[0].verdict, BATCH), first[1..], rest);
    }
  }

  /** The retry queue drains: with no new events, a queue of at most 100·b live events is empty
      after 3·b ticks, whatever the handlers do. */
  lemma {:induction false} QueueDrains(rows: seq<EventRow>, since: int, ticks: seq<Tick>, blocks: nat)
    requires |ticks| == 3 * blocks && Forward(since, ticks) && AllRecorded(ticks)
    requires LiveCount(rows, since) <= 100 * blocks
    ensures var last := if blocks == 0 then since else ticks[|ticks| - 1].since;
            LiveCount(RunTicks(rows, ticks), last) == 0
    decreases blocks
  {
    if blocks > 0 {
      ThreeTicks(rows, since, ticks[..3]);
      assert ticks == ticks[..3] + ticks[3..];
      RunSplit(rows, ticks[..3], ticks[3..]);
      QueueDrains(RunTicks(rows, ticks[..3]), ticks[2].since, ticks[3..], blocks - 1);
    }
  }

  // ---------------------------------------------------------------- attempts per event

  function Attempts(rows: seq<EventRow>, ticks: seq<Tick>, i: nat): nat
    requires i < |rows|
    decreases |ticks|
  {
    if ticks == [] then 0
    else
      (if InBatch(rows, ticks[0].since, BATCH, i) then 1 else 0)
      + Attempts(TickRows(rows, ticks[0].since, ticks[0].verdict, BATCH), ticks[1..], i)
  }

  /** No event is attempted more often than it has retries left, and one that used them all up
      is processed or dead-lettered. */
  lemma {:induction false} AtMostThreeAttempts(rows: seq<EventRow>, ticks: seq<Tick>, i: nat)
    requires i < |rows| && rows[i].retries <= 3 && AllRecorded(ticks)
    ensures Attempts(rows, ticks, i) <= 3 - rows[i].retries
    ensures Attempts(rows, ticks, i) == 3 - rows[i].retries && rows[i].retries < 3 ==>
              RunTicks(rows, ticks)[i].processed || RunTicks(rows, ticks)[i].dead
    decreases |ticks|
  {
    if ticks != [] {
      var next := TickRows(rows, ticks[0].since, ticks[0].verdict, BATCH);
      TickAt(rows, ticks[0].since, ticks[0].verdict, BATCH, i);
      if next[i].processed || next[i].dead {
        FinishedStays(next, ticks[1..], i);
      }
      AtMostThreeAttempts(next, ticks[1..], i);
    }
  }

  lemma {:induction false} FinishedStays(rows: seq<EventRow>, ticks: seq<Tick>, i: nat)
    requires i < |rows| && (rows[i].processed || rows[i].dead)
    ensures RunTicks(rows, ticks)[i] == rows[i] && Attempts(rows, ticks, i) == 0
    decreases |ticks|
  {
    if ticks != [] {
      TickAt(rows, ticks[0].since, ticks[0].verdict, BATCH, i);
      FinishedStays(TickRows(rows, ticks[0].since, ticks[0].verdict, BATCH), ticks[1..], i);
    }
  }

  /** Some attempt of the row, with what its handler run did. */
  predicate SomeAttempt(rows: seq<EventRow>, ticks: seq<Tick>, i: nat, what: (EventRow, HandlerRun) -> bool)
    requires i < |rows|
    decreases |ticks|
  {
    && ticks != []
    && ((InBatch(rows, ticks[0].since, BATCH, i) && what(rows[i], ticks[0].verdict(rows[i].id)))
        || SomeAttempt(TickRows(rows, ticks[0].since, ticks[0].verdict, BATCH), ticks[1..], i, what))
  }

  predicate WroteSuccess(r: EventRow, h: HandlerRun) {
    h.succeeds && h.lands
  }

  /** The third failure that was counted. */
  predicate WroteLastFailure(r: EventRow, h: HandlerRun) {
    !h.succeeds && h.lands && h.answered && r.retries + 1 >= 3
  }

  /** Over any ticks: a row becomes processed exactly by a handler run that succeeds and is written
      down, and dead exactly by a failure that is written down as the third. */
  lemma {:induction false} EndsAsAttempted(rows: seq<EventRow>, ticks: seq<Tick>, i: nat)
    requires i < |rows|
    ensures RunTicks(rows, ticks)[i].processed <==> rows[i].processed || SomeAttempt(rows, ticks, i, WroteSuccess)
    ensures RunTicks(rows, ticks)[i].dead <==> rows[i].dead || SomeAttempt(rows, ticks, i, WroteLastFailure)
    ensures RunTicks(rows, ticks)[i].id == rows[i].id && RunTicks(rows, ticks)[i].created == rows[i].created
    decreases |ticks|
  {
    if ticks != [] {
      var next := TickRows(rows, ticks[0].since, ticks[0].verdict, BATCH);
      TickAt(rows, ticks[0].since, ticks[0].verdict, BATCH, i);
      EndsAsAttempted(next, ticks[1..], i);
    }
  }

  /** An event older than the window is never attempted again, since the window only moves forward. */
  lemma {:induction false} ExpiredStays(rows: seq<EventRow>, since: int, ticks: seq<Tick>, i: nat)
    requires i < |rows| && rows[i].created < since && Forward(since, ticks)
    ensures RunTicks(rows, ticks)[i] == rows[i] && Attempts(rows, ticks, i) == 0
    decreases |ticks|
  {
    if ticks != [] {
      TickAt(rows, ticks[0].since, ticks[0].verdict, BATCH, i);
      ExpiredStays(TickRows(rows, ticks[0].since, ticks[0].verdict, BATCH), ticks[0].since, ticks[1..], i);
    }
  }

  // ---------------------------------------------------------------- unanswered reads

  /** An event whose handler fails every time, with the answers its `markFailed` reads got. */
  function FailRepeatedly(r: EventRow, answers: seq<bool>): EventRow
    decreases |answers|
  {
    if answers == [] || r.dead then r else FailRepeatedly(Failed(r, answers[0]), answers[1..])
  }

  predicate TwoAnsweredInARow(answers: seq<bool>, from: nat) {
    exists j :: from <= j < |answers| - 1 && answers[j] && answers[j + 1]
  }

  lemma {:induction false} DeadFromCount(r: EventRow, answers: seq<bool>)
    requires !r.dead && 1 <= r.retries <= 2
    ensures FailRepeatedly(r, answers).dead <==>
              (r.retries == 2 && answers != [] && answers[0]) || TwoAnsweredInARow(answers, 0)
    decreases |answers|
  {
    if answers != [] {
      var next := Failed(r, answers[0]);
      if next.dead {
        assert FailRepeatedly(next, answers[1..]) == next;
      } else {
        DeadFromCount(next, answers[1..]);
        if TwoAnsweredInARow(answers[1..], 0) {
          var j :| 0 <= j < |answers[1..]| - 1 && answers[1..][j] && answers[1..][j + 1];
          assert answers[j + 1] && answers[j + 1 + 1];
        }
        if TwoAnsweredInARow(answers, 0) {
          var j :| 0 <= j < |answers| - 1 && answers[j] && answers[j + 1];
          if j > 0 {
            assert answers[1..][j - 1] && answers[1..][j - 1 + 1];
          }
        }
      }
    }
  }

  lemma {:induction false} DeadFromNew(r: EventRow, answers: seq<bool>)
    requires !r.dead && r.retries == 0
    ensures FailRepeatedly(r, answers).dead <==> TwoAnsweredInARow(answers, 1)
  {
    if answers != [] {
      DeadFromCount(Failed(r, answers[0]), answers[1..]);
      if TwoAnsweredInARow(answers[1..], 0) {
        var j :| 0 <= j < |answers[1..]| - 1 && answers[1..][j] && answers[1..][j + 1];
        assert answers[j + 1] && answers[j + 1 + 1];
      }
      if TwoAnsweredInARow(answers, 1) {
        var j :| 1 <= j < |answers| - 1 && answers[j] && answers[j + 1];
        assert answers[1..][j - 1] && answers[1..][j - 1 + 1];
      }
    }
  }

  /** The same event, when the writes may fail as well. */
  function FailAll(r: EventRow, runs: seq<HandlerRun>): EventRow
    decreases |runs|
  {
    if runs == [] || r.dead then r else FailAll(Attempt(r, runs[0].(succeeds := false)), runs[1..])
  }

  /** Whether the reads of those runs were answered whose writes landed. */
  function LandedAnswers(runs: seq<HandlerRun>): seq<bool> {
    if runs == [] then [] else (if runs[0].lands then [runs[0].answered] else []) + LandedAnswers(runs[1..])
  }

  lemma {:induction false} OnlyLandedCount(r: EventRow, runs: seq<HandlerRun>)
    ensures FailAll(r, runs) == FailRepeatedly(r, LandedAnswers(runs))
    decreases |runs|
  {
    if runs != [] && !r.dead {
      OnlyLandedCount(Attempt(r, runs[0].(succeeds := false)), runs[1..]);
      assert LandedAnswers(runs) ==
             (if runs[0].lands then [runs[0].answered] else []) + LandedAnswers(runs[1..]);
      assert !runs[0].lands ==> LandedAnswers(runs) == LandedAnswers(runs[1..]);
    }
  }

  /** Exactly when a new event that always fails is ever dead-lettered: among its failures that were
      written down, two reads of the count after the first are answered in a row.  Otherwise it
      stays retryable until it leaves the window. */
  lemma DeadLetteredIff(r: EventRow, runs: seq<HandlerRun>)
    requires !r.dead && r.retries == 0
    ensures FailAll(r, runs).dead <==> TwoAnsweredInARow(LandedAnswers(runs), 1)
  {
    OnlyLandedCount(r, runs);
    DeadFromNew(r, LandedAnswers(runs));
  }
}
