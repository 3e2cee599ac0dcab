/**
 The event-row operations of the backend: as atomic database writes that handlers,
 replays and the developer reset interleave, and as the object whose methods the
 processor calls.
 */
module EventService {
  import opened Wrappers
  import opened EventQueue

  /** `update system_events set … where id = id`. */
  function Updated(rows: seq<EventRow>, id: nat, change: EventRow -> EventRow): (r: seq<EventRow>)
    ensures |r| == |rows|
    ensures forall i :: 0 <= i < |rows| ==> r[i] == if rows[i].id == id then change(rows[i]) else rows[i]
  {
    seq(|rows|, i requires 0 <= i < |rows| => if rows[i].id == id then change(rows[i]) else rows[i])
  }

  // ---------------------------------------------------------------- interleaved writes

  /** A `markFailed` that has read the count and has not written yet. */
  datatype Write = Write(id: nat, next: nat)

  datatype State = State(rows: seq<EventRow>, pending: seq<Write>)

  datatype Action =
    | Emit(id: nat, created: int)
    | MarkProcessed(id: nat)
    /** The read of `markFailed`; `count` is the row's retry count, or zero when unanswered. */
    | FailedRead(id: nat, answered: bool)
    /** The write of the `k`-th outstanding `markFailed`. */
    | FailedWrite(k: nat)
    | ResetForReplay(id: nat)
    /** The developer reset dead-letters the unprocessed events of a post. */
    | DevDeadLetter(ids: set<nat>)

  function CountOf(rows: seq<EventRow>, id: nat): nat {
    if rows == [] then 0 else if rows[0].id == id then rows[0].retries else CountOf(rows[1..], id)
  }

  function Do(s: State, a: Action): State {
    match a
    case Emit(id, created) => s.(rows := s.rows + [EventRow(id, created, false, 0, false)])
    case MarkProcessed(id) => s.(rows := Updated(s.rows, id, (r: EventRow) => r.(processed := true)))
    case FailedRead(id, answered) =>
      s.(pending := s.pending + [WriteOf(s, id, answered)])
    case FailedWrite(k) =>
      if k < |s.pending| then
        var w := s.pending[k];
        State(Updated(s.rows, w.id, (r: EventRow) => r.(retries := w.next, dead := w.next >= MAX_RETRIES)),
              s.pending[..k] + s.pending[k + 1..])
      else s
    case ResetForReplay(id) => s.(rows := Updated(s.rows, id, (r: EventRow) => Reset(r)))
    case DevDeadLetter(ids) =>
      s.(rows := seq(|s.rows|, i requires 0 <= i < |s.rows| =>
           if s.rows[i].id in ids && !s.rows[i].processed then s.rows[i].(dead := true) else s.rows[i]))
  }

  function DoAll(s: State, acts: seq<Action>): State
    decreases |acts|
  {
    if acts == [] then s else DoAll(Do(s, acts[0]), acts[1..])
  }

  /** What each write does to one row, and what is added. */
  lemma RowAfter(s: State, a: Action, i: nat)
    requires i < |s.rows|
    ensures var (r, rows) := (s.rows[i], Do(s, a).rows);
            && |rows| == |s.rows| + (if a.Emit? then 1 else 0)
            && (a.Emit? ==> rows[|s.rows|] == EventRow(a.id, a.created, false, 0, false) && rows[i] == r)
            && (a.MarkProcessed? ==>
                  rows[i] == if r.id == a.id then EventRow(r.id, r.created, true, r.retries, r.dead) else r)
            && (a.ResetForReplay? ==>
                  rows[i] == if r.id == a.id then EventRow(r.id, r.created, false, 0, false) else r)
            && (a.DevDeadLetter? ==>
                  rows[i] == EventRow(r.id, r.created, r.processed, r.retries,
                                      r.dead || (!r.processed && r.id in a.ids)))
            && (a.FailedRead? ==> rows[i] == r)
            && (a.FailedWrite? ==>
                  rows[i] == if a.k < |s.pending| && s.pending[a.k].id == r.id
                             then EventRow(r.id, r.created, r.processed, s.pending[a.k].next, s.pending[a.k].next >= 3)
                             else r)
  {
  }

  /** A failure will be written as the one after those the row has, and as the first if the read was
      not answered or found no row. */
  lemma {:induction false} WriteIsNext(s: State, id: nat, answered: bool, i: nat)
    requires DistinctIds(s.rows)
    ensures !answered || !HasId(s.rows, id) ==> WriteOf(s, id, answered) == Write(id, 1)
    ensures answered && i < |s.rows| && s.rows[i].id == id ==>
              WriteOf(s, id, answered) == Write(id, s.rows[i].retries + 1)
  {
    if answered && i < |s.rows| && s.rows[i].id == id {
      CountOfRow(s.rows, i);
    }
    if !HasId(s.rows, id) {
      CountOfNone(s.rows, id);
    }
  }

  lemma {:induction false} CountOfNone(rows: seq<EventRow>, id: nat)
    requires !HasId(rows, id)
    ensures CountOf(rows, id) == 0
  {
    if rows != [] {
      assert forall j :: 0 <= j < |rows[1..]| ==> rows[1..][j] == rows[j + 1];
      CountOfNone(rows[1..], id);
    }
  }

  predicate RowSound(r: EventRow) {
    r.retries >= MAX_RETRIES ==> r.dead
  }

  ghost predicate Sound(rows: seq<EventRow>) {
    forall i :: 0 <= i < |rows| ==> RowSound(rows[i])
  }

  /** In every interleaving a row with three failures is dead-lettered. */
  lemma {:induction false} ExhaustedIsDead(s: State, acts: seq<Action>)
    requires Sound(s.rows)
    ensures Sound(DoAll(s, acts).rows)
    decreases |acts|
  {
    if acts != [] {
      var next := Do(s, acts[0]);
      forall i | 0 <= i < |next.rows| ensures RowSound(next.rows[i]) {
        if i < |s.rows| {
          assert RowSound(s.rows[i]);
        }
      }
      ExhaustedIsDead(next, acts[1..]);
    }
  }

  lemma {:induction false} SizeIsLive(rows: seq<EventRow>, since: int)
    requires Sound(rows)
    ensures QueueSize(rows, since) == LiveCount(rows, since)
  {
    if rows != [] {
      assert RowSound(rows[0]);
      forall i | 0 <= i < |rows[1..]| ensures RowSound(rows[1..][i]) {
        assert RowSound(rows[i + 1]);
      }
      SizeIsLive(rows[1..], since);
    }
  }

  /** So the reported queue size counts exactly the rows the retry loop selects from. */
  lemma QueueSizeIsExact(acts: seq<Action>, since: int)
    ensures var rows := DoAll(State([], []), acts).rows;
            QueueSize(rows, since) == LiveCount(rows, since)
  {
    ExhaustedIsDead(State([], []), acts);
    SizeIsLive(DoAll(State([], []), acts).rows, since);
  }

  predicate NoFailedWrite(acts: seq<Action>) {
    forall k :: 0 <= k < |acts| ==> !acts[k].FailedWrite?
  }

  /** What a `markFailed` that reads now is going to write. */
  function WriteOf(s: State, id: nat, answered: bool): Write {
    Write(id, (if answered then CountOf(s.rows, id) else 0) + 1)
  }

  /** It is still outstanding, with the count it read, whatever else happens meanwhile. */
  lemma {:induction false} PendingStays(s: State, acts: seq<Action>)
    requires NoFailedWrite(acts)
    ensures s.pending <= DoAll(s, acts).pending
    decreases |acts|
  {
    if acts != [] {
      PendingStays(Do(s, acts[0]), acts[1..]);
    }
  }

  /** A failure recorded across anything else, other failures, replays and the developer's
      dead-lettering included, makes every row of its event live again exactly if the row is not
      processed by then, is in the window, and the count that was read leaves another attempt:
      dead-lettering it in between is undone. */
  lemma DeadLetterUndoneIff(s: State, id: nat, answered: bool, acts: seq<Action>, k: nat, i: nat, since: int)
    requires var s' := DoAll(Do(s, FailedRead(id, answered)), acts);
             k < |s'.pending| && s'.pending[k] == WriteOf(s, id, answered) && i < |s'.rows| && s'.rows[i].id == id
    ensures var before := DoAll(Do(s, FailedRead(id, answered)), acts);
            var after := Do(before, FailedWrite(k));
            && |after.rows| == |before.rows|
            && (Live(after.rows[i], since) <==>
                  && !before.rows[i].processed && before.rows[i].created >= since
                  && (!answered || CountOf(s.rows, id) + 1 < MAX_RETRIES))
    ensures NoFailedWrite(acts) ==>
              var before := DoAll(Do(s, FailedRead(id, answered)), acts);
              |s.pending| < |before.pending| && before.pending[|s.pending|] == WriteOf(s, id, answered)
  {
    if NoFailedWrite(acts) {
      PendingStays(Do(s, FailedRead(id, answered)), acts);
    }
  }

  // ---------------------------------------------------------------- the batch

  /** The select of the retry loop: the first `budget` live rows, oldest first. */
  function FirstLive(rows: seq<EventRow>, since: int, budget: nat): (r: seq<EventRow>)
    ensures |r| <= budget
  {
    if rows == [] || budget == 0 then []
    else if Live(rows[0], since) then [rows[0]] + FirstLive(rows[1..], since, budget - 1)
    else FirstLive(rows[1..], since, budget)
  }

  ghost predicate HasId(rows: seq<EventRow>, id: nat) {
    exists k :: 0 <= k < |rows| && rows[k].id == id
  }

  lemma {:induction false} FirstLiveIsSome(rows: seq<EventRow>, since: int, budget: nat, id: nat)
    requires HasId(FirstLive(rows, since, budget), id)
    ensures HasId(rows, id)
    decreases |rows|
  {
    var batch := FirstLive(rows, since, budget);
    var k :| 0 <= k < |batch| && batch[k].id == id;
    if Live(rows[0], since) {
      if k > 0 {
        assert batch[1..][k - 1].id == id;
        FirstLiveIsSome(rows[1..], since, budget - 1, id);
      }
    } else {
      FirstLiveIsSome(rows[1..], since, budget, id);
    }
    if HasId(rows[1..], id) {
      var j :| 0 <= j < |rows[1..]| && rows[1..][j].id == id;
      assert rows[j + 1].id == id;
    }
  }

  /** A row is fetched exactly when it is live and fewer than `budget` live rows are older. */
  lemma {:induction false} FetchedIff(rows: seq<EventRow>, since: int, budget: nat, i: nat)
    requires DistinctIds(rows) && i < |rows|
    ensures HasId(FirstLive(rows, since, budget), rows[i].id) <==> InBatch(rows, since, budget, i)
    decreases |rows|
  {
    var batch := FirstLive(rows, since, budget);
    var rest := rows[1..];
    assert DistinctIds(rest);
    if budget > 0 {
      var left := if Live(rows[0], since) then budget - 1 else budget;
      var tail := FirstLive(rest, since, left);
      if i == 0 {
        if HasId(tail, rows[0].id) {
          FirstLiveIsSome(rest, since, left, rows[0].id);
        }
        if Live(rows[0], since) {
          assert batch[0].id == rows[0].id;
        }
      } else {
        FetchedIff(rest, since, left, i - 1);
        assert rows[..i][1..] == rest[..i - 1];
        if Live(rows[0], since) {
          assert batch == [rows[0]] + tail;
          if HasId(tail, rows[i].id) {
            var k :| 0 <= k < |tail| && tail[k].id == rows[i].id;
            assert batch[k + 1].id == rows[i].id;
          }
          if HasId(batch, rows[i].id) {
            var k :| 0 <= k < |batch| && batch[k].id == rows[i].id;
            assert tail[k - 1].id == rows[i].id;
          }
        }
      }
    }
  }

  predicate InRows(rows: seq<EventRow>, r: EventRow) {
    r in rows
  }

  lemma {:induction false} FetchedIsLive(rows: seq<EventRow>, since: int, budget: nat, b: EventRow)
    requires InRows(FirstLive(rows, since, budget), b)
    ensures InRows(rows, b) && Live(b, since)
    decreases |rows|
  {
    if !(Live(rows[0], since) && b == rows[0]) {
      FetchedIsLive(rows[1..], since, if Live(rows[0], since) then budget - 1 else budget, b);
    }
  }

  lemma OldestIsFirst(rows: seq<EventRow>, r: EventRow)
    requires OldestFirst(rows) && InRows(rows, r)
    ensures rows[0].created <= r.created
  {
    var k :| 0 <= k < |rows| && rows[k] == r;
  }

  lemma {:induction false} FetchedInOrder(rows: seq<EventRow>, since: int, budget: nat)
    requires OldestFirst(rows)
    ensures OldestFirst(FirstLive(rows, since, budget))
    decreases |rows|
  {
    if rows != [] && budget > 0 {
      var left := if Live(rows[0], since) then budget - 1 else budget;
      var tail := FirstLive(rows[1..], since, left);
      FetchedInOrder(rows[1..], since, left);
      forall k | 0 <= k < |tail| ensures rows[0].created <= tail[k].created {
        FetchedIsLive(rows[1..], since, left, tail[k]);
        OldestIsFirst(rows, tail[k]);
      }
    }
  }

  lemma {:induction false} LeftOutIsNewer(rows: seq<EventRow>, since: int, budget: nat, r: EventRow, b: EventRow)
    requires OldestFirst(rows) && InRows(rows, r) && Live(r, since) && !InRows(FirstLive(rows, since, budget), r)
    ensures |FirstLive(rows, since, budget)| == budget
    ensures InRows(FirstLive(rows, since, budget), b) ==> b.created <= r.created
    decreases |rows|
  {
    if budget > 0 {
      var left := if Live(rows[0], since) then budget - 1 else budget;
      assert r != rows[0] ==> InRows(rows[1..], r);
      LeftOutIsNewer(rows[1..], since, left, r, b);
      OldestIsFirst(rows, r);
    }
  }

  /** The batch is in order of creation, and no live row left out is older than one fetched. */
  lemma FirstLiveIsOldest(rows: seq<EventRow>, since: int, budget: nat)
    requires OldestFirst(rows)
    ensures var batch := FirstLive(rows, since, budget);
            && OldestFirst(batch)
            && (forall b :: InRows(batch, b) ==> InRows(rows, b) && Live(b, since))
            && (forall r :: InRows(rows, r) && Live(r, since) && !InRows(batch, r) ==>
                  |batch| == budget && forall b :: InRows(batch, b) ==> b.created <= r.created)
  {
    var batch := FirstLive(rows, since, budget);
    FetchedInOrder(rows, since, budget);
    forall b | InRows(batch, b) ensures InRows(rows, b) && Live(b, since) {
      FetchedIsLive(rows, since, budget, b);
    }
    forall r, b | InRows(rows, r) && Live(r, since) && !InRows(batch, r)
      ensures |batch| == budget && (InRows(batch, b) ==> b.created <= r.created)
    {
      LeftOutIsNewer(rows, since, budget, r, b);
    }
  }

  /** A row after a manual replay of its event, whose reset may fail to land. */
  function Replayed(r: EventRow, resetLands: bool, h: HandlerRun): EventRow {
    Attempt(if (r.dead || r.retries >= MAX_RETRIES) && resetLands then Reset(r) else r, h)
  }

  /** A replay whose handler fails leaves the event in the queue exactly if it was exhausted and could
      be reset, or was not processed and, once the failure is written down, has an attempt left. */
  lemma FailedReplayRequeuesIff(r: EventRow, resetLands: bool, h: HandlerRun, since: int)
    requires r.created >= since && !h.succeeds
    ensures var exhausted := r.dead || r.retries >= MAX_RETRIES;
            Live(Replayed(r, resetLands, h), since) <==>
              || (exhausted && resetLands)
              || (!r.processed && if h.lands then !h.answered || r.retries + 1 < MAX_RETRIES else !exhausted)
    ensures r.dead && resetLands && h.lands ==> Replayed(r, resetLands, h).retries == 1
  {
  }

  // ---------------------------------------------------------------- the objects

  /** A change of an event's state leaves its id and its time of creation. */
  ghost predicate KeepsIdentity(change: EventRow -> EventRow) {
    forall r :: change(r).id == r.id && change(r).created == r.created
  }

  /** The time the database gives to a new row. */
  ghost predicate NotBefore(rows: seq<EventRow>, created: int) {
    forall i :: 0 <= i < |rows| ==> rows[i].created <= created
  }

  ghost predicate Table(rows: seq<EventRow>) {
    DistinctIds(rows) && OldestFirst(rows)
  }

  lemma {:induction false} CountOfRow(rows: seq<EventRow>, i: nat)
    requires DistinctIds(rows) && i < |rows|
    ensures CountOf(rows, rows[i].id) == rows[i].retries
  {
    if i > 0 {
      CountOfRow(rows[1..], i - 1);
      assert rows[1..][i - 1] == rows[i];
    }
  }

  class EventsService {
    var rows: seq<EventRow>

    constructor ()
      ensures rows == []
    {
      rows := [];
    }

    /** Writes an unprocessed row and reports its id, or none when the call fails.  The database
        issues an id that no row has and a time that is not before any other row's. */
    method Emit(id: nat, created: int, fault: Fault) returns (reported: Option<nat>)
      requires Table(rows) && !HasId(rows, id) && NotBefore(rows, created)
      modifies this
      ensures rows == if fault == Error then old(rows) else old(rows) + [EventRow(id, created, false, 0, false)]
      ensures fault != Error ==> rows == Do(State(old(rows), []), Action.Emit(id, created)).rows
      ensures reported == if fault == Fine then Some(id) else None
      ensures Table(rows)
    {
      if fault != Error {
        rows := rows + [EventRow(id, created, false, 0, false)];
      }
      reported := if fault == Fine then Some(id) else None;
    }

    /** `update … where id = id`; the callers only log its error. */
    method Update(id: nat, change: EventRow -> EventRow, fault: Fault)
      requires Table(rows) && KeepsIdentity(change)
      modifies this
      ensures rows == if fault == Error then old(rows) else Updated(old(rows), id, change)
      ensures Table(rows)
    {
      if fault == Error {
        return;
      }
      var i := 0;
      while i < |rows|
        invariant i <= |rows| == |old(rows)|
        invariant forall j :: 0 <= j < i ==> rows[j] == Updated(old(rows), id, change)[j]
        invariant forall j :: i <= j < |rows| ==> rows[j] == old(rows)[j]
      {
        if rows[i].id == id {
          rows := rows[i := change(rows[i])];
        }
        i := i + 1;
      }
    }

    method MarkProcessed(id: nat, fault: Fault)
      requires Table(rows)
      modifies this
      ensures rows == Updated(old(rows), id, (r: EventRow) => Attempt(r, HandlerRun(true, true, fault != Error)))
      ensures forall i :: 0 <= i < |rows| ==>
                var was := old(rows)[i];
                rows[i] == if fault != Error && was.id == id then was.(processed := true) else was
      ensures fault != Error ==> rows == Do(State(old(rows), []), Action.MarkProcessed(id)).rows
      ensures Table(rows)
    {
      Update(id, (r: EventRow) => r.(processed := true), fault);
    }

    /** Reads the count, no answer counting as zero, and writes it incremented; the third failure
        dead-letters the event. */
    method MarkFailed(id: nat, readFault: Fault, writeFault: Fault) returns (isDead: bool)
      requires Table(rows)
      modifies this
      ensures rows == Updated(old(rows), id,
                (r: EventRow) => Attempt(r, HandlerRun(false, readFault == Fine, writeFault != Error)))
      ensures isDead <==> readFault == Fine && CountOf(old(rows), id) + 1 >= MAX_RETRIES
      ensures forall i :: 0 <= i < |rows| ==>
                var r, counted := old(rows)[i], if readFault == Fine then old(rows)[i].retries + 1 else 1;
                rows[i] == if writeFault != Error && r.id == id then r.(retries := counted, dead := counted >= 3) else r
      ensures writeFault != Error ==>
                rows == Do(Do(State(old(rows), []), FailedRead(id, readFault == Fine)), FailedWrite(0)).rows
      ensures Table(rows)
    {
      var current := if readFault == Fine then CountOf(rows, id) else 0;
      var nextRetry := current + 1;
      isDead := nextRetry >= MAX_RETRIES;
      ghost var before := rows;
      Update(id, (r: EventRow) => r.(retries := nextRetry, dead := nextRetry >= MAX_RETRIES), writeFault);
      forall i | 0 <= i < |before| && before[i].id == id ensures CountOf(before, id) == before[i].retries {
        CountOfRow(before, i);
      }
    }

    method ResetForReplay(id: nat, fault: Fault)
      requires Table(rows)
      modifies this
      ensures rows == if fault == Error then old(rows) else Updated(old(rows), id, (r: EventRow) => Reset(r))
      ensures forall i :: 0 <= i < |rows| && fault != Error && rows[i].id == id ==>
                rows[i] == EventRow(id, old(rows)[i].created, false, 0, false)
      ensures fault != Error ==> rows == Do(State(old(rows), []), Action.ResetForReplay(id)).rows
      ensures Table(rows)
    {
      Update(id, (r: EventRow) => r.(dead := false, retries := 0, processed := false), fault);
    }

    method FetchById(id: nat, fault: Fault) returns (event: Option<EventRow>)
      ensures event.Some? <==> fault == Fine && HasId(rows, id)
      ensures event.Some? ==> event.value in rows && event.value.id == id
    {
      if fault != Fine {
        return None;
      }
      var i := 0;
      while i < |rows|
        invariant i <= |rows|
        invariant forall j :: 0 <= j < i ==> rows[j].id != id
      {
        if rows[i].id == id {
          return Some(rows[i]);
        }
        i := i + 1;
      }
      event := None;
    }

    /** The first live rows, up to the batch size. */
    method SelectLive(since: int) returns (batch: seq<EventRow>)
      ensures batch == FirstLive(rows, since, BATCH)
    {
      batch := [];
      var i := 0;
      while i < |rows| && |batch| < BATCH
        invariant i <= |rows| && |batch| <= BATCH
        invariant FirstLive(rows, since, BATCH) == batch + FirstLive(rows[i..], since, BATCH - |batch|)
      {
        var r := rows[i];
        assert rows[i..][1..] == rows[i + 1..];
        if !r.processed && !r.dead && r.retries < 3 && r.created >= since {
          batch := batch + [r];
        }
        i := i + 1;
      }
    }

    /** The oldest live rows, in order of creation, up to the batch size; none when the call fails. */
    method FetchUnprocessed(since: int, fault: Fault) returns (batch: seq<EventRow>)
      requires Table(rows)
      ensures batch == if fault == Fine then FirstLive(rows, since, BATCH) else []
      ensures OldestFirst(batch) && forall b :: InRows(batch, b) ==> InRows(rows, b) && Live(b, since)
      ensures fault == Fine ==>
                forall r :: InRows(rows, r) && Live(r, since) && !InRows(batch, r) ==>
                  |batch| == 100 && forall b :: InRows(batch, b) ==> b.created <= r.created
    {
      if fault != Fine {
        return [];
      }
      batch := SelectLive(since);
      FirstLiveIsOldest(rows, since, BATCH);
    }

    /** The number of unprocessed rows in the window that are not dead-lettered, or -1. */
    method QueueSize(since: int, fault: Fault) returns (count: int)
      ensures count == if fault == Fine then EventQueue.QueueSize(rows, since) else -1
    {
      if fault != Fine {
        return -1;
      }
      count := 0;
      var i := 0;
      while i < |rows|
        invariant i <= |rows|
        invariant EventQueue.QueueSize(rows, since) == count + EventQueue.QueueSize(rows[i..], since)
      {
        assert rows[i..][1..] == rows[i + 1..];
        if !rows[i].processed && !rows[i].dead && rows[i].created >= since {
          count := count + 1;
        }
        i := i + 1;
      }
    }
  }

  /** Resetting the event if it is exhausted and then running it is one change of its row. */
  lemma ReplayIsReplayed(rows: seq<EventRow>, event: EventRow, resetLands: bool, h: HandlerRun)
    requires DistinctIds(rows) && event in rows
    ensures var ready := if (event.dead || event.retries >= MAX_RETRIES) && resetLands
                         then Updated(rows, event.id, (r: EventRow) => Reset(r)) else rows;
            Updated(ready, event.id, (r: EventRow) => Attempt(r, h))
            == Updated(rows, event.id, (r: EventRow) => Replayed(r, resetLands, h))
  {
    forall i | 0 <= i < |rows| && rows[i].id == event.id ensures rows[i] == event {
      var j :| 0 <= j < |rows| && rows[j] == event;
    }
  }

  class EventProcessorService {
    const events: EventsService
    var tickCount: nat

    constructor (events: EventsService)
      ensures this.events == events && tickCount == 0
    {
      this.events := events;
      tickCount := 0;
    }

    method RunHandler(event: EventRow, h: HandlerRun)
      requires Table(events.rows)
      modifies events
      ensures events.rows == Updated(old(events.rows), event.id, (r: EventRow) => Attempt(r, h))
      ensures Table(events.rows)
    {
      var write := if h.lands then Fine else Error;
      if h.succeeds {
        events.MarkProcessed(event.id, write);
      } else {
        var _ := events.MarkFailed(event.id, if h.answered then Fine else Error, write);
      }
    }

    /** Manual replay: an exhausted event starts over, and every event that is found is run at once. */
    method ReplayById(id: nat, fetchFault: Fault, resetFault: Fault, h: HandlerRun) returns (found: bool)
      requires Table(events.rows)
      modifies events
      ensures found == (fetchFault == Fine && HasId(old(events.rows), id))
      ensures events.rows ==
              if found then Updated(old(events.rows), id, (r: EventRow) => Replayed(r, resetFault != Error, h))
              else old(events.rows)
    {
      var event := events.FetchById(id, fetchFault);
      if event.None? {
        return false;
      }
      found := true;
      ReplayIsReplayed(events.rows, event.value, resetFault != Error, h);
      if event.value.dead || event.value.retries >= MAX_RETRIES {
        events.ResetForReplay(id, resetFault);
      }
      RunHandler(event.value, h);
    }

    /** One tick of the retry loop: fetch a batch, then run every event of it. */
    method RetryUnprocessed(since: int, verdict: Verdict, fetchFault: Fault)
      requires Table(events.rows)
      modifies this, events
      ensures events.rows ==
              if fetchFault == Fine then TickRows(old(events.rows), since, verdict, BATCH) else old(events.rows)
      ensures tickCount == old(tickCount) + 1 && Table(events.rows)
    {
      tickCount := tickCount + 1;
      ghost var before := events.rows;
      var unprocessed := events.FetchUnprocessed(since, fetchFault);
      if unprocessed == [] {
        NothingFetched(before, since, verdict);
        return;
      }
      var k := 0;
      while k < |unprocessed|
        invariant k <= |unprocessed| && |events.rows| == |before| && Table(events.rows)
        invariant tickCount == old(tickCount) + 1
        invariant forall i :: 0 <= i < |before| ==> events.rows[i] == AfterBatch(before[i], unprocessed[..k], verdict)
      {
        BatchIdsDistinct(before, since, BATCH);
        RunHandler(unprocessed[k], verdict(unprocessed[k].id));
        forall i | 0 <= i < |before| ensures events.rows[i] == AfterBatch(before[i], unprocessed[..k + 1], verdict) {
          HasIdGrows(unprocessed, k, before[i].id);
        }
        k := k + 1;
      }
      assert unprocessed[..k] == unprocessed;
      forall i | 0 <= i < |before| ensures events.rows[i] == TickRows(before, since, verdict, BATCH)[i] {
        TickAt(before, since, verdict, BATCH, i);
        FetchedIff(before, since, BATCH, i);
      }
    }
  }

  /** A row after the events of this part of a batch were run. */
  ghost function AfterBatch(r: EventRow, run: seq<EventRow>, verdict: Verdict): EventRow {
    if HasId(run, r.id) then Attempt(r, verdict(r.id)) else r
  }

  lemma {:induction false} NothingFetched(rows: seq<EventRow>, since: int, verdict: Verdict)
    ensures FirstLive(rows, since, BATCH) == [] ==> TickRows(rows, since, verdict, BATCH) == rows
  {
    if rows != [] {
      NothingFetched(rows[1..], since, verdict);
    }
  }

  lemma HasIdGrows(rows: seq<EventRow>, k: nat, id: nat)
    requires k < |rows| && DistinctIds(rows)
    ensures HasId(rows[..k + 1], id) <==> HasId(rows[..k], id) || rows[k].id == id
    ensures rows[k].id == id ==> !HasId(rows[..k], id)
  {
  }

  lemma {:induction false} BatchIdsDistinct(rows: seq<EventRow>, since: int, budget: nat)
    requires DistinctIds(rows)
    ensures DistinctIds(FirstLive(rows, since, budget))
    decreases |rows|
  {
    if rows != [] && budget > 0 {
      assert DistinctIds(rows[1..]);
      if Live(rows[0], since) {
        BatchIdsDistinct(rows[1..], since, budget - 1);
        var tail := FirstLive(rows[1..], since, budget - 1);
        forall k | 0 <= k < |tail| ensures tail[k].id != rows[0].id {
          assert HasId(tail, tail[k].id);
          FirstLiveIsSome(rows[1..], since, budget - 1, tail[k].id);
        }
      } else {
        BatchIdsDistinct(rows[1..], since, budget);
      }
    }
  }
}
