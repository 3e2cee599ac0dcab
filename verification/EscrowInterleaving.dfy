/**
 Any number of `lockEscrowForPayment` runs, split at their database calls and
 interleaved with each other and with the rest of the backend.
 */
module EscrowInterleaving {
  import opened Wrappers
  import opened EscrowLock

  datatype Sys = Sys(db: Db, workers: seq<Worker>)

  datatype Action =
    /** An event is picked up: by the retry loop, or by a manual replay. */
    | Deliver(job: Job)
    /** Worker `i` performs its next database call. */
    | Advance(i: nat, fault: Fault)
    /** Some other part of the backend writes. */
    | Elsewhere

  ghost predicate SettledUnderDead(db: Db, id: RowId, t: TxId) {
    id in db.escrow && db.escrow[id].tx == t && Settled(db.escrow[id].status) && Dead(db, t)
  }

  /** What the rest of the backend is relied on for: the schema's constraints hold, ids are never
      reused, a dead transaction stays dead, and no row becomes settled under a dead transaction. */
  ghost predicate Rely(db: Db, db': Db) {
    && ValidDb(db')
    && db.rowPosts <= db'.rowPosts
    && db.issuedTxs <= db'.issuedTxs
    && (forall i :: i in db'.escrow && i !in db.escrow ==> i >= |db.rowPosts|)
    && (forall t: TxId :: t < db.issuedTxs && Dead(db, t) ==> Dead(db', t))
    && (forall i: RowId, t: TxId :: SettledUnderDead(db', i, t) ==> SettledUnderDead(db, i, t))
  }

  ghost predicate Next(s: Sys, a: Action, s': Sys) {
    match a
    case Deliver(job) =>
      job.tx < s.db.issuedTxs && s' == Sys(s.db, s.workers + [Worker(job, Begin)])
    case Advance(i, fault) =>
      && i < |s.workers| && !s.workers[i].phase.Done?
      && s' == Sys(StepDb(s.db, s.workers[i], fault),
                   s.workers[i := s.workers[i].(phase := StepPhase(s.db, s.workers[i], fault))])
    case Elsewhere =>
      Rely(s.db, s'.db) && s'.workers == s.workers
  }

  /** The read of the incumbent transaction got an answer. */
  predicate IncumbentReadAnswered(s: Sys, a: Action) {
    a.Advance? && a.i < |s.workers| && s.workers[a.i].phase.SawOther? ==> a.fault == Fine
  }

  ghost predicate Run(trace: seq<Sys>, acts: seq<Action>) {
    && |trace| == |acts| + 1
    && forall k :: 0 <= k < |acts| ==> Next(trace[k], acts[k], trace[k + 1])
  }

  ghost predicate CalmRun(trace: seq<Sys>, acts: seq<Action>) {
    && Run(trace, acts)
    && forall k :: 0 <= k < |acts| ==> IncumbentReadAnswered(trace[k], acts[k])
  }

  // ---------------------------------------------------------------- the invariant

  /** What a handler's memory of the row is still worth, whatever happened since it read it. */
  ghost predicate MemorySound(db: Db, w: Worker) {
    && w.job.tx < db.issuedTxs
    && match w.phase
       case SawOther(id, seen) => RowKnown(db, w.job, id, seen)
       case AboutToRepoint(id, seen) => RowKnown(db, w.job, id, seen) && Dead(db, seen.tx)
       case _ => true
  }

  ghost predicate RowKnown(db: Db, job: Job, id: RowId, seen: EscrowRow) {
    && id < |db.rowPosts| && db.rowPosts[id] == job.post
    && seen.tx < db.issuedTxs && seen.tx != job.tx
    && !SettledUnderDead(db, id, seen.tx)
  }

  ghost predicate Inv(s: Sys) {
    ValidDb(s.db) && forall i :: 0 <= i < |s.workers| ==> MemorySound(s.db, s.workers[i])
  }

  predicate Repairable(db: Db, job: Job, id: RowId)
    requires id in db.escrow
  {
    db.escrow[id].post == job.post && !Settled(db.escrow[id].status) && Dead(db, db.escrow[id].tx)
  }

  /** Everything one handler step may do to the tables. */
  ghost predicate Guarantee(db: Db, job: Job, db': Db) {
    var mine := EscrowRow(job.post, job.tx, job.amount, Locked);
    && ValidDb(db')
    && db'.txs == db.txs && db'.issuedTxs == db.issuedTxs && db.rowPosts <= db'.rowPosts
    // A row changes only if it is this post's, unsettled, and owned by a dead transaction.
    && (forall i :: i in db.escrow ==>
          i in db'.escrow && (db'.escrow[i] == db.escrow[i] || (Repairable(db, job, i) && db'.escrow[i] == mine)))
    // A row appears only if the post had none.
    && (forall i :: i in db'.escrow && i !in db.escrow ==>
          !HasRow(db, job.post) && db'.escrow[i] == mine && i >= |db.rowPosts|)
  }

  lemma StepGuarantee(db: Db, w: Worker, fault: Fault)
    requires ValidDb(db) && MemorySound(db, w) && !w.phase.Done?
    ensures Guarantee(db, w.job, StepDb(db, w, fault))
  {
    var db' := StepDb(db, w, fault);
    if w.phase.SawNothing? && db' != db {
      forall i, j | i in db'.escrow && j in db'.escrow && db'.escrow[i].post == db'.escrow[j].post
        ensures i == j
      {
        assert forall k :: k in db.escrow ==> db.escrow[k].post != w.job.post;
      }
    }
  }

  lemma StepKeepsMemory(db: Db, w: Worker, fault: Fault)
    requires ValidDb(db) && MemorySound(db, w) && !w.phase.Done?
    requires w.phase.SawOther? ==> fault == Fine
    ensures MemorySound(StepDb(db, w, fault), Worker(w.job, StepPhase(db, w, fault)))
  {
  }

  /** Another handler's step does not spoil this one's memory. */
  lemma GuaranteeKeepsMemory(db: Db, job: Job, db': Db, other: Worker)
    requires ValidDb(db) && Guarantee(db, job, db') && MemorySound(db, other)
    ensures MemorySound(db', other)
  {
    if other.phase.SawOther? || other.phase.AboutToRepoint? {
      assert SettledUnderDead(db', other.phase.id, other.phase.seen.tx)
          ==> SettledUnderDead(db, other.phase.id, other.phase.seen.tx);
    }
  }

  ghost predicate StepSafe(s: Sys, a: Action, s': Sys) {
    a.Advance? ==> a.i < |s.workers| && Guarantee(s.db, s.workers[a.i].job, s'.db)
  }

  lemma InvStep(s: Sys, a: Action, s': Sys)
    requires Inv(s) && Next(s, a, s') && IncumbentReadAnswered(s, a)
    ensures Inv(s')
    ensures StepSafe(s, a, s')
  {
    if a.Advance? {
      var w := s.workers[a.i];
      StepGuarantee(s.db, w, a.fault);
      forall i | 0 <= i < |s'.workers| ensures MemorySound(s'.db, s'.workers[i]) {
        if i == a.i {
          StepKeepsMemory(s.db, w, a.fault);
        } else {
          GuaranteeKeepsMemory(s.db, w.job, s'.db, s.workers[i]);
        }
      }
    } else if a.Elsewhere? {
      forall i | 0 <= i < |s'.workers| ensures MemorySound(s'.db, s'.workers[i]) {
        var w := s.workers[i];
        if w.phase.SawOther? || w.phase.AboutToRepoint? {
          assert !SettledUnderDead(s'.db, w.phase.id, w.phase.seen.tx);
        }
      }
    }
  }

  /** In every interleaving: one row per post at all times, and no handler step ever touches a
      settled row, a row owned by a live transaction, or another post's row. */
  lemma {:induction false} InterleavingSafety(trace: seq<Sys>, acts: seq<Action>, n: nat)
    requires CalmRun(trace, acts) && Inv(trace[0]) && n < |trace|
    ensures Inv(trace[n])
    ensures n < |acts| ==> StepSafe(trace[n], acts[n], trace[n + 1])
  {
    if n > 0 {
      InterleavingSafety(trace, acts, n - 1);
      InvStep(trace[n - 1], acts[n - 1], trace[n]);
    }
    if n < |acts| {
      InvStep(trace[n], acts[n], trace[n + 1]);
    }
  }

  ghost predicate SettledRow(db: Db, id: RowId) {
    id in db.escrow && Settled(db.escrow[id].status)
  }

  ghost predicate SameRow(db: Db, db': Db, id: RowId) {
    id in db.escrow && id in db'.escrow && db'.escrow[id] == db.escrow[id]
  }

  /** The rest of the backend leaves the row alone once it is settled. */
  ghost predicate LeftAlone(s: Sys, a: Action, s': Sys, id: RowId) {
    a.Elsewhere? && SettledRow(s.db, id) ==> SameRow(s.db, s'.db, id)
  }

  ghost predicate KeepsIfSettled(s: Sys, s': Sys, id: RowId) {
    SettledRow(s.db, id) ==> SameRow(s.db, s'.db, id)
  }

  lemma SettledStep(trace: seq<Sys>, acts: seq<Action>, id: RowId, k: nat)
    requires CalmRun(trace, acts) && Inv(trace[0]) && k < |acts|
    requires LeftAlone(trace[k], acts[k], trace[k + 1], id)
    ensures KeepsIfSettled(trace[k], trace[k + 1], id)
  {
    InterleavingSafety(trace, acts, k);
    assert Next(trace[k], acts[k], trace[k + 1]);
  }

  lemma {:induction false} SettledStays(trace: seq<Sys>, id: RowId, m: nat, n: nat)
    requires m <= n < |trace| && SettledRow(trace[m].db, id)
    requires forall k :: m <= k < n ==> KeepsIfSettled(trace[k], trace[k + 1], id)
    ensures SameRow(trace[m].db, trace[n].db, id)
  {
    if m < n {
      SettledStays(trace, id, m, n - 1);
      assert KeepsIfSettled(trace[n - 1], trace[n - 1 + 1], id);
    }
  }

  /** Over a whole run: once a row is settled it stays exactly as it is, for as long as the rest
      of the backend leaves it alone. */
  lemma SettledForever(trace: seq<Sys>, acts: seq<Action>, id: RowId, m: nat, n: nat)
    requires CalmRun(trace, acts) && Inv(trace[0])
    requires m <= n < |trace| && SettledRow(trace[m].db, id)
    requires forall k :: m <= k < n ==> LeftAlone(trace[k], acts[k], trace[k + 1], id)
    ensures SameRow(trace[m].db, trace[n].db, id)
  {
    forall k | m <= k < n ensures KeepsIfSettled(trace[k], trace[k + 1], id) {
      SettledStep(trace, acts, id, k);
    }
    SettledStays(trace, id, m, n);
  }

  // ---------------------------------------------------------------- where the code falls short

  ghost predicate Stolen(db: Db, db': Db) {
    exists id :: id in db.escrow && id in db'.escrow && !Dead(db, db.escrow[id].tx) && db'.escrow[id] != db.escrow[id]
  }

  /** Exactly when one run takes a row away from a live transaction: the read of the owning
      transaction failed, its error was not looked at, and the write went through. */
  lemma StolenIff(db: Db, job: Job, faults: Faults)
    requires ValidDb(db)
    ensures Stolen(db, Lock(db, job, faults).0) <==>
            (&& faults.read == Fine && faults.incumbent != Fine && faults.write != Error
             && HasRow(db, job.post)
             && var row := db.escrow[RowIdOf(db, job.post)];
                row.tx != job.tx && !Settled(row.status) && !Dead(db, row.tx))
  {
  }

  /** Some row that was settled, or belonged to a live transaction, was changed. */
  ghost predicate Taken(db: Db, db': Db) {
    exists id :: && id in db.escrow && (Settled(db.escrow[id].status) || !Dead(db, db.escrow[id].tx))
                 && !(id in db'.escrow && db'.escrow[id] == db.escrow[id])
  }

  /** The same among interleaved handlers, whatever was read or not read before, in any state: the
      only step that takes such a row is the guarded write, exactly if its guard matches and the row
      is settled by now or its owner alive. */
  lemma StepTakesIff(db: Db, w: Worker, fault: Fault)
    requires !w.phase.Done? && (w.phase.AboutToRepoint? ==> w.job.tx != w.phase.seen.tx)
    requires forall i :: i in db.escrow ==> i < |db.rowPosts|
    ensures Taken(db, StepDb(db, w, fault)) <==>
            && w.phase.AboutToRepoint? && fault != Error && GuardMatches(db, w.phase.id, w.phase.seen.tx)
            && (Settled(db.escrow[w.phase.id].status) || !Dead(db, w.phase.seen.tx))
  {
    if w.phase.AboutToRepoint? && fault != Error && GuardMatches(db, w.phase.id, w.phase.seen.tx) {
      var db' := StepDb(db, w, fault);
      assert db'.escrow[w.phase.id].tx == w.job.tx;
      assert forall i :: i in db.escrow && i != w.phase.id ==> i in db'.escrow && db'.escrow[i] == db.escrow[i];
    }
  }

  /** A concrete theft: a paid transaction's locked row is re-pointed at another one. */
  lemma IncumbentReadErrorSteals()
    ensures var db := Db(map[0 := EscrowRow("p", 0, 500, Locked)], map[0 := Paid, 1 := Paid], ["p"], 2);
            && ValidDb(db)
            && Lock(db, Job("p", 1, 800), Faults(Fine, Error, Fine)).0.escrow ==
                 map[0 := EscrowRow("p", 1, 800, Locked)]
  {
    var db := Db(map[0 := EscrowRow("p", 0, 500, Locked)], map[0 := Paid, 1 := Paid], ["p"], 2);
    assert 0 in db.escrow && db.escrow[0].post == "p";
    assert HasRow(db, "p");
    assert RowIdOf(db, "p") == 0;
  }

  /** A weaker promise of the rest of the backend: it settles a row only while the row's
      transaction is alive. */
  ghost predicate SettlesOnlyUnderLive(db: Db, db': Db) {
    && ValidDb(db') && db'.rowPosts == db.rowPosts && db'.issuedTxs == db.issuedTxs
    && (forall t: TxId :: Dead(db, t) ==> Dead(db', t))
    && (forall i :: i in db'.escrow && Settled(db'.escrow[i].status) ==>
          (i in db.escrow && db'.escrow[i] == db.escrow[i]) || !Dead(db, db'.escrow[i].tx))
  }

  lemma OnlyRow(db: Db, row: EscrowRow)
    requires db.escrow == map[0 := row]
    ensures HasRow(db, row.post) && RowIdOf(db, row.post) == 0
  {
    assert 0 in db.escrow && db.escrow[0].post == row.post;
  }

  /** Transaction 0 holds the row of the post; transaction 1 is another, paid one. */
  function Held(post: PostId, status: EscrowStatus, holder: TxStatus): Db {
    Db(map[0 := EscrowRow(post, 0, 500, status)], map[0 := holder, 1 := Paid], [post], 2)
  }

  /** That promise is not enough: a row settled while its transaction lived, whose transaction
      fails afterwards, is resurrected as locked by a handler that had read it before. */
  lemma SettledWhileLiveThenFailed(post: PostId)
    ensures var row, rival := EscrowRow(post, 0, 500, Locked), Job(post, 1, 800);
            var held, settled := Held(post, Locked, Paid), Held(post, EscrowReleased, Paid);
            var failed := Held(post, EscrowReleased, Failed);
            && Inv(Sys(held, [Worker(rival, Begin)]))
            && StepPhase(held, Worker(rival, Begin), Fine) == SawOther(0, row)
            && SettlesOnlyUnderLive(held, settled) && SettlesOnlyUnderLive(settled, failed)
            && StepPhase(failed, Worker(rival, SawOther(0, row)), Fine) == AboutToRepoint(0, row)
            && StepDb(failed, Worker(rival, AboutToRepoint(0, row)), Fine).escrow ==
                 map[0 := EscrowRow(post, 1, 800, Locked)]
  {
    OnlyRow(Held(post, Locked, Paid), EscrowRow(post, 0, 500, Locked));
  }

  ghost predicate Reaches(s: Sys, s': Sys) {
    exists trace, acts :: CalmRun(trace, acts) && trace[0] == s && trace[|acts|] == s'
  }

  lemma ReachesItself(s: Sys)
    ensures Reaches(s, s)
  {
    var none: seq<Action> := [];
    assert CalmRun([s], none) && [s][0] == s && [s][|none|] == s;
  }

  /** A faultless step of handler `i`. */
  ghost function Stepped(s: Sys, i: nat): Sys
    requires i < |s.workers| && !s.workers[i].phase.Done?
  {
    var w := s.workers[i];
    Sys(StepDb(s.db, w, Fine), s.workers[i := w.(phase := StepPhase(s.db, w, Fine))])
  }

  lemma CalmRunBefore(s: Sys, i: nat, trace: seq<Sys>, acts: seq<Action>)
    requires i < |s.workers| && !s.workers[i].phase.Done? && CalmRun(trace, acts) && trace[0] == Stepped(s, i)
    ensures CalmRun([s] + trace, [Advance(i, Fine)] + acts)
  {
  }

  lemma ReachesBefore(s: Sys, i: nat, s': Sys)
    requires i < |s.workers| && !s.workers[i].phase.Done? && Reaches(Stepped(s, i), s')
    ensures Reaches(s, s')
  {
    var trace, acts :| CalmRun(trace, acts) && trace[0] == Stepped(s, i) && trace[|acts|] == s';
    var trace', acts' := [s] + trace, [Advance(i, Fine)] + acts;
    CalmRunBefore(s, i, trace, acts);
    assert trace'[|acts'|] == trace[|acts|];
  }

  lemma CalmRunBeforeDelivery(s: Sys, job: Job, trace: seq<Sys>, acts: seq<Action>)
    requires job.tx < s.db.issuedTxs && CalmRun(trace, acts)
    requires trace[0] == Sys(s.db, s.workers + [Worker(job, Begin)])
    ensures CalmRun([s] + trace, [Deliver(job)] + acts)
  {
  }

  lemma ReachesBeforeDelivery(s: Sys, job: Job, s': Sys)
    requires job.tx < s.db.issuedTxs && Reaches(Sys(s.db, s.workers + [Worker(job, Begin)]), s')
    ensures Reaches(s, s')
  {
    var next := Sys(s.db, s.workers + [Worker(job, Begin)]);
    var trace, acts :| CalmRun(trace, acts) && trace[0] == next && trace[|acts|] == s';
    CalmRunBeforeDelivery(s, job, trace, acts);
    var trace', acts' := [s] + trace, [Deliver(job)] + acts;
    assert trace'[|acts'|] == trace[|acts|];
  }

  /** Two handlers of a post whose stranded row is owned by failed transaction 0: one for failed
      transaction 1, one for paid transaction 2. */
  function Duel(post: PostId, owner: TxId, amount: int, failed: Phase, paid: Phase): Sys {
    Sys(Db(map[0 := EscrowRow(post, owner, amount, Locked)], map[0 := Failed, 1 := Failed, 2 := Paid], [post], 3),
        [Worker(Job(post, 1, 800), failed), Worker(Job(post, 2, 900), paid)])
  }

  lemma DuelReads(post: PostId, failed: Phase, paid: Phase)
    ensures var row := EscrowRow(post, 0, 500, Locked);
            var other, sure := SawOther(0, row), AboutToRepoint(0, row);
            && (failed == Begin ==> Stepped(Duel(post, 0, 500, failed, paid), 0) == Duel(post, 0, 500, other, paid))
            && (paid == Begin ==> Stepped(Duel(post, 0, 500, failed, paid), 1) == Duel(post, 0, 500, failed, other))
            && (failed == other ==> Stepped(Duel(post, 0, 500, failed, paid), 0) == Duel(post, 0, 500, sure, paid))
            && (paid == other ==> Stepped(Duel(post, 0, 500, failed, paid), 1) == Duel(post, 0, 500, failed, sure))
  {
    OnlyRow(Duel(post, 0, 500, failed, paid).db, EscrowRow(post, 0, 500, Locked));
  }

  lemma DuelWrites(post: PostId)
    ensures var sure := AboutToRepoint(0, EscrowRow(post, 0, 500, Locked));
            && Stepped(Duel(post, 0, 500, sure, sure), 0) == Duel(post, 1, 800, Done(Repointed), sure)
            && Stepped(Duel(post, 1, 800, Done(Repointed), sure), 1) ==
                 Duel(post, 1, 800, Done(Repointed), Done(Repointed))
  {
  }

  /** A run may report a repair it did not make: both handlers read the stranded row, the one for
      the other failed attempt writes first, and the guarded write of the paid transaction's
      handler then matches nothing. */
  lemma RepairLost(post: PostId)
    ensures Inv(Duel(post, 0, 500, Begin, Begin))
    ensures Reaches(Sys(Duel(post, 0, 500, Begin, Begin).db, []), Duel(post, 1, 800, Done(Repointed), Done(Repointed)))
  {
    var row := EscrowRow(post, 0, 500, Locked);
    var other, sure := SawOther(0, row), AboutToRepoint(0, row);
    var end := Duel(post, 1, 800, Done(Repointed), Done(Repointed));
    ReachesItself(end);
    DuelWrites(post);
    ReachesBefore(Duel(post, 1, 800, Done(Repointed), sure), 1, end);
    ReachesBefore(Duel(post, 0, 500, sure, sure), 0, end);
    DuelReads(post, sure, other);
    ReachesBefore(Duel(post, 0, 500, sure, other), 1, end);
    DuelReads(post, other, other);
    ReachesBefore(Duel(post, 0, 500, other, other), 0, end);
    DuelReads(post, other, Begin);
    ReachesBefore(Duel(post, 0, 500, other, Begin), 1, end);
    DuelReads(post, Begin, Begin);
    ReachesBefore(Duel(post, 0, 500, Begin, Begin), 0, end);
    var db, first := Duel(post, 0, 500, Begin, Begin).db, Worker(Job(post, 1, 800), Begin);
    assert Sys(db, [first] + [Worker(Job(post, 2, 900), Begin)]) == Duel(post, 0, 500, Begin, Begin);
    ReachesBeforeDelivery(Sys(db, [first]), Job(post, 2, 900), end);
    assert [] + [first] == [first];
    ReachesBeforeDelivery(Sys(db, []), Job(post, 1, 800), end);
  }

  /** Exactly when a reported repair is real: the row still belonged, at the moment of the write,
      to the transaction the handler had read. */
  lemma RepairRealIff(db: Db, w: Worker)
    requires ValidDb(db) && MemorySound(db, w) && w.phase.AboutToRepoint?
    ensures StepPhase(db, w, Fine) == Done(Repointed)
    ensures StepDb(db, w, Fine) != db <==> GuardMatches(db, w.phase.id, w.phase.seen.tx)
    ensures GuardMatches(db, w.phase.id, w.phase.seen.tx) ==>
              RowOf(StepDb(db, w, Fine), w.job.post) == Some(EscrowRow(w.job.post, w.job.tx, w.job.amount, Locked))
  {
  }
}
