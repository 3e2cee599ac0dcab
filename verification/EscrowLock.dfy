/**
 Escrow ownership under at-least-once delivery of `payment.success`.

 `lockEscrowForPayment` talks to the database three times: it reads the post's
 escrow row, reads the transaction that owns it, and then writes under a guard.
 This module holds the tables and those database steps as values, the handler as
 a state machine over the steps, and the handler run on its own (`Lock`).
 */
module EscrowLock {
  import opened Wrappers

  type PostId = string
  /** Transactions and rows are named by the order in which their ids were issued. */
  type TxId = nat
  type RowId = nat

  datatype TxStatus = Pending | Paid | Failed | PayoutPending | Released | Disputed | Refunded

  datatype EscrowStatus =
    | Locked
    | EscrowPayoutPending
    | EscrowReleased
    | EscrowDisputed
    | EscrowRefunded

  datatype EscrowRow = EscrowRow(post: PostId, tx: TxId, amount: int, status: EscrowStatus)

  /** The two tables.  `rowPosts[id]` is the post of every row id ever issued and
      `issuedTxs` the number of transaction ids ever issued: ids are never reused. */
  datatype Db = Db(
    escrow: map<RowId, EscrowRow>,
    txs: map<TxId, TxStatus>,
    rowPosts: seq<PostId>,
    issuedTxs: nat)

  /** The escrow states in which the money has already moved. */
  predicate Settled(s: EscrowStatus) {
    s == EscrowReleased || s == EscrowRefunded
  }

  /** The transaction failed, or its row is missing. */
  predicate Dead(db: Db, t: TxId) {
    t !in db.txs || db.txs[t] == Failed
  }

  /** UNIQUE (post_id), and every id in use was issued. */
  ghost predicate ValidDb(db: Db) {
    && (forall i, j :: i in db.escrow && j in db.escrow && db.escrow[i].post == db.escrow[j].post ==> i == j)
    && (forall i :: i in db.escrow ==>
          i < |db.rowPosts| && db.rowPosts[i] == db.escrow[i].post && db.escrow[i].tx < db.issuedTxs)
    && (forall t :: t in db.txs ==> t < db.issuedTxs)
  }

  ghost predicate HasRow(db: Db, post: PostId) {
    exists id :: id in db.escrow && db.escrow[id].post == post
  }

  /** `select … from escrow where post_id = post`, at most one row. */
  ghost function RowIdOf(db: Db, post: PostId): (id: RowId)
    requires HasRow(db, post)
    ensures id in db.escrow && db.escrow[id].post == post
  {
    var id :| id in db.escrow && db.escrow[id].post == post; id
  }

  ghost function RowOf(db: Db, post: PostId): Option<EscrowRow> {
    if HasRow(db, post) then Some(db.escrow[RowIdOf(db, post)]) else None
  }

  // ---------------------------------------------------------------- writes

  /** `insert into escrow`, which the caller does only when the post has no row. */
  function InsertRow(db: Db, row: EscrowRow): Db {
    db.(escrow := db.escrow[|db.rowPosts| := row], rowPosts := db.rowPosts + [row.post])
  }

  predicate GuardMatches(db: Db, id: RowId, owner: TxId) {
    id in db.escrow && db.escrow[id].tx == owner
  }

  /** `update escrow set … where id = id and transaction_id = owner`: no status in the guard. */
  function RepointRow(db: Db, id: RowId, owner: TxId, tx: TxId, amount: int): Db {
    if GuardMatches(db, id, owner) then
      db.(escrow := db.escrow[id := db.escrow[id].(tx := tx, amount := amount, status := Locked)])
    else
      db
  }

  // ---------------------------------------------------------------- one handler, step by step

  datatype Job = Job(post: PostId, tx: TxId, amount: int)

  datatype Outcome = Inserted | AlreadyOurs | RefusedSettled | RefusedLive | Repointed | Threw

  datatype Phase =
    | Begin
    /** The read found no row for the post. */
    | SawNothing
    /** The read found `seen`, unsettled and someone else's; its owner is not yet looked up. */
    | SawOther(id: RowId, seen: EscrowRow)
    /** The owner looked dead; the guarded write comes next. */
    | AboutToRepoint(id: RowId, seen: EscrowRow)
    | Done(outcome: Outcome)

  datatype Worker = Worker(job: Job, phase: Phase)

  /** The owner's status as the handler reads it.  The error of this read is not looked at, so
      a failed read and a missing transaction are the same `null`. */
  predicate LooksDead(db: Db, owner: TxId, fault: Fault) {
    fault != Fine || Dead(db, owner)
  }

  ghost function StepPhase(db: Db, w: Worker, fault: Fault): Phase
    requires !w.phase.Done?
  {
    match w.phase
    case Begin =>
      if fault != Fine then Done(Threw)
      else if !HasRow(db, w.job.post) then SawNothing
      else
        var id := RowIdOf(db, w.job.post);
        var row := db.escrow[id];
        if row.tx == w.job.tx then Done(AlreadyOurs)
        else if Settled(row.status) then Done(RefusedSettled)
        else SawOther(id, row)
    case SawNothing =>
      if fault != Fine || HasRow(db, w.job.post) then Done(Threw) else Done(Inserted)
    case SawOther(id, seen) =>
      if LooksDead(db, seen.tx, fault) then AboutToRepoint(id, seen) else Done(RefusedLive)
    case AboutToRepoint(_, _) =>
      Done(if fault != Fine then Threw else Repointed)
  }

  ghost function StepDb(db: Db, w: Worker, fault: Fault): Db
    requires !w.phase.Done?
  {
    match w.phase
    case SawNothing =>
      if fault == Error || HasRow(db, w.job.post) then db
      else InsertRow(db, EscrowRow(w.job.post, w.job.tx, w.job.amount, Locked))
    case AboutToRepoint(id, seen) =>
      if fault == Error then db else RepointRow(db, id, seen.tx, w.job.tx, w.job.amount)
    case _ => db
  }

  // ---------------------------------------------------------------- the handler run on its own

  datatype Faults = Faults(read: Fault, incumbent: Fault, write: Fault)

  const CLEAN := Faults(Fine, Fine, Fine)

  /** One uninterrupted run: `seen` is what the first read returned. */
  function LockSeeing(db: Db, job: Job, faults: Faults, seen: Option<(RowId, EscrowRow)>): (r: (Db, Outcome)) {
    if faults.read != Fine then (db, Threw)
    else if seen.None? then
      if faults.write == Error then (db, Threw)
      else
        (InsertRow(db, EscrowRow(job.post, job.tx, job.amount, Locked)),
         if faults.write == Fine then Inserted else Threw)
    else
      var (id, row) := seen.value;
      if row.tx == job.tx then (db, AlreadyOurs)
      else if Settled(row.status) then (db, RefusedSettled)
      else if !LooksDead(db, row.tx, faults.incumbent) then (db, RefusedLive)
      else if faults.write == Error then (db, Threw)
      else
        (RepointRow(db, id, row.tx, job.tx, job.amount),
         if faults.write == Fine then Repointed else Threw)
  }

  ghost function Lookup(db: Db, post: PostId): Option<(RowId, EscrowRow)> {
    if HasRow(db, post) then Some((RowIdOf(db, post), db.escrow[RowIdOf(db, post)])) else None
  }

  ghost function Lock(db: Db, job: Job, faults: Faults): (Db, Outcome) {
    LockSeeing(db, job, faults, Lookup(db, job.post))
  }

  /** Runs one worker to the end with nobody else moving: at most three database steps. */
  ghost function RunAlone(db: Db, w: Worker, faults: Faults): (Db, Phase)
    decreases match w.phase case Begin => 3 case SawOther(_, _) => 2 case Done(_) => 0 case _ => 1
  {
    if w.phase.Done? then (db, w.phase)
    else
      var fault := match w.phase
        case Begin => faults.read
        case SawOther(_, _) => faults.incumbent
        case _ => faults.write;
      RunAlone(StepDb(db, w, fault), Worker(w.job, StepPhase(db, w, fault)), faults)
  }

  /** The step-by-step handler, left alone, is the handler read top to bottom. */
  lemma LockIsRunAlone(db: Db, job: Job, faults: Faults)
    ensures RunAlone(db, Worker(job, Begin), faults) == (Lock(db, job, faults).0, Done(Lock(db, job, faults).1))
  {
    var p1 := StepPhase(db, Worker(job, Begin), faults.read);
    assert StepDb(db, Worker(job, Begin), faults.read) == db;
    if !p1.Done? {
      var f2 := if p1.SawOther? then faults.incumbent else faults.write;
      var w1 := Worker(job, p1);
      var db2, p2 := StepDb(db, w1, f2), StepPhase(db, w1, f2);
      assert RunAlone(db, w1, faults) == RunAlone(db2, Worker(job, p2), faults);
      if !p2.Done? {
        var w2 := Worker(job, p2);
        assert RunAlone(db2, w2, faults)
            == RunAlone(StepDb(db2, w2, faults.write), Worker(job, StepPhase(db2, w2, faults.write)), faults);
      }
    }
  }

  /** How a run ends, outcome by outcome: it throws exactly when its read failed or a write it came to
      was not answered, and it takes a row only unsettled from an owner it takes for dead. */
  lemma OutcomeIff(db: Db, job: Job, faults: Faults)
    ensures var (row, outcome) := (RowOf(db, job.post), Lock(db, job, faults).1);
            var others := row.Some? && row.value.tx != job.tx;
            var settled := others && row.value.status in {EscrowReleased, EscrowRefunded};
            var dead :=
              others && (faults.incumbent != Fine || row.value.tx !in db.txs || db.txs[row.value.tx] == Failed);
            var writes := faults.read == Fine && (row.None? || (others && !settled && dead));
            && (outcome == Threw <==> faults.read != Fine || (writes && faults.write != Fine))
            && (outcome == Inserted <==> writes && row.None? && faults.write == Fine)
            && (outcome == Repointed <==> writes && row.Some? && faults.write == Fine)
            && (outcome == AlreadyOurs <==> faults.read == Fine && row.Some? && !others)
            && (outcome == RefusedSettled <==> faults.read == Fine && settled)
            && (outcome == RefusedLive <==> faults.read == Fine && others && !settled && !dead)
  {
  }

  /** What a run leaves behind: a table with the post's row at this transaction if it came to a write
      that landed, answered or not, and otherwise the table it found. */
  lemma EffectIff(db: Db, job: Job, faults: Faults)
    requires ValidDb(db)
    ensures var (row, db') := (RowOf(db, job.post), Lock(db, job, faults).0);
            var others := row.Some? && row.value.tx != job.tx;
            var dead :=
              others && (faults.incumbent != Fine || row.value.tx !in db.txs || db.txs[row.value.tx] == Failed);
            var writes :=
              && faults.read == Fine && faults.write != Error
              && (row.None? || (dead && row.value.status !in {EscrowReleased, EscrowRefunded}));
            && db'.txs == db.txs
            && (!writes ==> db' == db)
            && (writes ==>
                  exists id :: id in db'.escrow && db'.escrow[id] == EscrowRow(job.post, job.tx, job.amount, Locked)
                               && db'.escrow - {id} == db.escrow - {id})
  {
    var db' := Lock(db, job, faults).0;
    if db' != db {
      var id := if HasRow(db, job.post) then RowIdOf(db, job.post) else |db.rowPosts|;
      assert db'.escrow - {id} == db.escrow - {id};
    }
  }
}
