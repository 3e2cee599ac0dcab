/**
 The derived settlement state: what the app and the dashboard show for a post's
 money, read from the transaction, the escrow row that points at it, and the
 dispute.  Here it observes what the payment handler does to the tables.
 */
module SettlementView {
  import opened Wrappers
  import opened EscrowLock
  import EscrowReplay

  datatype StateName =
    | NoPayment | AwaitingPayment | InEscrow | PayoutProcessing | SettlementFailed
    | InDispute | MoneyReleased | MoneyRefunded | SplitSettled | Inconsistent

  datatype SettlementInput = SettlementInput(
    txStatus: Option<TxStatus>,
    escrowStatus: Option<EscrowStatus>,
    failureReason: Option<string>,
    activeDispute: bool,
    latestDecisionType: Option<string>)

  datatype SettlementState = SettlementState(
    state: StateName, canArchive: bool, attentionRequired: bool, isTerminal: bool)

  /** Precedence: dispute, agreeing terminal records, payout in flight, held, no escrow row,
      and any remaining mismatch. */
  function CoreState(i: SettlementInput): StateName {
    var t, e := i.txStatus, i.escrowStatus;
    var failed := i.failureReason.Some? && i.failureReason.value != "";
    if i.activeDispute then
      if t in {Some(Released), Some(Refunded)} || e in {Some(EscrowReleased), Some(EscrowRefunded)} then Inconsistent
      else InDispute
    else if t.None? && e.None? then NoPayment
    else if t == Some(Released) && e == Some(EscrowReleased) then MoneyReleased
    else if t == Some(Refunded) && e == Some(EscrowRefunded) then
      if i.latestDecisionType == Some("PARTIAL_SPLIT") then SplitSettled else MoneyRefunded
    else if t == Some(PayoutPending) && e == Some(EscrowPayoutPending) then PayoutProcessing
    else if e == Some(Locked) then
      if t == Some(Paid) then (if failed then SettlementFailed else InEscrow)
      else if t == Some(Pending) then AwaitingPayment
      else Inconsistent
    else if e.None? then
      if t == Some(Pending) then AwaitingPayment
      else if t == Some(Failed) then NoPayment
      else Inconsistent
    else Inconsistent
  }

  predicate CanArchive(i: SettlementInput) {
    && !i.activeDispute
    && i.txStatus !in {Some(Paid), Some(PayoutPending)}
    && i.escrowStatus !in {Some(Locked), Some(EscrowPayoutPending)}
  }

  predicate IsTerminal(s: StateName) {
    s in {NoPayment, MoneyReleased, MoneyRefunded, SplitSettled}
  }

  /** A post may be archived whenever its money is shown as finished, and never while it is held,
      on its way, or frozen. */
  function DeriveSettlementState(i: SettlementInput): (r: SettlementState)
    ensures r.isTerminal ==> r.canArchive
    ensures r.canArchive ==> r.state !in {InEscrow, PayoutProcessing, SettlementFailed, InDispute}
  {
    var state := CoreState(i);
    SettlementState(state, CanArchive(i), state in {SettlementFailed, SplitSettled, Inconsistent}, IsTerminal(state))
  }

  /** Each state by the records it stands for: money is shown as moved only when the transaction and
      the escrow row say so together, as held only when both say paid and locked. */
  lemma StateIff(i: SettlementInput)
    ensures var (pair, state) := ((i.txStatus, i.escrowStatus), CoreState(i));
            var failed := i.failureReason.Some? && i.failureReason.value != "";
            var split := i.latestDecisionType == Some("PARTIAL_SPLIT");
            && (state == MoneyReleased <==> !i.activeDispute && pair == (Some(Released), Some(EscrowReleased)))
            && (state == MoneyRefunded <==>
                  !i.activeDispute && pair == (Some(Refunded), Some(EscrowRefunded)) && !split)
            && (state == SplitSettled <==>
                  !i.activeDispute && pair == (Some(Refunded), Some(EscrowRefunded)) && split)
            && (state == PayoutProcessing <==>
                  !i.activeDispute && pair == (Some(PayoutPending), Some(EscrowPayoutPending)))
            && (state == InEscrow <==> !i.activeDispute && pair == (Some(Paid), Some(Locked)) && !failed)
            && (state == SettlementFailed <==> !i.activeDispute && pair == (Some(Paid), Some(Locked)) && failed)
            && (state == AwaitingPayment <==>
                  !i.activeDispute && i.txStatus == Some(Pending) && i.escrowStatus in {None, Some(Locked)})
            && (state == NoPayment <==>
                  !i.activeDispute && i.txStatus in {None, Some(Failed)} && i.escrowStatus == None)
            && (state == InDispute <==>
                  && i.activeDispute && i.txStatus !in {Some(Released), Some(Refunded)}
                  && i.escrowStatus !in {Some(EscrowReleased), Some(EscrowRefunded)})
  {
  }

  /** The flags beside the state: finished only when no money was ever taken or both records agree on
      where it went, and in need of attention exactly when held money cannot be paid out, was split, or
      the records contradict each other. */
  lemma FlagsIff(i: SettlementInput)
    ensures var (pair, r) := ((i.txStatus, i.escrowStatus), DeriveSettlementState(i));
            var failed := i.failureReason.Some? && i.failureReason.value != "";
            && r.state == CoreState(i)
            && (r.isTerminal <==>
                  && !i.activeDispute
                  && pair in {(None, None), (Some(Failed), None), (Some(Released), Some(EscrowReleased)),
                              (Some(Refunded), Some(EscrowRefunded))})
            && (r.attentionRequired <==>
                  || r.state == Inconsistent
                  || (!i.activeDispute && pair == (Some(Paid), Some(Locked)) && failed)
                  || (!i.activeDispute && pair == (Some(Refunded), Some(EscrowRefunded))
                      && i.latestDecisionType == Some("PARTIAL_SPLIT")))
  {
    StateIff(i);
  }

  // ---------------------------------------------------------------- the view of a post

  /** What is known besides the two tables. */
  datatype Context = Context(failureReason: Option<string>, activeDispute: bool, latestDecisionType: Option<string>)

  /** The view anchored at transaction `t` of the post: its status, and the post's escrow row if
      that row points at `t`. */
  ghost function InputFor(db: Db, post: PostId, t: TxId, c: Context): SettlementInput {
    var row := RowOf(db, post);
    SettlementInput(
      if t in db.txs then Some(db.txs[t]) else None,
      if row.Some? && row.value.tx == t then Some(row.value.status) else None,
      c.failureReason, c.activeDispute, c.latestDecisionType)
  }

  ghost function View(db: Db, post: PostId, t: TxId, c: Context): StateName {
    CoreState(InputFor(db, post, t, c))
  }

  /** What the views that depend on more than the two records are shown for. */
  lemma ViewIff(db: Db, post: PostId, t: TxId, c: Context)
    ensures var (row, view) := (RowOf(db, post), View(db, post, t, c));
            var (paid, refunded) := (t in db.txs && db.txs[t] == Paid, t in db.txs && db.txs[t] == Refunded);
            var mine := row.Some? && row.value.tx == t;
            && (view == SplitSettled <==>
                  !c.activeDispute && refunded && mine && row.value.status == EscrowRefunded
                  && c.latestDecisionType == Some("PARTIAL_SPLIT"))
            && (view == SettlementFailed <==>
                  !c.activeDispute && paid && mine && row.value.status == Locked
                  && c.failureReason.Some? && c.failureReason.value != "")
  {
    StateIff(InputFor(db, post, t, c));
  }

  /** The post's row is missing, or is unsettled under another, dead transaction. */
  ghost predicate NeedsRepair(db: Db, job: Job) {
    var row := RowOf(db, job.post);
    row.Some? ==> row.value.tx != job.tx && !Settled(row.value.status) && Dead(db, row.value.tx)
  }

  lemma HandlerOnRow(db: Db, job: Job)
    requires ValidDb(db) && job.tx < db.issuedTxs
    ensures var db' := Lock(db, job, CLEAN).0;
            && db'.txs == db.txs
            && RowOf(db', job.post) ==
               if NeedsRepair(db, job) then Some(EscrowRow(job.post, job.tx, job.amount, Locked))
               else RowOf(db, job.post)
  {
    EscrowReplay.LockOnRows(db, job, CLEAN, job.post);
  }

  /** For a paid transaction with no dispute and no failure reason, the handler turns exactly the
      views that need repair from inconsistent into in-escrow and leaves every other as it was. */
  lemma PaidRepair(db: Db, job: Job, decision: Option<string>)
    requires ValidDb(db) && job.tx in db.txs && db.txs[job.tx] == Paid
    ensures var c := Context(None, false, decision);
            var before, after := View(db, job.post, job.tx, c), View(Lock(db, job, CLEAN).0, job.post, job.tx, c);
            if NeedsRepair(db, job) then before == Inconsistent && after == InEscrow else after == before
  {
    HandlerOnRow(db, job);
  }

  /** Seen from any other transaction of the post, the only view that changes is the one of the
      dead transaction that lost the row: from inconsistent to no payment. */
  lemma OtherViews(db: Db, job: Job, t: TxId, c: Context)
    requires ValidDb(db) && job.tx < db.issuedTxs && t != job.tx
    ensures var before, after := View(db, job.post, t, c), View(Lock(db, job, CLEAN).0, job.post, t, c);
            var lostRow := NeedsRepair(db, job) && RowOf(db, job.post).Some? && RowOf(db, job.post).value.tx == t;
            if lostRow && !c.activeDispute then before == Inconsistent && after == NoPayment else after == before
  {
    HandlerOnRow(db, job);
  }

  /** A finished view survives the handler exactly unless the event belongs to a dead transaction
      and finds a row to take: its "no payment" then becomes "inconsistent". */
  lemma TerminalViewLostIff(db: Db, job: Job, t: TxId, c: Context)
    requires ValidDb(db) && job.tx < db.issuedTxs && IsTerminal(View(db, job.post, t, c))
    ensures var after := View(Lock(db, job, CLEAN).0, job.post, t, c);
            && (after != View(db, job.post, t, c) <==> t == job.tx && Dead(db, t) && NeedsRepair(db, job))
            && (after != View(db, job.post, t, c) ==> after == Inconsistent)
  {
    HandlerOnRow(db, job);
  }

  // ---------------------------------------------------------------- the archive gate

  predicate HeldTx(s: TxStatus) {
    s == Paid || s == TxStatus.PayoutPending
  }

  predicate HeldEscrow(s: EscrowStatus) {
    s == Locked || s == EscrowPayoutPending
  }

  /** The post's transactions, in order of creation, are rows of the table. */
  ghost predicate Attempts(db: Db, txs: seq<TxId>) {
    forall k :: 0 <= k < |txs| ==> txs[k] in db.txs
  }

  /** What `archivePost` itself decides by: every transaction of the post and its escrow row. */
  ghost predicate GateAllows(db: Db, post: PostId, txs: seq<TxId>, activeDispute: bool)
    requires Attempts(db, txs)
  {
    && !activeDispute
    && (forall k :: 0 <= k < |txs| ==> !HeldTx(db.txs[txs[k]]))
    && (RowOf(db, post).Some? ==> !HeldEscrow(RowOf(db, post).value.status))
  }

  /** The input it derives the advice from: the latest transaction, and the row that points at it. */
  ghost function LatestInput(db: Db, post: PostId, txs: seq<TxId>, c: Context): SettlementInput {
    if txs == [] then SettlementInput(None, None, c.failureReason, c.activeDispute, c.latestDecisionType)
    else InputFor(db, post, txs[|txs| - 1], c)
  }

  /** Money of the post is held where the latest transaction does not show it: by an older
      transaction, or by an escrow row that does not point at the latest one. */
  ghost predicate HeldElsewhere(db: Db, post: PostId, txs: seq<TxId>)
    requires Attempts(db, txs)
  {
    || (exists k :: 0 <= k < |txs| - 1 && HeldTx(db.txs[txs[k]]))
    || (&& RowOf(db, post).Some? && HeldEscrow(RowOf(db, post).value.status)
        && (txs == [] || RowOf(db, post).value.tx != txs[|txs| - 1]))
  }

  /** The gate allows exactly what the advice allows with no money held elsewhere. */
  lemma AdviceMatchesGateIff(db: Db, post: PostId, txs: seq<TxId>, c: Context)
    requires Attempts(db, txs)
    ensures GateAllows(db, post, txs, c.activeDispute) <==>
            CanArchive(LatestInput(db, post, txs, c)) && !HeldElsewhere(db, post, txs)
  {
    var n := |txs| - 1;
    if txs != [] && !HeldElsewhere(db, post, txs) {
      assert forall k :: 0 <= k < n ==> !HeldTx(db.txs[txs[k]]);
    }
  }
}
