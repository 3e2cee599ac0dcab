/**
 `payment.success` handled again and again: first deliveries, retries and manual
 replays of any attempt for one post, one at a time and in any order.
 */
module EscrowReplay {
  import opened Wrappers
  import opened EscrowLock

  datatype Delivery = Delivery(job: Job, faults: Faults)

  ghost function HandleAll(db: Db, ds: seq<Delivery>): Db
    decreases |ds|
  {
    if ds == [] then db else HandleAll(Lock(db, ds[0].job, ds[0].faults).0, ds[1..])
  }

  /** The handler as it acts on the post's one row. */
  function RowAfter(db: Db, row: Option<EscrowRow>, job: Job, faults: Faults): Option<EscrowRow> {
    var mine := Some(EscrowRow(job.post, job.tx, job.amount, Locked));
    if faults.read != Fine || faults.write == Error then row
    else if row.None? then mine
    else if row.value.tx == job.tx || Settled(row.value.status) then row
    else if LooksDead(db, row.value.tx, faults.incumbent) then mine
    else row
  }

  lemma InsertOnRows(db: Db, row: EscrowRow, other: PostId)
    requires ValidDb(db) && row.tx < db.issuedTxs && !HasRow(db, row.post)
    ensures var db' := InsertRow(db, row);
            && ValidDb(db') && RowOf(db', row.post) == Some(row)
            && (other != row.post ==> RowOf(db', other) == RowOf(db, other))
  {
    var db', id := InsertRow(db, row), |db.rowPosts|;
    assert forall k :: k in db.escrow ==> db.escrow[k].post != row.post;
    assert db'.escrow[id] == row && HasRow(db', row.post);
    if other != row.post && HasRow(db, other) {
      assert db'.escrow[RowIdOf(db, other)].post == other;
    }
  }

  lemma RepointOnRows(db: Db, id: RowId, owner: TxId, tx: TxId, amount: int, other: PostId)
    requires ValidDb(db) && tx < db.issuedTxs && GuardMatches(db, id, owner)
    ensures var db', post := RepointRow(db, id, owner, tx, amount), db.escrow[id].post;
            && ValidDb(db') && RowOf(db', post) == Some(EscrowRow(post, tx, amount, Locked))
            && (other != post ==> RowOf(db', other) == RowOf(db, other))
  {
    var db', post := RepointRow(db, id, owner, tx, amount), db.escrow[id].post;
    assert id in db'.escrow && db'.escrow[id].post == post && HasRow(db', post);
    if other != post && HasRow(db, other) {
      assert db'.escrow[RowIdOf(db, other)].post == other;
    }
  }

  /** One run changes the post's row as `RowAfter` says, and nothing else. */
  lemma LockOnRows(db: Db, job: Job, faults: Faults, other: PostId)
    requires ValidDb(db) && job.tx < db.issuedTxs
    ensures var db' := Lock(db, job, faults).0;
            && ValidDb(db') && db'.txs == db.txs && db'.issuedTxs == db.issuedTxs
            && RowOf(db', job.post) == RowAfter(db, RowOf(db, job.post), job, faults)
            && (other != job.post ==> RowOf(db', other) == RowOf(db, other))
  {
    if Lock(db, job, faults).0 == db {
    } else if HasRow(db, job.post) {
      var id := RowIdOf(db, job.post);
      RepointOnRows(db, id, db.escrow[id].tx, job.tx, job.amount, other);
    } else {
      InsertOnRows(db, EscrowRow(job.post, job.tx, job.amount, Locked), other);
    }
  }

  // ---------------------------------------------------------------- one live payment

  /** `g` is the one transaction of the post that has not failed. */
  ghost predicate SoleLive(db: Db, post: PostId, g: TxId) {
    && !Dead(db, g)
    && (forall id :: id in db.escrow && db.escrow[id].post == post ==>
         db.escrow[id].tx == g || Dead(db, db.escrow[id].tx))
  }

  /** An event of the post: the live payment's, or a failed attempt's whose run could read the
      incumbent transaction. */
  predicate EventOf(db: Db, post: PostId, g: TxId, d: Delivery) {
    && d.job.post == post && d.job.tx < db.issuedTxs
    && (d.job.tx != g ==> Dead(db, d.job.tx) && d.faults.incumbent == Fine)
  }

  ghost predicate EventsOf(db: Db, post: PostId, g: TxId, ds: seq<Delivery>) {
    forall k :: 0 <= k < |ds| ==> EventOf(db, post, g, ds[k])
  }

  /** The live payment's handler ran to its end: its read was answered and its write, if any, landed. */
  predicate Ran(d: Delivery, g: TxId) {
    d.job.tx == g && d.faults.read == Fine && d.faults.write != Error
  }

  ghost predicate OwnedBy(db: Db, post: PostId, g: TxId) {
    RowOf(db, post).Some? && RowOf(db, post).value.tx == g
  }

  ghost predicate SettledElsewhere(db: Db, post: PostId, g: TxId) {
    RowOf(db, post).Some? && RowOf(db, post).value.tx != g && Settled(RowOf(db, post).value.status)
  }

  ghost predicate Situation(db: Db, post: PostId, g: TxId, ds: seq<Delivery>) {
    ValidDb(db) && SoleLive(db, post, g) && EventsOf(db, post, g, ds)
  }

  lemma SituationStep(db: Db, post: PostId, g: TxId, ds: seq<Delivery>)
    requires Situation(db, post, g, ds) && ds != []
    ensures Situation(Lock(db, ds[0].job, ds[0].faults).0, post, g, ds[1..])
  {
    var db' := Lock(db, ds[0].job, ds[0].faults).0;
    LockOnRows(db, ds[0].job, ds[0].faults, post);
    assert EventOf(db, post, g, ds[0]);
    forall id | id in db'.escrow && db'.escrow[id].post == post
      ensures db'.escrow[id].tx == g || Dead(db', db'.escrow[id].tx)
    {
      assert HasRow(db', post) && id == RowIdOf(db', post);
      if HasRow(db, post) {
        assert RowIdOf(db, post) in db.escrow;
      }
    }
    forall k | 0 <= k < |ds[1..]| ensures EventOf(db', post, g, ds[1..][k]) {
      assert EventOf(db, post, g, ds[k + 1]);
    }
  }

  /** Once the live payment owns the row, or another transaction has settled it, no delivery
      moves it again. */
  lemma {:induction false} NeverMoved(db: Db, ds: seq<Delivery>, post: PostId, g: TxId)
    requires Situation(db, post, g, ds)
    requires OwnedBy(db, post, g) || SettledElsewhere(db, post, g)
    ensures RowOf(HandleAll(db, ds), post) == RowOf(db, post)
    decreases |ds|
  {
    if ds != [] {
      LockOnRows(db, ds[0].job, ds[0].faults, post);
      SituationStep(db, post, g, ds);
      assert EventOf(db, post, g, ds[0]);
      NeverMoved(Lock(db, ds[0].job, ds[0].faults).0, ds[1..], post, g);
    }
  }

  /** Replays converge: whatever came before and whatever comes after, once the live payment's
      handler has run the row is its own — exactly if the row was not settled under another
      transaction to begin with. */
  lemma {:induction false} ReplaysConverge(db: Db, ds: seq<Delivery>, post: PostId, g: TxId, k: nat)
    requires Situation(db, post, g, ds) && k < |ds| && Ran(ds[k], g)
    ensures OwnedBy(HandleAll(db, ds), post, g) <==> !SettledElsewhere(db, post, g)
    decreases |ds|
  {
    var db' := Lock(db, ds[0].job, ds[0].faults).0;
    LockOnRows(db, ds[0].job, ds[0].faults, post);
    SituationStep(db, post, g, ds);
    assert EventOf(db, post, g, ds[0]);
    if SettledElsewhere(db, post, g) {
      NeverMoved(db, ds, post, g);
    } else if k == 0 {
      if RowOf(db, post).Some? {
        RowOwner(db, post, g);
      }
      NeverMoved(db', ds[1..], post, g);
    } else {
      ReplaysConverge(db', ds[1..], post, g, k - 1);
    }
  }

  lemma RowOwner(db: Db, post: PostId, g: TxId)
    requires SoleLive(db, post, g) && RowOf(db, post).Some?
    ensures RowOf(db, post).value.tx == g || Dead(db, RowOf(db, post).value.tx)
  {
  }

  /** The row the deliveries end in, from the starting row alone. */
  ghost function EndRow(db: Db, post: PostId, g: TxId, amount: int): Option<EscrowRow> {
    if OwnedBy(db, post, g) || SettledElsewhere(db, post, g) then RowOf(db, post)
    else Some(EscrowRow(post, g, amount, Locked))
  }

  ghost predicate SameAmount(ds: seq<Delivery>, g: TxId, amount: int) {
    forall k :: 0 <= k < |ds| && ds[k].job.tx == g ==> ds[k].job.amount == amount
  }

  lemma {:induction false} FinalRow(db: Db, ds: seq<Delivery>, post: PostId, g: TxId, amount: int, k: nat)
    requires Situation(db, post, g, ds) && k < |ds| && Ran(ds[k], g) && SameAmount(ds, g, amount)
    ensures RowOf(HandleAll(db, ds), post) == EndRow(db, post, g, amount)
    decreases |ds|
  {
    if OwnedBy(db, post, g) || SettledElsewhere(db, post, g) {
      NeverMoved(db, ds, post, g);
    } else {
      var db' := Lock(db, ds[0].job, ds[0].faults).0;
      LockOnRows(db, ds[0].job, ds[0].faults, post);
      SituationStep(db, post, g, ds);
      assert EventOf(db, post, g, ds[0]);
      if RowOf(db, post).Some? {
        RowOwner(db, post, g);
      }
      if OwnedBy(db', post, g) {
        assert ds[0].job.amount == amount;
        NeverMoved(db', ds[1..], post, g);
      } else {
        assert k > 0;
        assert ds[1..][k - 1] == ds[k];
        assert SameAmount(ds[1..], g, amount) by {
          assert forall j :: 0 <= j < |ds[1..]| ==> ds[1..][j] == ds[j + 1];
        }
        FinalRow(db', ds[1..], post, g, amount, k - 1);
      }
    }
  }

  /** A history of the post in which the live payment's handler ran to its end. */
  ghost predicate History(db: Db, ds: seq<Delivery>, post: PostId, g: TxId, amount: int) {
    Situation(db, post, g, ds) && SameAmount(ds, g, amount) && exists k :: 0 <= k < |ds| && Ran(ds[k], g)
  }

  /** Confluence: any two such histories end in the same row. */
  lemma Confluence(db: Db, ds: seq<Delivery>, ds': seq<Delivery>, post: PostId, g: TxId, amount: int)
    requires History(db, ds, post, g, amount) && History(db, ds', post, g, amount)
    ensures RowOf(HandleAll(db, ds), post) == RowOf(HandleAll(db, ds'), post)
  {
    var k :| 0 <= k < |ds| && Ran(ds[k], g);
    var k' :| 0 <= k' < |ds'| && Ran(ds'[k'], g);
    FinalRow(db, ds, post, g, amount, k);
    FinalRow(db, ds', post, g, amount, k');
  }
}
