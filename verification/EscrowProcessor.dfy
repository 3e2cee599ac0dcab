/**
 The handler in the backend's own form: the tables as an object updated by
 database calls, and the handler as the sequence of calls it makes.
 */
module EscrowProcessor {
  import opened Wrappers
  import opened EscrowLock

  /** The `escrow` and `transactions` tables behind the database client. */
  class Database {
    var escrow: map<RowId, EscrowRow>
    var txs: map<TxId, TxStatus>
    var rowPosts: seq<PostId>
    var issuedTxs: nat

    function Tables(): Db reads this {
      Db(escrow, txs, rowPosts, issuedTxs)
    }

    constructor ()
      ensures Tables() == Db(map[], map[], [], 0) && ValidDb(Tables())
    {
      escrow, txs, rowPosts, issuedTxs := map[], map[], [], 0;
    }

    /** `select … where post_id = post` with `maybeSingle`. */
    method SelectByPost(post: PostId, fault: Fault) returns (data: Option<(RowId, EscrowRow)>, error: bool)
      requires ValidDb(Tables())
      ensures error == (fault != Fine)
      ensures data == if error then None else Lookup(Tables(), post)
    {
      data, error := None, fault != Fine;
      if !error {
        if id :| id in escrow && escrow[id].post == post {
          assert HasRow(Tables(), post);
          data := Some((id, escrow[id]));
        }
      }
    }

    /** The unique constraint on `post_id` refuses a second row. */
    method Insert(row: EscrowRow, fault: Fault) returns (error: bool)
      requires ValidDb(Tables()) && row.tx < issuedTxs
      modifies this
      ensures error == (fault != Fine || old(HasRow(Tables(), row.post)))
      ensures Tables() == if fault == Error || old(HasRow(Tables(), row.post)) then old(Tables())
                          else InsertRow(old(Tables()), row)
      ensures ValidDb(Tables())
    {
      error := fault != Fine;
      if fault == Error {
        return;
      }
      if id :| id in escrow && escrow[id].post == row.post {
        assert HasRow(Tables(), row.post);
        return true;
      }
      escrow := escrow[|rowPosts| := row];
      rowPosts := rowPosts + [row.post];
    }

    /** A failed read yields no data, exactly like a missing transaction. */
    method SelectTxStatus(t: TxId, fault: Fault) returns (data: Option<TxStatus>)
      ensures data == if fault == Fine && t in txs then Some(txs[t]) else None
    {
      data := if fault == Fine && t in txs then Some(txs[t]) else None;
    }

    /** `update … where id = id and transaction_id = owner`; zero matches is no error. */
    method UpdateWhereOwner(id: RowId, owner: TxId, tx: TxId, amount: int, fault: Fault) returns (error: bool)
      requires ValidDb(Tables()) && tx < issuedTxs
      modifies `escrow
      ensures error == (fault != Fine)
      ensures Tables() == if fault == Error then old(Tables()) else RepointRow(old(Tables()), id, owner, tx, amount)
      ensures ValidDb(Tables())
    {
      error := fault != Fine;
      if fault != Error && id in escrow && escrow[id].tx == owner {
        escrow := escrow[id := escrow[id].(tx := tx, amount := amount, status := Locked)];
      }
    }
  }

  class EventProcessorService {
    const database: Database

    constructor (database: Database)
      ensures this.database == database
    {
      this.database := database;
    }

    /** Ensures the post's escrow row exists and belongs to this transaction. */
    method LockEscrowForPayment(job: Job, faults: Faults) returns (outcome: Outcome)
      requires ValidDb(database.Tables()) && job.tx < database.issuedTxs
      modifies database
      ensures database.Tables() == Lock(old(database.Tables()), job, faults).0
      ensures outcome == Lock(old(database.Tables()), job, faults).1
      ensures ValidDb(database.Tables())
    {
      var existing, readError := database.SelectByPost(job.post, faults.read);
      if readError {
        return Threw;
      }
      if existing.None? {
        var error := database.Insert(EscrowRow(job.post, job.tx, job.amount, Locked), faults.write);
        return if error then Threw else Inserted;
      }
      var (id, row) := existing.value;
      if row.tx == job.tx {
        return AlreadyOurs;
      }
      if row.status == EscrowReleased || row.status == EscrowRefunded {
        return RefusedSettled;
      }
      var incumbent := database.SelectTxStatus(row.tx, faults.incumbent);
      if incumbent.Some? && incumbent.value != Failed {
        return RefusedLive;
      }
      var error := database.UpdateWhereOwner(id, row.tx, job.tx, job.amount, faults.write);
      return if error then Threw else Repointed;
    }
  }
}
