/**
 Payout dispatch: `job.approved` and `payment.payout_requested` may be delivered,
 retried and replayed any number of times, and each delivery may call the payout
 service for the post's newest eligible transaction.

 A delivery checks, then the payout service picks the transaction it pays, sends the
 money, and records that it was sent.  This module has these steps, and deliveries
 that run one after another; `PayoutInterleaving` lets calls overlap.
 */
module PayoutDispatch {
  import opened Wrappers
  import opened EscrowLock

  /** One transaction of the post, and what happened to it: how often it became releasable, how
      often it was picked while another call was still at it, how often money was sent for it,
      and how many of those sends were never written down. */
  datatype PayoutTx = PayoutTx(status: TxStatus, entered: nat, joined: nat, dispatched: nat, unrecorded: nat)

  const NEW_TX := PayoutTx(Pending, 0, 0, 0, 0)

  const ELIGIBLE := {Paid, PayoutPending, Released}

  /** The states the payout service releases from; an arbitration ruling also releases a frozen one. */
  function Sources(fromDisputed: bool): set<TxStatus> {
    if fromDisputed then {Paid, TxStatus.Disputed} else {Paid}
  }

  predicate Releasable(s: TxStatus) {
    s == Paid || s == TxStatus.Disputed
  }

  /** The newest transaction in one of the states, among the first `n` in order of creation. */
  function Newest(txs: seq<PayoutTx>, n: nat, states: set<TxStatus>): (r: Option<nat>)
    requires n <= |txs|
    ensures r.Some? ==> r.value < n && txs[r.value].status in states
    ensures forall i :: (if r.Some? then r.value + 1 else 0) <= i < n ==> txs[i].status !in states
  {
    if n == 0 then None
    else if txs[n - 1].status in states then Some(n - 1)
    else Newest(txs, n - 1, states)
  }

  // ---------------------------------------------------------------- the steps of a call

  datatype Phase =
    /** A delivered event, before its look at the newest eligible transaction. */
    | Checking
    /** The payout service is called: by a delivery, a finance repair, or an arbitration ruling. */
    | Releasing(fromDisputed: bool)
    | Picked(t: nat)
    | Sent(t: nat)
    /** `paid` is the transaction money was sent for. */
    | Finished(threw: bool, paid: Option<nat>)

  datatype Step = Step(txs: seq<PayoutTx>, phase: Phase)

  /** The call has picked the transaction and has not finished with it. */
  predicate Holds(p: Phase, t: nat) {
    p == Picked(t) || p == Sent(t)
  }

  /** The look at the newest eligible transaction; a failed read finds none. */
  function Check(txs: seq<PayoutTx>, fault: Fault): Phase {
    var t := Newest(txs, |txs|, ELIGIBLE);
    if fault == Fine && t.Some? && txs[t.value].status == Paid then Releasing(false) else Finished(false, None)
  }

  /** `busy` tells whether another call holds the transaction picked. */
  function Pick(txs: seq<PayoutTx>, fromDisputed: bool, fault: Fault, busy: nat -> bool): Step {
    var t := Newest(txs, |txs|, Sources(fromDisputed));
    if fault != Fine || t.None? then Step(txs, Finished(true, None))
    else
      var joined := txs[t.value].joined + if busy(t.value) then 1 else 0;
      Step(txs[t.value := txs[t.value].(joined := joined)], Picked(t.value))
  }

  /** The transfer: refused, sent, or sent although the call failed. */
  function Send(txs: seq<PayoutTx>, t: nat, fault: Fault): Step
    requires t < |txs|
  {
    var tx := txs[t];
    match fault
    case Fine => Step(txs[t := tx.(dispatched := tx.dispatched + 1)], Sent(t))
    case Error => Step(txs, Finished(true, None))
    case ErrorAfterCommit =>
      Step(txs[t := tx.(dispatched := tx.dispatched + 1, unrecorded := tx.unrecorded + 1)], Finished(true, Some(t)))
  }

  /** The write that marks the transaction, whatever its state is by now. */
  function Record(txs: seq<PayoutTx>, t: nat, fault: Fault): Step
    requires t < |txs|
  {
    var tx := txs[t];
    if fault == Error then Step(txs[t := tx.(unrecorded := tx.unrecorded + 1)], Finished(true, Some(t)))
    else Step(txs[t := tx.(status := PayoutPending)], Finished(fault != Fine, Some(t)))
  }

  // ---------------------------------------------------------------- one delivery on its own

  datatype Faults = Faults(check: Fault, pick: Fault, send: Fault, record: Fault)

  const NO_FAULT := Faults.Faults(Fine, Fine, Fine, Fine)

  /** From the transfer on. */
  function Transfer(txs: seq<PayoutTx>, t: nat, f: Faults): Step
    requires t < |txs|
  {
    var sent := Send(txs, t, f.send);
    if sent.phase.Finished? then sent else Record(sent.txs, t, f.record)
  }

  /** The payout service, when nothing overlaps. */
  function Release(txs: seq<PayoutTx>, f: Faults): Step {
    var picked := Pick(txs, false, f.pick, (_: nat) => false);
    if picked.phase.Finished? then picked else Transfer(picked.txs, picked.phase.t, f)
  }

  /** A delivery that nothing overlaps: it runs through its steps. */
  function Deliver(txs: seq<PayoutTx>, f: Faults): Step {
    var checked := Check(txs, f.check);
    if checked.Finished? then Step(txs, checked) else Release(txs, f)
  }

  /** What a delivery that gets to the payout service does. */
  datatype PayoutCall = Recorded | Refused | SentUnrecorded

  function CallOf(f: Faults): PayoutCall {
    if f.check != Fine || f.pick != Fine || f.send == Error then Refused
    else if f.send == ErrorAfterCommit || f.record == Error then SentUnrecorded
    else Recorded
  }

  function Pay(tx: PayoutTx, call: PayoutCall): PayoutTx {
    match call
    case Recorded => tx.(status := PayoutPending, dispatched := tx.dispatched + 1)
    case Refused => tx
    case SentUnrecorded => tx.(dispatched := tx.dispatched + 1, unrecorded := tx.unrecorded + 1)
  }

  /** The newest eligible transaction is this one, and it is still paid. */
  predicate NewestPaid(txs: seq<PayoutTx>, i: nat) {
    i < |txs| && txs[i].status == Paid && forall j :: i < j < |txs| ==> txs[j].status !in ELIGIBLE
  }

  /** A delivery pays exactly the newest eligible transaction, if it is still paid, and touches no
      other. */
  lemma DeliverySends(txs: seq<PayoutTx>, f: Faults, i: nat)
    requires i < |txs|
    ensures |Deliver(txs, f).txs| == |txs|
    ensures Deliver(txs, f).txs[i] == if NewestPaid(txs, i) then Pay(txs[i], CallOf(f)) else txs[i]
  {
  }

  predicate SomePaid(txs: seq<PayoutTx>) {
    exists i :: 0 <= i < |txs| && txs[i].status == Paid
  }

  /** The delivery ends without an error, so that its event counts as processed, and has sent nothing,
      although a transaction of the post is paid. */
  predicate Lost(txs: seq<PayoutTx>, f: Faults) {
    SomePaid(txs) && Deliver(txs, f).phase == Finished(false, None)
  }

  /** A payout is lost exactly if the first read failed, or a newer transaction that is already paid
      out, or on its way, stands before the paid one. */
  lemma DeliveryLostIff(txs: seq<PayoutTx>, f: Faults)
    requires SomePaid(txs)
    ensures Lost(txs, f) <==> f.check != Fine || !exists i :: 0 <= i < |txs| && NewestPaid(txs, i)
  {
    var t := Newest(txs, |txs|, ELIGIBLE);
    if t.Some? && txs[t.value].status == Paid {
      assert NewestPaid(txs, t.value);
    }
    forall i | 0 <= i < |txs| && NewestPaid(txs, i) ensures t == Some(i) {
      assert txs[i].status in ELIGIBLE;
    }
  }

  /** The second way, without any failing call. */
  lemma ShadowedPayoutIsLost(paid: PayoutTx, newer: PayoutTx)
    requires paid.status == Paid && newer.status in {PayoutPending, Released}
    ensures Lost([paid, newer], NO_FAULT)
    ensures Deliver([paid, newer], NO_FAULT).txs == [paid, newer]
  {
    assert [paid, newer][0].status == Paid;
    assert [paid, newer][1].status in ELIGIBLE;
  }

  /** The call pays the newest transaction that is paid; an arbitration ruling, the newest that is
      paid or disputed. */
  lemma PickIff(txs: seq<PayoutTx>, fromDisputed: bool, fault: Fault, busy: nat -> bool, t: nat)
    ensures Pick(txs, fromDisputed, fault, busy).phase == Picked(t) <==>
              && fault == Fine && t < |txs|
              && (txs[t].status == Paid || (fromDisputed && txs[t].status == TxStatus.Disputed))
              && forall j :: t < j < |txs| ==>
                   txs[j].status != Paid && (fromDisputed ==> txs[j].status != TxStatus.Disputed)
    ensures var picked := Pick(txs, fromDisputed, fault, busy);
            && (picked.phase.Picked? || picked == Step(txs, Finished(true, None)))
            && (picked.phase == Picked(t) ==>
                  t < |txs| && picked.txs == txs[t := txs[t].(joined := txs[t].joined + (if busy(t) then 1 else 0))])
  {
    var newest := Newest(txs, |txs|, Sources(fromDisputed));
    if t < |txs| && newest.Some? && newest.value != t {
      assert newest.value > t || txs[t].status !in Sources(fromDisputed);
    }
  }

  /** What a delivery leaves of the transaction it pays: sent at most once, and no longer paid exactly
      if the send was written down. */
  lemma DeliveryPays(txs: seq<PayoutTx>, f: Faults, i: nat)
    requires i < |txs| && txs[i].status == Paid
    requires forall j :: i < j < |txs| ==> txs[j].status !in {Paid, PayoutPending, Released}
    ensures |Deliver(txs, f).txs| == |txs|
    ensures var (before, after) := (txs[i], Deliver(txs, f).txs[i]);
            var sent := f.check == Fine && f.pick == Fine && f.send != Error;
            var recorded := sent && f.send == Fine && f.record != Error;
            && after.dispatched == before.dispatched + (if sent then 1 else 0)
            && after.unrecorded == before.unrecorded + (if sent && !recorded then 1 else 0)
            && after.status == (if recorded then PayoutPending else Paid)
            && (Deliver(txs, f).phase == Finished(false, Some(i)) <==> recorded && f.record == Fine)
  {
    DeliverySends(txs, f, i);
  }

  // ---------------------------------------------------------------- one delivery after another

  function DeliverAll(txs: seq<PayoutTx>, fs: seq<Faults>): seq<PayoutTx>
    decreases |fs|
  {
    if fs == [] then txs else DeliverAll(Deliver(txs, fs[0]).txs, fs[1..])
  }

  /** The calls that are not refused, up to the first that is recorded. */
  function Sends(fs: seq<Faults>): nat {
    if fs == [] then 0
    else
      match CallOf(fs[0])
      case Recorded => 1
      case Refused => Sends(fs[1..])
      case SentUnrecorded => 1 + Sends(fs[1..])
  }

  lemma {:induction false} NothingToPay(txs: seq<PayoutTx>, fs: seq<Faults>)
    requires forall i :: 0 <= i < |txs| ==> !NewestPaid(txs, i)
    ensures DeliverAll(txs, fs) == txs
    decreases |fs|
  {
    if fs != [] {
      forall i | 0 <= i < |txs| ensures Deliver(txs, fs[0]).txs[i] == txs[i] {
        DeliverySends(txs, fs[0], i);
      }
      assert Deliver(txs, fs[0]).txs == txs;
      NothingToPay(txs, fs[1..]);
    }
  }

  /** Any sequence of deliveries, one after another: the newest paid transaction is sent once for
      every call that is not refused, up to and including the first recorded one, and no other
      transaction is touched. */
  lemma {:induction false} DeliveriesSend(txs: seq<PayoutTx>, fs: seq<Faults>, i: nat)
    requires NewestPaid(txs, i)
    ensures var end := DeliverAll(txs, fs);
            && |end| == |txs| && end[i].dispatched == txs[i].dispatched + Sends(fs)
            && forall j :: 0 <= j < |txs| && j != i ==> end[j] == txs[j]
    decreases |fs|
  {
    if fs != [] {
      var next := Deliver(txs, fs[0]).txs;
      forall j | 0 <= j < |txs|
        ensures |next| == |txs| && next[j] == if j == i then Pay(txs[i], CallOf(fs[0])) else txs[j]
      {
        DeliverySends(txs, fs[0], j);
      }
      if CallOf(fs[0]) == Recorded {
        forall j | 0 <= j < |next| ensures !NewestPaid(next, j) {
          assert next[i].status in ELIGIBLE;
        }
        NothingToPay(next, fs[1..]);
      } else {
        assert NewestPaid(next, i);
        DeliveriesSend(next, fs[1..], i);
      }
    }
  }

  /** An unrecorded send at `a`, before any recorded one, and a call at `b` after it that is not refused. */
  predicate Repeats(fs: seq<Faults>, a: nat, b: nat) {
    && a < b < |fs| && CallOf(fs[a]) == SentUnrecorded && CallOf(fs[b]) != Refused
    && forall c :: 0 <= c < a ==> CallOf(fs[c]) != Recorded
  }

  lemma {:induction false} SendsAtLeastOnce(fs: seq<Faults>)
    ensures Sends(fs) >= 1 <==> exists b :: 0 <= b < |fs| && CallOf(fs[b]) != Refused
  {
    if fs != [] {
      SendsAtLeastOnce(fs[1..]);
      if b :| 1 <= b < |fs| && CallOf(fs[b]) != Refused {
        assert fs[1..][b - 1] == fs[b];
      }
    }
  }

  lemma {:induction false} SendsTwiceIff(fs: seq<Faults>)
    ensures Sends(fs) >= 2 <==> exists a: nat, b: nat :: Repeats(fs, a, b)
  {
    if fs != [] {
      var rest := fs[1..];
      SendsTwiceIff(rest);
      SendsAtLeastOnce(rest);
      if Sends(fs) >= 2 {
        if CallOf(fs[0]) == SentUnrecorded {
          var b :| 0 <= b < |rest| && CallOf(rest[b]) != Refused;
          assert Repeats(fs, 0, b + 1);
        } else {
          var a: nat, b: nat :| Repeats(rest, a, b);
          assert forall c :: 0 <= c < a + 1 ==> c == 0 || fs[c] == rest[c - 1];
          assert Repeats(fs, a + 1, b + 1);
        }
      }
      if a: nat, b: nat :| Repeats(fs, a, b) {
        assert rest[b - 1] == fs[b];
        if a > 0 {
          assert forall c :: 0 <= c < a - 1 ==> rest[c] == fs[c + 1];
          assert Repeats(rest, a - 1, b - 1);
          assert CallOf(fs[0]) != Recorded;
        }
      }
    }
  }

  /** Deliveries one after another pay the newest paid transaction more than once exactly if a send
      that was not recorded, before any that was, is followed by a call that is not refused. */
  lemma PaidTwiceIff(txs: seq<PayoutTx>, fs: seq<Faults>, i: nat)
    requires NewestPaid(txs, i)
    ensures |DeliverAll(txs, fs)| == |txs|
    ensures DeliverAll(txs, fs)[i].dispatched >= txs[i].dispatched + 2 <==> exists a: nat, b: nat :: Repeats(fs, a, b)
  {
    DeliveriesSend(txs, fs, i);
    SendsTwiceIff(fs);
  }

  // ---------------------------------------------------------------- the handler

  /** The post's transactions, in order of creation, and the handler as it queries them. */
  class PayoutHandler {
    var txs: seq<PayoutTx>

    constructor ()
      ensures txs == []
    {
      txs := [];
    }

    /** `status in (…)`, newest first, one row; the error of the read is not looked at. */
    method SelectNewest(states: set<TxStatus>, fault: Fault) returns (t: Option<nat>)
      ensures t == if fault == Fine then Newest(txs, |txs|, states) else None
    {
      if fault != Fine {
        return None;
      }
      var n := |txs|;
      while n > 0
        invariant 0 <= n <= |txs|
        invariant Newest(txs, n, states) == Newest(txs, |txs|, states)
      {
        if txs[n - 1].status in states {
          return Some(n - 1);
        }
        n := n - 1;
      }
      t := None;
    }

    /** A delivery that nothing overlaps. */
    method HandlePayoutRequested(f: Faults) returns (threw: bool)
      modifies this
      ensures txs == Deliver(old(txs), f).txs
      ensures Deliver(old(txs), f).phase.Finished? && threw == Deliver(old(txs), f).phase.threw
    {
      var t := SelectNewest({Paid, PayoutPending, Released}, f.check);
      if t.None? {
        return false;
      }
      if txs[t.value].status == PayoutPending || txs[t.value].status == Released {
        return false;
      }
      threw := ReleasePayout(f);
    }

    /** The payout service: pick, send, record. */
    method ReleasePayout(f: Faults) returns (threw: bool)
      modifies this
      ensures txs == Release(old(txs), f).txs
      ensures Release(old(txs), f).phase.Finished? && threw == Release(old(txs), f).phase.threw
    {
      var t := SelectNewest({Paid}, f.pick);
      if t.None? {
        return true;
      }
      var i := t.value;
      assert txs[i := txs[i]] == txs;
      if f.send == Error {
        return true;
      }
      txs := txs[i := txs[i].(dispatched := txs[i].dispatched + 1)];
      if f.send == ErrorAfterCommit || f.record == Error {
        txs := txs[i := txs[i].(unrecorded := txs[i].unrecorded + 1)];
        return true;
      }
      txs := txs[i := txs[i].(status := PayoutPending)];
      threw := f.record != Fine;
    }
  }
}
