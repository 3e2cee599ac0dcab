/**
 Payout calls that overlap: deliveries of the retry loop and of manual replays, finance
 repairs and arbitration rulings, split at their database calls and at the transfer, and
 interleaved with each other and with whatever else moves a transaction.
 */
module PayoutInterleaving {
  import opened Wrappers
  import EscrowLock
  import opened PayoutDispatch

  datatype Sys = Sys(txs: seq<PayoutTx>, calls: seq<Phase>)

  const EMPTY := Sys([], [])

  datatype Action =
    /** A delivery begins, or the payout service is called directly. */
    | Call(first: Phase)
    | Advance(i: nat, fault: Fault)
    /** A new payment attempt for the post. */
    | NewTx
    /** Anything else moves a transaction: confirmation, callback, dispute, revert. */
    | Moves(t: nat, status: EscrowLock.TxStatus)

  /** The transaction a call is at, or has paid, exists. */
  predicate InRange(p: Phase, n: nat) {
    match p
    case Picked(t) => t < n
    case Sent(t) => t < n
    case Finished(_, paid) => paid.Some? ==> paid.value < n
    case _ => true
  }

  // ---------------------------------------------------------------- counting calls

  function CountIf(calls: seq<Phase>, f: Phase -> bool): nat {
    if calls == [] then 0 else CountIf(calls[..|calls| - 1], f) + if f(calls[|calls| - 1]) then 1 else 0
  }

  function Holding(t: nat): Phase -> bool { (p: Phase) => Holds(p, t) }

  function Sending(t: nat): Phase -> bool { (p: Phase) => p == Sent(t) }

  /** Money was sent for the transaction by this call. */
  predicate PaidFor(p: Phase, t: nat) {
    p == Sent(t) || (p.Finished? && p.paid == Some(t))
  }

  /** The call has come to the transaction. */
  predicate Touched(p: Phase, t: nat) {
    Holds(p, t) || PaidFor(p, t)
  }

  function Paying(t: nat): Phase -> bool { (p: Phase) => PaidFor(p, t) }

  function One(b: bool): nat { if b then 1 else 0 }

  lemma {:induction false} CountSet(calls: seq<Phase>, i: nat, p: Phase, f: Phase -> bool)
    requires i < |calls|
    ensures CountIf(calls[i := p], f) + One(f(calls[i])) == CountIf(calls, f) + One(f(p))
  {
    var n := |calls| - 1;
    if i < n {
      CountSet(calls[..n], i, p, f);
      assert calls[i := p][..n] == calls[..n][i := p];
    } else {
      assert calls[i := p][..n] == calls[..n];
    }
  }

  lemma CountAppend(calls: seq<Phase>, p: Phase, f: Phase -> bool)
    ensures CountIf(calls + [p], f) == CountIf(calls, f) + One(f(p))
  {
    assert (calls + [p])[..|calls|] == calls;
  }

  lemma {:induction false} CountPositiveIff(calls: seq<Phase>, f: Phase -> bool)
    ensures CountIf(calls, f) > 0 <==> exists i :: 0 <= i < |calls| && f(calls[i])
  {
    if calls != [] {
      var n := |calls| - 1;
      CountPositiveIff(calls[..n], f);
      if i :| 0 <= i < n && f(calls[i]) {
        assert calls[..n][i] == calls[i];
      }
    }
  }

  lemma {:induction false} CountTwoIff(calls: seq<Phase>, f: Phase -> bool)
    ensures CountIf(calls, f) >= 2 <==> exists i, j :: 0 <= i < j < |calls| && f(calls[i]) && f(calls[j])
  {
    if calls != [] {
      var n := |calls| - 1;
      CountTwoIff(calls[..n], f);
      CountPositiveIff(calls[..n], f);
      if CountIf(calls, f) >= 2 && CountIf(calls[..n], f) < 2 {
        var i :| 0 <= i < n && f(calls[..n][i]);
        assert f(calls[i]) && f(calls[n]);
      }
      if i, j :| 0 <= i < j < |calls| && f(calls[i]) && f(calls[j]) {
        assert f(calls[..n][i]);
        assert j < n ==> f(calls[..n][j]);
      }
    }
  }

  // ---------------------------------------------------------------- runs

  predicate Enabled(s: Sys, a: Action) {
    match a
    case Call(first) => first.Checking? || first.Releasing?
    case Advance(i, _) => i < |s.calls| && !s.calls[i].Finished? && InRange(s.calls[i], |s.txs|)
    case _ => true
  }

  function StepCall(s: Sys, p: Phase, fault: Fault): Step
    requires !p.Finished? && InRange(p, |s.txs|)
  {
    match p
    case Checking => Step(s.txs, Check(s.txs, fault))
    case Releasing(fromDisputed) => Pick(s.txs, fromDisputed, fault, (t: nat) => CountIf(s.calls, Holding(t)) > 0)
    case Picked(t) => Send(s.txs, t, fault)
    case Sent(t) => Record(s.txs, t, fault)
  }

  function Moved(tx: PayoutTx, status: EscrowLock.TxStatus): PayoutTx {
    tx.(status := status, entered := tx.entered + One(Releasable(status) && !Releasable(tx.status)))
  }

  function Next(s: Sys, a: Action): Sys
    requires Enabled(s, a)
  {
    match a
    case Call(first) => s.(calls := s.calls + [first])
    case Advance(i, fault) =>
      var step := StepCall(s, s.calls[i], fault);
      Sys(step.txs, s.calls[i := step.phase])
    case NewTx => s.(txs := s.txs + [NEW_TX])
    case Moves(t, status) => if t < |s.txs| then s.(txs := s.txs[t := Moved(s.txs[t], status)]) else s
  }

  ghost predicate Path(trace: seq<Sys>, acts: seq<Action>) {
    && |trace| == |acts| + 1
    && forall k :: 0 <= k < |acts| ==> Enabled(trace[k], acts[k]) && trace[k + 1] == Next(trace[k], acts[k])
  }

  ghost predicate Run(trace: seq<Sys>, acts: seq<Action>) {
    Path(trace, acts) && trace[0] == EMPTY
  }

  // ---------------------------------------------------------------- the invariant

  /** What the sends, the calls still at it and the entries into a releasable state have to do with
      each other.  A call that picked the transaction alone used up an entry. */
  ghost predicate Balanced(tx: PayoutTx, holders: nat, sending: nat, paying: nat) {
    && tx.dispatched == paying
    && tx.unrecorded + sending <= tx.dispatched
    && tx.dispatched - tx.unrecorded - sending + holders <= tx.entered + tx.joined
    && (holders == 0 && Releasable(tx.status) ==> tx.dispatched - tx.unrecorded - sending < tx.entered + tx.joined)
    && (Releasable(tx.status) || holders > 0 || paying > 0 ==> tx.entered >= 1)
    && (paying > sending && tx.unrecorded == 0 && Releasable(tx.status) ==> tx.entered >= 2)
  }

  ghost predicate TxInv(s: Sys, t: nat)
    requires t < |s.txs|
  {
    Balanced(s.txs[t], CountIf(s.calls, Holding(t)), CountIf(s.calls, Sending(t)), CountIf(s.calls, Paying(t)))
  }

  ghost predicate Inv(s: Sys) {
    && (forall i :: 0 <= i < |s.calls| ==> InRange(s.calls[i], |s.txs|))
    && (forall t :: 0 <= t < |s.txs| ==> TxInv(s, t))
  }

  lemma CountsAfter(s: Sys, i: nat, p: Phase, t: nat)
    requires i < |s.calls|
    ensures var calls := s.calls[i := p];
            && CountIf(calls, Holding(t)) + One(Holds(s.calls[i], t)) == CountIf(s.calls, Holding(t)) + One(Holds(p, t))
            && CountIf(calls, Sending(t)) + One(s.calls[i] == Sent(t)) ==
                 CountIf(s.calls, Sending(t)) + One(p == Sent(t))
            && CountIf(calls, Paying(t)) + One(PaidFor(s.calls[i], t)) ==
                 CountIf(s.calls, Paying(t)) + One(PaidFor(p, t))
  {
    CountSet(s.calls, i, p, Holding(t));
    CountSet(s.calls, i, p, Sending(t));
    CountSet(s.calls, i, p, Paying(t));
  }

  lemma {:induction false} SendersHold(calls: seq<Phase>, t: nat)
    ensures CountIf(calls, Sending(t)) <= CountIf(calls, Holding(t))
  {
    if calls != [] {
      SendersHold(calls[..|calls| - 1], t);
    }
  }

  lemma {:induction false} NobodyAt(calls: seq<Phase>, t: nat)
    requires forall i :: 0 <= i < |calls| ==> InRange(calls[i], t)
    ensures CountIf(calls, Holding(t)) == CountIf(calls, Sending(t)) == CountIf(calls, Paying(t)) == 0
  {
    if calls != [] {
      NobodyAt(calls[..|calls| - 1], t);
    }
  }

  /** A step of a call that is not at the transaction before or after it. */
  lemma ElsewhereKeeps(s: Sys, i: nat, step: Step, t: nat)
    requires t < |s.txs| && i < |s.calls| && TxInv(s, t) && |step.txs| == |s.txs| && step.txs[t] == s.txs[t]
    requires !Touched(s.calls[i], t) && !Touched(step.phase, t)
    ensures TxInv(Sys(step.txs, s.calls[i := step.phase]), t)
  {
    CountsAfter(s, i, step.phase, t);
  }

  lemma PickKeeps(s: Sys, i: nat, fault: Fault, t: nat)
    requires t < |s.txs| && TxInv(s, t) && Enabled(s, Advance(i, fault)) && s.calls[i].Releasing?
    ensures |Next(s, Advance(i, fault)).txs| == |s.txs| && TxInv(Next(s, Advance(i, fault)), t)
  {
    var step := StepCall(s, s.calls[i], fault);
    if step.phase == Picked(t) {
      CountsAfter(s, i, step.phase, t);
    } else {
      ElsewhereKeeps(s, i, step, t);
    }
  }

  lemma SendKeeps(s: Sys, i: nat, fault: Fault, t: nat)
    requires t < |s.txs| && TxInv(s, t) && Enabled(s, Advance(i, fault)) && s.calls[i].Picked?
    ensures |Next(s, Advance(i, fault)).txs| == |s.txs| && TxInv(Next(s, Advance(i, fault)), t)
  {
    var step := StepCall(s, s.calls[i], fault);
    if s.calls[i] == Picked(t) {
      CountsAfter(s, i, step.phase, t);
      CountPositiveIff(s.calls, Holding(t));
    } else {
      ElsewhereKeeps(s, i, step, t);
    }
  }

  lemma RecordKeeps(s: Sys, i: nat, fault: Fault, t: nat)
    requires t < |s.txs| && TxInv(s, t) && Enabled(s, Advance(i, fault)) && s.calls[i].Sent?
    ensures |Next(s, Advance(i, fault)).txs| == |s.txs| && TxInv(Next(s, Advance(i, fault)), t)
  {
    var step := StepCall(s, s.calls[i], fault);
    if s.calls[i] == Sent(t) {
      CountsAfter(s, i, step.phase, t);
      CountPositiveIff(s.calls, Holding(t));
      SendersHold(s.calls, t);
    } else {
      ElsewhereKeeps(s, i, step, t);
    }
  }

  lemma AdvanceKeeps(s: Sys, i: nat, fault: Fault, t: nat)
    requires t < |s.txs| && TxInv(s, t) && Enabled(s, Advance(i, fault))
    ensures |Next(s, Advance(i, fault)).txs| == |s.txs| && TxInv(Next(s, Advance(i, fault)), t)
  {
    match s.calls[i]
    case Checking => ElsewhereKeeps(s, i, StepCall(s, Checking, fault), t);
    case Releasing(_) => PickKeeps(s, i, fault, t);
    case Picked(_) => SendKeeps(s, i, fault, t);
    case Sent(_) => RecordKeeps(s, i, fault, t);
  }

  lemma CallKeeps(s: Sys, first: Phase, t: nat)
    requires t < |s.txs| && TxInv(s, t) && !Touched(first, t)
    ensures TxInv(s.(calls := s.calls + [first]), t)
  {
    CountAppend(s.calls, first, Holding(t));
    CountAppend(s.calls, first, Sending(t));
    CountAppend(s.calls, first, Paying(t));
  }

  lemma RangeKept(s: Sys, a: Action)
    requires Enabled(s, a) && forall i :: 0 <= i < |s.calls| ==> InRange(s.calls[i], |s.txs|)
    ensures var s' := Next(s, a);
            |s.txs| <= |s'.txs| && forall i :: 0 <= i < |s'.calls| ==> InRange(s'.calls[i], |s'.txs|)
  {
    var s' := Next(s, a);
    forall i | 0 <= i < |s'.calls| ensures InRange(s'.calls[i], |s'.txs|) {
      assert i < |s.calls| ==> InRange(s.calls[i], |s.txs|);
    }
  }

  lemma MovesKeeps(s: Sys, t: nat, moved: nat, status: EscrowLock.TxStatus)
    requires t < |s.txs| && TxInv(s, t) && moved < |s.txs|
    ensures TxInv(s.(txs := s.txs[moved := Moved(s.txs[moved], status)]), t)
  {
  }

  lemma NewIsBalanced()
    ensures Balanced(NEW_TX, 0, 0, 0)
  {
  }

  lemma NewKeeps(s: Sys, t: nat)
    requires t <= |s.txs| && (t < |s.txs| ==> TxInv(s, t))
    requires forall i :: 0 <= i < |s.calls| ==> InRange(s.calls[i], |s.txs|)
    ensures TxInv(s.(txs := s.txs + [NEW_TX]), t)
  {
    if t < |s.txs| {
      assert (s.txs + [NEW_TX])[t] == s.txs[t];
    } else {
      assert (s.txs + [NEW_TX])[t] == NEW_TX;
      NobodyAt(s.calls, t);
      NewIsBalanced();
    }
  }

  lemma TxKept(s: Sys, a: Action, t: nat)
    requires Inv(s) && Enabled(s, a) && t < |Next(s, a).txs|
    ensures TxInv(Next(s, a), t)
  {
    RangeKept(s, a);
    assert t < |s.txs| ==> TxInv(s, t);
    match a
    case Advance(i, fault) => AdvanceKeeps(s, i, fault, t);
    case Call(first) => CallKeeps(s, first, t);
    case NewTx => NewKeeps(s, t);
    case Moves(moved, status) =>
      if moved < |s.txs| {
        MovesKeeps(s, t, moved, status);
      }
  }

  lemma InvStep(s: Sys, a: Action)
    requires Inv(s) && Enabled(s, a)
    ensures Inv(Next(s, a))
  {
    RangeKept(s, a);
    forall t | 0 <= t < |Next(s, a).txs| ensures TxInv(Next(s, a), t) {
      TxKept(s, a, t);
    }
  }

  lemma {:induction false} InvAlways(trace: seq<Sys>, acts: seq<Action>, n: nat)
    requires Run(trace, acts) && n < |trace|
    ensures Inv(trace[n])
  {
    if n > 0 {
      InvAlways(trace, acts, n - 1);
      InvStep(trace[n - 1], acts[n - 1]);
    }
  }

  // ---------------------------------------------------------------- the bound

  /** In every interleaving: money is sent for a transaction at most once for each time it became
      releasable, plus once for each call that picked it while another was still at it, plus once for
      each send that was not recorded. */
  lemma DispatchBound(trace: seq<Sys>, acts: seq<Action>, n: nat, t: nat)
    requires Run(trace, acts) && n < |trace| && t < |trace[n].txs|
    ensures var tx := trace[n].txs[t];
            tx.dispatched <= tx.entered + tx.joined + tx.unrecorded
  {
    InvAlways(trace, acts, n);
    assert TxInv(trace[n], t);
    SendersHold(trace[n].calls, t);
  }

  /** Between two moments the transaction appeared in, or moved into, a state a payout may start from. */
  ghost predicate Enters(s: Sys, s': Sys, t: nat) {
    && t < |s'.txs| && s'.txs[t].status in {EscrowLock.Paid, EscrowLock.TxStatus.Disputed}
    && (t < |s.txs| ==> s.txs[t].status !in {EscrowLock.Paid, EscrowLock.TxStatus.Disputed})
  }

  ghost function Entries(trace: seq<Sys>, n: nat, t: nat): nat
    requires n < |trace|
  {
    if n == 0 then 0 else Entries(trace, n - 1, t) + One(Enters(trace[n - 1], trace[n], t))
  }

  /** How often a transaction became releasable, read off the run. */
  lemma {:induction false} EntriesAreCounted(trace: seq<Sys>, acts: seq<Action>, n: nat, t: nat)
    requires Run(trace, acts) && n < |trace|
    ensures Entries(trace, n, t) == if t < |trace[n].txs| then trace[n].txs[t].entered else 0
  {
    if n > 0 {
      EntriesAreCounted(trace, acts, n - 1, t);
      var s, a := trace[n - 1], acts[n - 1];
      assert trace[n] == Next(s, a);
      if a.Advance? && s.calls[a.i].Releasing? {
        assert |trace[n].txs| == |s.txs|;
      }
    }
  }

  ghost predicate AtMostOneOpen(s: Sys) {
    forall i, j :: 0 <= i < j < |s.calls| ==> s.calls[i].Finished? || s.calls[j].Finished?
  }

  lemma {:induction false} NeverJoined(trace: seq<Sys>, acts: seq<Action>, n: nat, t: nat)
    requires Run(trace, acts) && n < |trace| && t < |trace[n].txs|
    requires forall k :: 0 <= k <= n ==> AtMostOneOpen(trace[k])
    ensures trace[n].txs[t].joined == 0
  {
    if n > 0 {
      var s, a := trace[n - 1], acts[n - 1];
      assert trace[n] == Next(s, a);
      if t < |s.txs| {
        NeverJoined(trace, acts, n - 1, t);
        assert AtMostOneOpen(s);
        CountPositiveIff(s.calls, Holding(t));
      }
    }
  }

  /** One call at a time: a transaction that became releasable once and whose sends were recorded is
      paid at most once. */
  lemma AtMostOnePayout(trace: seq<Sys>, acts: seq<Action>, n: nat, t: nat)
    requires Run(trace, acts) && n < |trace| && t < |trace[n].txs|
    requires forall k :: 0 <= k <= n ==> AtMostOneOpen(trace[k])
    requires trace[n].txs[t].entered <= 1 && trace[n].txs[t].unrecorded == 0
    ensures trace[n].txs[t].dispatched <= 1
  {
    DispatchBound(trace, acts, n, t);
    NeverJoined(trace, acts, n, t);
  }

  // ---------------------------------------------------------------- exactly when it is paid twice

  /** At the `m`-th moment both calls have picked the transaction and neither is done with it. */
  ghost predicate BothHold(trace: seq<Sys>, m: nat, i: nat, j: nat, t: nat) {
    && m < |trace| && i < |trace[m].calls| && j < |trace[m].calls|
    && Holds(trace[m].calls[i], t) && Holds(trace[m].calls[j], t)
  }

  /** One step back: the same calls had touched the transaction, or one of them has picked it just
      now, while it was releasable. */
  lemma TouchedBefore(s: Sys, a: Action, i: nat, t: nat)
    requires Inv(s) && Enabled(s, a) && i < |Next(s, a).calls| && Touched(Next(s, a).calls[i], t)
    ensures t < |s.txs| && i < |s.calls|
    ensures Touched(s.calls[i], t)
              || (a.Advance? && a.i == i && Releasable(s.txs[t].status) && Next(s, a).calls[i] == Picked(t))
  {
    assert i < |s.calls| ==> InRange(s.calls[i], |s.txs|);
  }

  lemma CountersGrow(s: Sys, a: Action, t: nat)
    requires Enabled(s, a) && t < |s.txs|
    ensures t < |Next(s, a).txs|
    ensures s.txs[t].entered <= Next(s, a).txs[t].entered && s.txs[t].unrecorded <= Next(s, a).txs[t].unrecorded
  {
  }

  /** A call that is done with a transaction that is releasable again: it has become so twice. */
  lemma DoneMeansReentered(s: Sys, i: nat, t: nat)
    requires Inv(s) && t < |s.txs| && i < |s.calls| && Touched(s.calls[i], t) && !Holds(s.calls[i], t)
    requires s.txs[t].unrecorded == 0 && Releasable(s.txs[t].status)
    ensures s.txs[t].entered >= 2
  {
    assert TxInv(s, t);
    PayersBeyond(s.calls, i, t);
  }

  lemma {:induction false} PayersBeyond(calls: seq<Phase>, i: nat, t: nat)
    requires i < |calls| && PaidFor(calls[i], t) && calls[i] != Sent(t)
    ensures CountIf(calls, Paying(t)) > CountIf(calls, Sending(t))
  {
    var n := |calls| - 1;
    if i < n {
      PayersBeyond(calls[..n], i, t);
    } else {
      PayersAtLeast(calls[..n], t);
    }
  }

  lemma {:induction false} PayersAtLeast(calls: seq<Phase>, t: nat)
    ensures CountIf(calls, Paying(t)) >= CountIf(calls, Sending(t))
  {
    if calls != [] {
      PayersAtLeast(calls[..|calls| - 1], t);
    }
  }

  lemma {:induction false} TouchedMeansOverlap(trace: seq<Sys>, acts: seq<Action>, n: nat, i: nat, j: nat, t: nat)
    requires Run(trace, acts) && n < |trace| && t < |trace[n].txs|
    requires trace[n].txs[t].entered <= 1 && trace[n].txs[t].unrecorded == 0
    requires i != j && i < |trace[n].calls| && j < |trace[n].calls|
    requires Touched(trace[n].calls[i], t) && Touched(trace[n].calls[j], t)
    ensures exists m :: 0 <= m <= n && BothHold(trace, m, i, j, t)
  {
    if n > 0 {
      var s, a := trace[n - 1], acts[n - 1];
      InvAlways(trace, acts, n - 1);
      TouchedBefore(s, a, i, t);
      TouchedBefore(s, a, j, t);
      CountersGrow(s, a, t);
      if Touched(s.calls[i], t) && Touched(s.calls[j], t) {
        TouchedMeansOverlap(trace, acts, n - 1, i, j, t);
      } else {
        var other := if Touched(s.calls[i], t) then i else j;
        if !Holds(s.calls[other], t) {
          DoneMeansReentered(s, other, t);
        }
        assert BothHold(trace, n, i, j, t);
      }
    }
  }

  /** Step `k` is the transfer of call `i` for the transaction, and it is not refused. */
  ghost predicate TransferAt(trace: seq<Sys>, acts: seq<Action>, k: nat, i: nat, t: nat) {
    && k < |acts| && k < |trace| && acts[k].Advance? && acts[k].i == i && acts[k].fault != Error
    && i < |trace[k].calls| && trace[k].calls[i] == Picked(t)
  }

  /** A call has paid the transaction exactly if its transfer came and was not refused. */
  lemma {:induction false} PaidForIff(trace: seq<Sys>, acts: seq<Action>, n: nat, i: nat, t: nat)
    requires Run(trace, acts) && n < |trace| && i < |trace[n].calls|
    ensures PaidFor(trace[n].calls[i], t) <==> exists k :: 0 <= k < n && TransferAt(trace, acts, k, i, t)
  {
    if n > 0 {
      var s, a := trace[n - 1], acts[n - 1];
      assert trace[n] == Next(s, a);
      if i < |s.calls| {
        PaidForIff(trace, acts, n - 1, i, t);
        assert TransferAt(trace, acts, n - 1, i, t) ==> PaidFor(trace[n].calls[i], t);
        if PaidFor(trace[n].calls[i], t) && !PaidFor(s.calls[i], t) {
          assert TransferAt(trace, acts, n - 1, i, t);
        }
      } else {
        NotYetCalled(trace, acts, n - 1, i);
      }
    }
  }

  lemma {:induction false} NotYetCalled(trace: seq<Sys>, acts: seq<Action>, n: nat, i: nat)
    requires Run(trace, acts) && n < |trace| && i >= |trace[n].calls|
    ensures forall k :: 0 <= k <= n ==> i >= |trace[k].calls|
  {
    if n > 0 {
      assert trace[n] == Next(trace[n - 1], acts[n - 1]);
      NotYetCalled(trace, acts, n - 1, i);
    }
  }

  /** Up to the `n`-th moment no transfer for the transaction is refused. */
  ghost predicate NoRefusal(trace: seq<Sys>, acts: seq<Action>, n: nat, t: nat) {
    forall k :: 0 <= k < n && k < |acts| && k < |trace| ==> NotRefused(trace[k], acts[k], t)
  }

  predicate NotRefused(s: Sys, a: Action, t: nat) {
    a.Advance? && a.i < |s.calls| && s.calls[a.i] == Picked(t) ==> a.fault != Error
  }

  lemma {:induction false} TouchedStays(trace: seq<Sys>, acts: seq<Action>, m: nat, n: nat, i: nat, t: nat)
    requires Path(trace, acts) && m <= n < |trace| && NoRefusal(trace, acts, n, t)
    requires i < |trace[m].calls| && Touched(trace[m].calls[i], t)
    ensures i < |trace[n].calls| && Touched(trace[n].calls[i], t)
  {
    if m < n {
      TouchedStays(trace, acts, m, n - 1, i, t);
      assert NotRefused(trace[n - 1], acts[n - 1], t);
      assert trace[n] == Next(trace[n - 1], acts[n - 1]);
    }
  }

  lemma PaidTwiceMeansOverlap(trace: seq<Sys>, acts: seq<Action>, n: nat, t: nat) returns (i: nat, j: nat, m: nat)
    requires Run(trace, acts) && n < |trace| && t < |trace[n].txs|
    requires trace[n].txs[t].entered <= 1 && trace[n].txs[t].unrecorded == 0 && trace[n].txs[t].dispatched >= 2
    ensures i < j < |trace[n].calls| && m <= n && BothHold(trace, m, i, j, t)
    ensures PaidFor(trace[n].calls[i], t) && PaidFor(trace[n].calls[j], t)
  {
    var calls := trace[n].calls;
    InvAlways(trace, acts, n);
    assert TxInv(trace[n], t);
    CountTwoIff(calls, Paying(t));
    i, j :| 0 <= i < j < |calls| && Paying(t)(calls[i]) && Paying(t)(calls[j]);
    TouchedMeansOverlap(trace, acts, n, i, j, t);
    m :| 0 <= m <= n && BothHold(trace, m, i, j, t);
  }

  lemma PaidByTwo(trace: seq<Sys>, acts: seq<Action>, n: nat, i: nat, j: nat, t: nat)
    requires Run(trace, acts) && n < |trace| && t < |trace[n].txs| && i < j < |trace[n].calls|
    requires PaidFor(trace[n].calls[i], t) && PaidFor(trace[n].calls[j], t)
    ensures trace[n].txs[t].dispatched >= 2
  {
    InvAlways(trace, acts, n);
    assert TxInv(trace[n], t);
    assert Paying(t)(trace[n].calls[i]) && Paying(t)(trace[n].calls[j]);
    CountTwoIff(trace[n].calls, Paying(t));
  }

  /** In every interleaving, for a transaction that became releasable once and whose sends were
      recorded, when no transfer for it was refused or is still to come: it is paid more than once
      exactly if two calls overlap, one picking it before the other has recorded. */
  lemma PaidTwiceIff(trace: seq<Sys>, acts: seq<Action>, n: nat, t: nat)
    requires Run(trace, acts) && n < |trace| && t < |trace[n].txs|
    requires trace[n].txs[t].entered <= 1 && trace[n].txs[t].unrecorded == 0
    requires NoRefusal(trace, acts, n, t) && forall i :: 0 <= i < |trace[n].calls| ==> trace[n].calls[i] != Picked(t)
    ensures trace[n].txs[t].dispatched >= 2 <==>
            exists i, j, m :: 0 <= i < j && 0 <= m <= n && BothHold(trace, m, i, j, t)
  {
    if trace[n].txs[t].dispatched >= 2 {
      var i, j, m := PaidTwiceMeansOverlap(trace, acts, n, t);
    }
    if i: nat, j: nat, m: nat :| i < j && m <= n && BothHold(trace, m, i, j, t) {
      TouchedStays(trace, acts, m, n, i, t);
      TouchedStays(trace, acts, m, n, j, t);
      PaidByTwo(trace, acts, n, i, j, t);
    }
  }

  /** The same when transfers may be refused or still to come: the two calls that overlap are two whose
      transfers came and were not refused. */
  lemma PaidTwiceDespiteRefusalsIff(trace: seq<Sys>, acts: seq<Action>, n: nat, t: nat)
    requires Run(trace, acts) && n < |trace| && t < |trace[n].txs|
    requires trace[n].txs[t].entered <= 1 && trace[n].txs[t].unrecorded == 0
    ensures trace[n].txs[t].dispatched >= 2 <==>
            exists i, j, m, k, l ::
              && 0 <= i < j && 0 <= m <= n && BothHold(trace, m, i, j, t)
              && 0 <= k < n && TransferAt(trace, acts, k, i, t)
              && 0 <= l < n && TransferAt(trace, acts, l, j, t)
  {
    if trace[n].txs[t].dispatched >= 2 {
      var i, j, m := PaidTwiceMeansOverlap(trace, acts, n, t);
      PaidForIff(trace, acts, n, i, t);
      PaidForIff(trace, acts, n, j, t);
    }
    if i: nat, j: nat, k: nat, l: nat :|
      i < j && k < n && TransferAt(trace, acts, k, i, t) && l < n && TransferAt(trace, acts, l, j, t) {
      CalledOnce(trace, acts, k, n, i);
      CalledOnce(trace, acts, l, n, j);
      PaidForIff(trace, acts, n, i, t);
      PaidForIff(trace, acts, n, j, t);
      PaidByTwo(trace, acts, n, i, j, t);
    }
  }

  lemma CalledOnce(trace: seq<Sys>, acts: seq<Action>, m: nat, n: nat, i: nat)
    requires Run(trace, acts) && m <= n < |trace| && i < |trace[m].calls|
    ensures i < |trace[n].calls|
  {
    if i >= |trace[n].calls| {
      NotYetCalled(trace, acts, n, i);
    }
  }

  // ---------------------------------------------------------------- two deliveries that overlap

  lemma PathGrows(trace: seq<Sys>, acts: seq<Action>, a: Action)
    requires Path(trace, acts) && Enabled(trace[|acts|], a)
    ensures Path(trace + [Next(trace[|acts|], a)], acts + [a])
  {
  }

  /** The paid transaction `i`, after two calls have come to it. */
  function Twice(tx: PayoutTx, joined: nat, dispatched: nat, status: EscrowLock.TxStatus): PayoutTx {
    tx.(joined := tx.joined + joined, dispatched := tx.dispatched + dispatched, status := status)
  }

  /** Calls take their steps, none of which fails. */
  predicate Faultless(acts: seq<Action>) {
    forall k :: 0 <= k < |acts| ==> acts[k].Advance? && acts[k].fault == Fine
  }

  lemma BothPick(txs: seq<PayoutTx>, i: nat) returns (trace: seq<Sys>, acts: seq<Action>)
    requires NewestPaid(txs, i)
    ensures Path(trace, acts) && trace[0] == Sys(txs, [Checking, Checking])
    ensures trace[|acts|] == Sys(txs[i := Twice(txs[i], 1, 0, EscrowLock.Paid)], [Picked(i), Picked(i)])
    ensures Faultless(acts)
  {
    var s1, s2 := Sys(txs, [Releasing(false), Checking]), Sys(txs, [Releasing(false), Releasing(false)]);
    var s3 := Sys(txs, [Picked(i), Releasing(false)]);
    trace, acts := [Sys(txs, [Checking, Checking])], [];
    trace, acts := OneMore(trace, acts, 0, s1);
    trace, acts := OneMore(trace, acts, 1, s2);
    assert txs[i := txs[i]] == txs;
    BusyWhen(s2.calls, i);
    trace, acts := OneMore(trace, acts, 0, s3);
    BusyWhen(s3.calls, i);
    trace, acts := OneMore(trace, acts, 1, Sys(txs[i := Twice(txs[i], 1, 0, EscrowLock.Paid)], [Picked(i), Picked(i)]));
  }

  lemma BothSend(txs: seq<PayoutTx>, i: nat, before: seq<Sys>, prior: seq<Action>)
    returns (trace: seq<Sys>, acts: seq<Action>)
    requires i < |txs| && Path(before, prior) && Faultless(prior) && before[|prior|] == Sys(txs, [Picked(i), Picked(i)])
    ensures Path(trace, acts) && trace[0] == before[0]
    ensures trace[|acts|] == Sys(txs[i := Twice(txs[i], 0, 2, txs[i].status)], [Sent(i), Sent(i)])
    ensures Faultless(acts)
  {
    trace, acts := OneMore(before, prior, 0, Sys(txs[i := Twice(txs[i], 0, 1, txs[i].status)], [Sent(i), Picked(i)]));
    trace, acts := OneMore(trace, acts, 1, Sys(txs[i := Twice(txs[i], 0, 2, txs[i].status)], [Sent(i), Sent(i)]));
  }

  /** Both calls pick the transaction before either records, in any state of the post with a newest
      eligible transaction that is paid: it is paid twice, and both sends are recorded. */
  lemma OverlapPaysTwice(txs: seq<PayoutTx>, i: nat) returns (trace: seq<Sys>, acts: seq<Action>)
    requires NewestPaid(txs, i)
    ensures Path(trace, acts) && trace[0] == Sys(txs, [Checking, Checking])
    ensures trace[|acts|].txs == txs[i := Twice(txs[i], 1, 2, EscrowLock.PayoutPending)]
    ensures trace[|acts|].calls == [Finished(false, Some(i)), Finished(false, Some(i))]
    ensures Faultless(acts)
  {
    var picked := txs[i := Twice(txs[i], 1, 0, EscrowLock.Paid)];
    trace, acts := BothPick(txs, i);
    trace, acts := BothSend(picked, i, trace, acts);
    var recorded := txs[i := Twice(txs[i], 1, 2, EscrowLock.PayoutPending)];
    trace, acts := OneMore(trace, acts, 0, Sys(recorded, [Finished(false, Some(i)), Sent(i)]));
    trace, acts := OneMore(trace, acts, 1, Sys(recorded, [Finished(false, Some(i)), Finished(false, Some(i))]));
  }

  lemma PathJoin(trace: seq<Sys>, acts: seq<Action>, trace': seq<Sys>, acts': seq<Action>)
    requires Path(trace, acts) && Path(trace', acts') && trace[|acts|] == trace'[0]
    ensures Path(trace + trace'[1..], acts + acts')
    ensures (trace + trace'[1..])[|acts + acts'|] == trace'[|acts'|]
  {
    var joined := trace + trace'[1..];
    assert forall k :: 0 <= k <= |acts'| ==> joined[|acts| + k] == trace'[k];
    assert forall k :: 0 <= k <= |acts| ==> joined[k] == trace[k];
    forall k | 0 <= k < |acts + acts'|
      ensures Enabled(joined[k], (acts + acts')[k]) && joined[k + 1] == Next(joined[k], (acts + acts')[k])
    {
      if k >= |acts| {
        assert joined[k] == trace'[k - |acts|] && joined[k + 1] == trace'[k - |acts| + 1];
      }
    }
  }

  /** And from the very start: one transaction is made and paid, two deliveries of its event arrive,
      and the transaction, releasable only once, is paid twice. */
  lemma PaidTwiceFromTheStart() returns (trace: seq<Sys>, acts: seq<Action>)
    ensures Run(trace, acts)
    ensures |acts| >= 4 && acts[..4] == [NewTx, Moves(0, EscrowLock.Paid), Call(Checking), Call(Checking)]
    ensures Faultless(acts[4..])
    ensures trace[|acts|].txs == [PayoutTx(EscrowLock.PayoutPending, 1, 1, 2, 0)]
  {
    var paid := PayoutTx(EscrowLock.Paid, 1, 0, 0, 0);
    var first :=
      [EMPTY, Sys([NEW_TX], []), Sys([paid], []), Sys([paid], [Checking]), Sys([paid], [Checking, Checking])];
    var calls := [NewTx, Moves(0, EscrowLock.Paid), Call(Checking), Call(Checking)];
    assert Path(first, calls);
    var later, steps := OverlapPaysTwice([paid], 0);
    PathJoin(first, calls, later, steps);
    trace, acts := first + later[1..], calls + steps;
  }

  lemma BusyWhen(calls: seq<Phase>, t: nat)
    requires |calls| == 2
    ensures CountIf(calls, Holding(t)) == One(Holds(calls[0], t)) + One(Holds(calls[1], t))
  {
    CountAppend([], calls[0], Holding(t));
    CountAppend([calls[0]], calls[1], Holding(t));
    assert [] + [calls[0]] == [calls[0]] && [calls[0]] + [calls[1]] == calls;
  }

  lemma OneMore(trace: seq<Sys>, acts: seq<Action>, c: nat, s': Sys) returns (trace': seq<Sys>, acts': seq<Action>)
    requires Path(trace, acts) && Faultless(acts) && Enabled(trace[|acts|], Advance(c, Fine))
               && Next(trace[|acts|], Advance(c, Fine)) == s'
    ensures Faultless(acts') && Path(trace', acts') && trace'[0] == trace[0] && trace'[|acts'|] == s'
  {
    trace', acts' := trace + [s'], acts + [Advance(c, Fine)];
    PathGrows(trace, acts, Advance(c, Fine));
  }

  // ---------------------------------------------------------------- a delivery left alone

  function Rank(p: Phase): nat {
    match p case Checking => 4 case Releasing(_) => 3 case Picked(_) => 2 case Sent(_) => 1 case Finished(_, _) => 0
  }

  /** Call `i` runs to its end with nobody else moving. */
  function RunAlone(s: Sys, i: nat, f: Faults): Sys
    requires i < |s.calls| && InRange(s.calls[i], |s.txs|)
    decreases Rank(s.calls[i])
  {
    var p := s.calls[i];
    if p.Finished? then s
    else
      var fault := match p
        case Checking => f.check
        case Releasing(_) => f.pick
        case Picked(_) => f.send
        case _ => f.record;
      RunAlone(Next(s, Advance(i, fault)), i, f)
  }

  lemma SentAlone(txs: seq<PayoutTx>, calls: seq<Phase>, t: nat, f: Faults)
    requires t < |txs|
    ensures var last := Record(txs, t, f.record);
            RunAlone(Sys(txs, calls + [Sent(t)]), |calls|, f) == Sys(last.txs, calls + [last.phase])
  {
    var last := Record(txs, t, f.record);
    assert Next(Sys(txs, calls + [Sent(t)]), Advance(|calls|, f.record)) == Sys(last.txs, calls + [last.phase]);
  }

  lemma PickedAlone(txs: seq<PayoutTx>, calls: seq<Phase>, t: nat, f: Faults)
    requires t < |txs|
    ensures var last := Transfer(txs, t, f);
            RunAlone(Sys(txs, calls + [Picked(t)]), |calls|, f) == Sys(last.txs, calls + [last.phase])
  {
    var sent := Send(txs, t, f.send);
    assert Next(Sys(txs, calls + [Picked(t)]), Advance(|calls|, f.send)) == Sys(sent.txs, calls + [sent.phase]);
    if sent.phase.Sent? {
      SentAlone(sent.txs, calls, t, f);
    }
  }

  lemma ReleasingAlone(txs: seq<PayoutTx>, calls: seq<Phase>, f: Faults)
    requires forall i :: 0 <= i < |calls| ==> calls[i].Finished?
    ensures var last := Release(txs, f);
            RunAlone(Sys(txs, calls + [Releasing(false)]), |calls|, f) == Sys(last.txs, calls + [last.phase])
  {
    NobodyHolds(calls, Releasing(false));
    var s, picked := Sys(txs, calls + [Releasing(false)]), Pick(txs, false, f.pick, (_: nat) => false);
    assert Next(s, Advance(|calls|, f.pick)) == Sys(picked.txs, calls + [picked.phase]);
    if picked.phase.Picked? {
      PickedAlone(picked.txs, calls, picked.phase.t, f);
    }
  }

  /** The step-by-step delivery, left alone, is the delivery run from top to bottom. */
  lemma DeliverIsRunAlone(txs: seq<PayoutTx>, calls: seq<Phase>, f: Faults)
    requires forall i :: 0 <= i < |calls| ==> calls[i].Finished?
    ensures var last := Deliver(txs, f);
            RunAlone(Sys(txs, calls + [Checking]), |calls|, f) == Sys(last.txs, calls + [last.phase])
  {
    var checked := Check(txs, f.check);
    assert Next(Sys(txs, calls + [Checking]), Advance(|calls|, f.check)) == Sys(txs, calls + [checked]);
    if checked.Releasing? {
      ReleasingAlone(txs, calls, f);
    }
  }

  lemma NobodyHolds(calls: seq<Phase>, p: Phase)
    requires (forall i :: 0 <= i < |calls| ==> calls[i].Finished?) && p.Releasing?
    ensures forall t: nat :: CountIf(calls + [p], Holding(t)) == 0
  {
    forall t: nat ensures CountIf(calls + [p], Holding(t)) == 0 {
      CountPositiveIff(calls + [p], Holding(t));
    }
  }
}
