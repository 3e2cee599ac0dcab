/**
 Concurrent edits of one feed-settings document.

 An edit reads the stored row, merges its patch into what it read, and writes
 under a guard on the `updated_at` it read; a reset deletes the row.  Any number of
 edits and resets interleave at their database calls.
 */
module FeedSettings {
  import opened Wrappers
  import opened JsonDoc

  type Stamp = int

  datatype Row = Row(value: Json, stamp: Stamp)

  datatype Call = Update(patch: Document) | Reset

  datatype Outcome = Success | BadRequest | Conflict | Failed

  datatype Phase =
    | Begin
    /** The row as read, and the stamp this call will write. */
    | Saw(seen: Option<Row>, now: Stamp)
    /** `landed` records whether the call's write committed. */
    | Done(outcome: Outcome, landed: bool)

  datatype Op = MergePatch(patch: Document) | Delete

  datatype Commit = Commit(call: nat, op: Op)

  /** `log` lists the committed writes in order and `stamps` every stamp ever written. */
  datatype Sys = Sys(row: Option<Row>, calls: seq<(Call, Phase)>, log: seq<Commit>, stamps: set<Stamp>)

  /** What is stored, without its stamp; a value that is no object counts as an empty one. */
  function Contents(row: Option<Row>): Option<Document> {
    if row.None? then None else Some(Spread(row.value.value))
  }

  function Spread(v: Json): Document {
    if v.JObj? then v.fields else map[]
  }

  function Merge(v: Json, patch: Document): Json {
    JObj(Spread(v) + patch)
  }

  predicate KnownFields(defaults: Document, patch: Document) {
    patch.Keys <= defaults.Keys
  }

  predicate GuardMatches(row: Option<Row>, seen: Row) {
    row.Some? && row.value.stamp == seen.stamp
  }

  // ---------------------------------------------------------------- the steps of a call

  datatype Step = Step(row: Option<Row>, phase: Phase)

  /** One database call of one edit or reset; `now` is the clock when it is read. */
  function StepCall(defaults: Document, row: Option<Row>, call: Call, phase: Phase, fault: Fault, now: Stamp): Step
    requires !phase.Done?
  {
    var ok := fault == Fine;
    match (call, phase)
    case (Reset, _) =>
      if fault == Error then Step(row, Done(Failed, false))
      else Step(None, Done(if ok then Success else Failed, true))
    case (Update(patch), Begin) =>
      if !KnownFields(defaults, patch) then Step(row, Done(BadRequest, false))
      else if !ok then Step(row, Done(Failed, false))
      else Step(row, Saw(row, now))
    case (Update(patch), Saw(None, stamp)) =>
      // An insert that fails for any reason is reported as a conflict.
      if fault == Error || row.Some? then Step(row, Done(Conflict, false))
      else Step(Some(Row(JObj(patch), stamp)), Done(if ok then Success else Conflict, true))
    case (Update(patch), Saw(Some(seen), stamp)) =>
      if fault == Error then Step(row, Done(Failed, false))
      else if !GuardMatches(row, seen) then Step(row, Done(if ok then Conflict else Failed, false))
      else Step(Some(Row(Merge(seen.value, patch), stamp)), Done(if ok then Success else Failed, true))
  }

  function OpOf(call: Call): Op {
    match call
    case Update(patch) => MergePatch(patch)
    case Reset => Delete
  }

  datatype Action =
    | Arrive(call: Call)
    | Advance(i: nat, fault: Fault, now: Stamp)

  predicate Enabled(s: Sys, a: Action) {
    a.Advance? ==> a.i < |s.calls| && !s.calls[a.i].1.Done?
  }

  function Next(defaults: Document, s: Sys, a: Action): Sys
    requires Enabled(s, a)
  {
    match a
    case Arrive(call) => s.(calls := s.calls + [(call, Begin)])
    case Advance(i, fault, now) =>
      var (call, phase) := s.calls[i];
      var step := StepCall(defaults, s.row, call, phase, fault, now);
      var landed := step.phase.Done? && step.phase.landed;
      Sys(step.row,
          s.calls[i := (call, step.phase)],
          if landed then s.log + [Commit(i, OpOf(call))] else s.log,
          if landed && call.Update? && phase.Saw? then s.stamps + {phase.now} else s.stamps)
  }

  /** A commit does not write a stamp that was ever written before. */
  predicate FreshStamp(defaults: Document, s: Sys, a: Action)
    requires Enabled(s, a)
  {
    a.Advance? && s.calls[a.i].0.Update? && s.calls[a.i].1.Saw?
      && StepCall(defaults, s.row, s.calls[a.i].0, s.calls[a.i].1, a.fault, a.now).phase.landed
    ==> s.calls[a.i].1.now !in s.stamps
  }

  ghost predicate Run(defaults: Document, trace: seq<Sys>, acts: seq<Action>) {
    && |trace| == |acts| + 1
    && trace[0].calls == [] && trace[0].log == []
    && (trace[0].row.Some? ==> trace[0].row.value.stamp in trace[0].stamps)
    && forall k :: 0 <= k < |acts| ==>
         Enabled(trace[k], acts[k]) && trace[k + 1] == Next(defaults, trace[k], acts[k])
  }

  ghost predicate DistinctStamps(defaults: Document, trace: seq<Sys>, acts: seq<Action>)
    requires Run(defaults, trace, acts)
  {
    forall k :: 0 <= k < |acts| ==> FreshStamp(defaults, trace[k], acts[k])
  }

  // ---------------------------------------------------------------- the atomic specification

  function Apply(doc: Option<Document>, op: Op): Option<Document> {
    match op
    case MergePatch(patch) => Some((if doc.Some? then doc.value else map[]) + patch)
    case Delete => None
  }

  function ApplyAll(doc: Option<Document>, log: seq<Commit>): Option<Document> {
    if log == [] then doc else Apply(ApplyAll(doc, log[..|log| - 1]), log[|log| - 1].op)
  }

  function Entries(log: seq<Commit>, i: nat): nat {
    if log == [] then 0 else Entries(log[..|log| - 1], i) + (if log[|log| - 1].call == i then 1 else 0)
  }

  // ---------------------------------------------------------------- linearizability

  ghost predicate SeenSound(s: Sys, seen: Option<Row>) {
    seen.Some? ==>
      seen.value.stamp in s.stamps && (GuardMatches(s.row, seen.value) ==> s.row.value.value == seen.value.value)
  }

  ghost predicate Inv(s: Sys, start: Option<Document>) {
    && (s.row.Some? ==> s.row.value.stamp in s.stamps)
    && (forall i :: 0 <= i < |s.calls| && s.calls[i].1.Saw? ==> SeenSound(s, s.calls[i].1.seen))
    && Contents(s.row) == ApplyAll(start, s.log)
  }

  lemma LogGrows(doc: Option<Document>, log: seq<Commit>, c: Commit)
    ensures ApplyAll(doc, log + [c]) == Apply(ApplyAll(doc, log), c.op)
    ensures forall i :: Entries(log + [c], i) == Entries(log, i) + (if c.call == i then 1 else 0)
  {
  }

  /** A step that lands is the atomic operation on what is stored at that moment; any other step
      stores nothing. */
  lemma StepRefines(defaults: Document, s: Sys, i: nat, fault: Fault, now: Stamp)
    requires i < |s.calls| && !s.calls[i].1.Done?
    requires s.calls[i].1.Saw? ==> SeenSound(s, s.calls[i].1.seen)
    ensures var step := StepCall(defaults, s.row, s.calls[i].0, s.calls[i].1, fault, now);
            Contents(step.row) ==
            if Landed(step.phase) then Apply(Contents(s.row), OpOf(s.calls[i].0)) else Contents(s.row)
  {
    if s.calls[i].0.Update? {
      var patch := s.calls[i].0.patch;
      assert map[] + patch == patch;
    }
  }

  /** How each database call of an edit or a reset ends. */
  lemma CallEnds(defaults: Document, row: Option<Row>, call: Call, phase: Phase, fault: Fault, now: Stamp)
    requires !phase.Done?
    ensures var next := StepCall(defaults, row, call, phase, fault, now).phase;
            var known := call.Update? ==> forall f :: f in call.patch ==> f in defaults;
            var matches := phase.Saw? && match phase.seen
              case None => row.None?
              case Some(seen) => row.Some? && row.value.stamp == seen.stamp;
            && (next.Saw? <==> call.Update? && phase.Begin? && known && fault == Fine)
            && (next.Saw? ==> next == Saw(row, now))
            && (next.Done? && next.outcome == Success <==>
                  fault == Fine && (call.Reset? || (phase.Saw? && matches)))
            && (next.Done? && next.outcome == BadRequest <==> call.Update? && phase.Begin? && !known)
            && (next.Done? && next.outcome == Conflict <==>
                  && call.Update? && phase.Saw?
                  && if phase.seen.None? then fault != Fine || !matches else fault == Fine && !matches)
            && (next.Done? && next.outcome == Failed <==>
                  && fault != Fine
                  && (call.Reset? || (phase.Begin? && known) || (phase.Saw? && phase.seen.Some?)))
  {
  }

  /** An edit on its own, from its arrival: it succeeds, and the fields it names, and only those,
      are what it says, under its own stamp. */
  lemma EditAlone(defaults: Document, s: Sys, patch: Document, now: Stamp)
    requires patch.Keys <= defaults.Keys
    ensures var i, s1 := |s.calls|, Next(defaults, s, Arrive(Update(patch)));
            && |s1.calls| == i + 1 && s1.calls[i].1.Begin?
            && var s2 := Next(defaults, s1, Advance(i, Fine, now));
            && s2.calls[i].1.Saw?
            && var end := Next(defaults, s2, Advance(i, Fine, now));
            && end.calls == s.calls + [(Update(patch), Done(Success, true))]
            && end.log == s.log + [Commit(i, MergePatch(patch))] && end.stamps == s.stamps + {now}
            && end.row.Some? && end.row.value.stamp == now && end.row.value.value.JObj?
            && forall f :: f in end.row.value.value.fields <==>
                 f in patch || (s.row.Some? && s.row.value.value.JObj? && f in s.row.value.value.fields)
  {
    var s1 := Next(defaults, s, Arrive(Update(patch)));
    var s2 := Next(defaults, s1, Advance(|s.calls|, Fine, now));
    assert s2.calls == s.calls + [(Update(patch), Saw(s.row, now))];
    assert Next(defaults, s2, Advance(|s.calls|, Fine, now)).calls == s.calls + [(Update(patch), Done(Success, true))];
  }

  lemma InvStep(defaults: Document, s: Sys, a: Action, start: Option<Document>)
    requires Enabled(s, a) && FreshStamp(defaults, s, a) && Inv(s, start)
    ensures Inv(Next(defaults, s, a), start)
  {
    if a.Advance? {
      var s' := Next(defaults, s, a);
      var (call, phase) := s.calls[a.i];
      StepRefines(defaults, s, a.i, a.fault, a.now);
      if s'.log != s.log {
        LogGrows(start, s.log, Commit(a.i, OpOf(call)));
      }
      forall i | 0 <= i < |s'.calls| && s'.calls[i].1.Saw? ensures SeenSound(s', s'.calls[i].1.seen) {
        if i != a.i {
          assert s.calls[i].1.Saw? && SeenSound(s, s.calls[i].1.seen);
        }
      }
    }
  }

  /** No lost edits: in every interleaving, with distinct commit stamps, the stored document is
      what the committed merges and deletes produce one after another, in commit order. */
  lemma {:induction false} NoLostEdits(defaults: Document, trace: seq<Sys>, acts: seq<Action>, n: nat)
    requires Run(defaults, trace, acts) && DistinctStamps(defaults, trace, acts) && n < |trace|
    ensures Inv(trace[n], Contents(trace[0].row))
  {
    if n > 0 {
      NoLostEdits(defaults, trace, acts, n - 1);
      InvStep(defaults, trace[n - 1], acts[n - 1], Contents(trace[0].row));
    }
  }

  predicate Landed(phase: Phase) {
    phase.Done? && phase.landed
  }

  predicate CallAccounted(s: Sys, i: nat)
    requires i < |s.calls|
  {
    var phase := s.calls[i].1;
    && Entries(s.log, i) == (if Landed(phase) then 1 else 0)
    && (phase.Done? && phase.outcome == Success ==> phase.landed)
  }

  predicate EntryAccounted(s: Sys, c: Commit) {
    c.call < |s.calls| && c.op == OpOf(s.calls[c.call].0)
  }

  ghost predicate Accounted(s: Sys) {
    && (forall i :: i >= |s.calls| ==> Entries(s.log, i) == 0)
    && (forall i :: 0 <= i < |s.calls| ==> CallAccounted(s, i))
    && (forall k :: 0 <= k < |s.log| ==> EntryAccounted(s, s.log[k]))
  }

  lemma ArriveAccounted(s: Sys, call: Call)
    requires Accounted(s)
    ensures Accounted(s.(calls := s.calls + [(call, Begin)]))
  {
    var s' := s.(calls := s.calls + [(call, Begin)]);
    assert Entries(s.log, |s.calls|) == 0;
    forall i | 0 <= i < |s'.calls| ensures CallAccounted(s', i) {
      assert i < |s.calls| ==> CallAccounted(s, i);
    }
    forall k | 0 <= k < |s'.log| ensures EntryAccounted(s', s'.log[k]) {
      assert EntryAccounted(s, s.log[k]);
    }
  }

  /** A call moves on, and is entered in the log exactly if it landed just now. */
  lemma MoveAccounted(s: Sys, s': Sys, i: nat, next: Phase)
    requires Accounted(s) && i < |s.calls| && !s.calls[i].1.Done?
    requires next.Done? && next.outcome == Success ==> next.landed
    requires s'.calls == s.calls[i := (s.calls[i].0, next)]
    requires s'.log == if Landed(next) then s.log + [Commit(i, OpOf(s.calls[i].0))] else s.log
    ensures Accounted(s')
  {
    LogGrows(None, s.log, Commit(i, OpOf(s.calls[i].0)));
    forall j | 0 <= j < |s'.calls| ensures CallAccounted(s', j) {
      assert CallAccounted(s, j);
    }
    forall k | 0 <= k < |s'.log| ensures EntryAccounted(s', s'.log[k]) {
      assert k < |s.log| ==> EntryAccounted(s, s.log[k]);
    }
  }

  lemma SuccessLanded(defaults: Document, row: Option<Row>, call: Call, phase: Phase, fault: Fault, now: Stamp)
    requires !phase.Done?
    ensures var next := StepCall(defaults, row, call, phase, fault, now).phase;
            next.Done? && next.outcome == Success ==> next.landed
  {
  }

  lemma AccountedStep(defaults: Document, s: Sys, a: Action)
    requires Enabled(s, a) && Accounted(s)
    ensures Accounted(Next(defaults, s, a))
  {
    match a
    case Arrive(call) => ArriveAccounted(s, call);
    case Advance(i, fault, now) =>
      var (call, phase) := s.calls[i];
      SuccessLanded(defaults, s.row, call, phase, fault, now);
      MoveAccounted(s, Next(defaults, s, a), i, StepCall(defaults, s.row, call, phase, fault, now).phase);
  }

  /** Every call takes effect exactly once if it succeeded, and at most once in any case; what it
      contributes is its own patch or delete. */
  lemma {:induction false} EffectOnce(defaults: Document, trace: seq<Sys>, acts: seq<Action>, n: nat)
    requires Run(defaults, trace, acts) && n < |trace|
    ensures Accounted(trace[n])
  {
    if n > 0 {
      EffectOnce(defaults, trace, acts, n - 1);
      AccountedStep(defaults, trace[n - 1], acts[n - 1]);
    }
  }

  /** A conflict means the edit did not land — unless it was an insert whose error came back
      after the row was written. */
  lemma ConflictLandedIff(defaults: Document, row: Option<Row>, call: Call, phase: Phase, fault: Fault, now: Stamp)
    requires !phase.Done?
    requires StepCall(defaults, row, call, phase, fault, now).phase.Done?
    requires StepCall(defaults, row, call, phase, fault, now).phase.outcome == Conflict
    ensures StepCall(defaults, row, call, phase, fault, now).phase.landed <==>
              phase == Saw(None, phase.now) && row.None? && fault == ErrorAfterCommit
  {
  }

  // ---------------------------------------------------------------- without distinct stamps

  /** The two rows hold the same outside the fields of the patch. */
  predicate AgreeOutside(seen: Row, row: Row, patch: Document) {
    Spread(seen.value) - patch.Keys == Spread(row.value) - patch.Keys
  }

  /** In any state, a step that lands is the atomic operation exactly if the fields outside the patch
      are still as they were read: the stamp alone does not tell. */
  lemma StepAtomicIff(defaults: Document, row: Option<Row>, call: Call, phase: Phase, fault: Fault, now: Stamp)
    requires !phase.Done? && Landed(StepCall(defaults, row, call, phase, fault, now).phase)
    ensures Contents(StepCall(defaults, row, call, phase, fault, now).row) == Apply(Contents(row), OpOf(call)) <==>
            (call.Update? && phase.Saw? && phase.seen.Some? ==>
               row.Some? && AgreeOutside(phase.seen.value, row.value, call.patch))
  {
    if call.Update? {
      assert map[] + call.patch == call.patch;
      if phase.seen.Some? {
        SamePatched(Spread(phase.seen.value.value), Spread(row.value.value), call.patch);
      }
    }
  }

  lemma SamePatched(a: Document, b: Document, patch: Document)
    ensures a + patch == b + patch <==> a - patch.Keys == b - patch.Keys
  {
    if a + patch == b + patch {
      assert a - patch.Keys == (a + patch) - patch.Keys == (b + patch) - patch.Keys == b - patch.Keys;
    }
    if a - patch.Keys == b - patch.Keys {
      assert a + patch == (a - patch.Keys) + patch == (b - patch.Keys) + patch == b + patch;
    }
  }

  /** The step, if it lands, finds the fields outside its patch as they were read. */
  predicate StepAgrees(defaults: Document, s: Sys, a: Action)
    requires Enabled(s, a)
  {
    a.Advance? ==>
      var (call, phase) := s.calls[a.i];
      var landed := Landed(StepCall(defaults, s.row, call, phase, a.fault, a.now).phase);
      landed && call.Update? && phase.Saw? && phase.seen.Some? ==>
        s.row.Some? && AgreeOutside(phase.seen.value, s.row.value, call.patch)
  }

  /** What is stored is what the committed operations produce, one after another. */
  ghost predicate Linear(trace: seq<Sys>, k: nat)
    requires k < |trace|
  {
    Contents(trace[k].row) == ApplyAll(Contents(trace[0].row), trace[k].log)
  }

  lemma LinearStep(defaults: Document, s: Sys, a: Action, start: Option<Document>)
    requires Enabled(s, a) && Contents(s.row) == ApplyAll(start, s.log)
    ensures var s' := Next(defaults, s, a);
            Contents(s'.row) == ApplyAll(start, s'.log) <==> StepAgrees(defaults, s, a)
  {
    if a.Advance? {
      var (call, phase) := s.calls[a.i];
      LogGrows(start, s.log, Commit(a.i, OpOf(call)));
      if Landed(StepCall(defaults, s.row, call, phase, a.fault, a.now).phase) {
        StepAtomicIff(defaults, s.row, call, phase, a.fault, a.now);
      }
    }
  }

  /** Whatever the stamps: a run loses no edit exactly if every edit that lands finds the fields it
      does not name as it read them. */
  lemma {:induction false} NoEditLostIff(defaults: Document, trace: seq<Sys>, acts: seq<Action>, n: nat)
    requires Run(defaults, trace, acts) && n < |trace|
    ensures (forall k :: 0 <= k <= n ==> Linear(trace, k)) <==>
              (forall k :: 0 <= k < n ==> StepAgrees(defaults, trace[k], acts[k]))
  {
    if n > 0 {
      NoEditLostIff(defaults, trace, acts, n - 1);
      if Linear(trace, n - 1) {
        LinearStep(defaults, trace[n - 1], acts[n - 1], Contents(trace[0].row));
        assert Linear(trace, n) <==> StepAgrees(defaults, trace[n - 1], acts[n - 1]);
      }
    } else {
      assert Linear(trace, 0);
    }
  }

  ghost predicate Path(defaults: Document, trace: seq<Sys>, acts: seq<Action>) {
    && |trace| == |acts| + 1
    && forall k :: 0 <= k < |acts| ==> Enabled(trace[k], acts[k]) && trace[k + 1] == Next(defaults, trace[k], acts[k])
  }

  /** Call `i` is an edit by `patch` in this phase. */
  predicate EditIn(s: Sys, i: nat, patch: Document, phase: Phase) {
    i < |s.calls| && s.calls[i] == (Update(patch), phase)
  }

  lemma ReadStep(defaults: Document, s: Sys, i: nat, j: nat, p: Document, now: Stamp)
    requires EditIn(s, i, p, Begin) && KnownFields(defaults, p) && i != j
    ensures var s' := Next(defaults, s, Advance(i, Fine, now));
            && s'.row == s.row && EditIn(s', i, p, Saw(s.row, now)) && |s'.calls| == |s.calls|
            && (j < |s.calls| ==> s'.calls[j] == s.calls[j])
  {
  }

  lemma WriteStep(defaults: Document, s: Sys, i: nat, j: nat, p: Document, r: Row, now: Stamp)
    requires EditIn(s, i, p, Saw(Some(r), now)) && s.row.Some? && i != j
    ensures var s' := Next(defaults, s, Advance(i, Fine, 0));
            && |s'.calls| == |s.calls| && (j < |s.calls| ==> s'.calls[j] == s.calls[j])
            && if s.row.value.stamp == r.stamp then
                 s'.row == Some(Row(Merge(r.value, p), now)) && EditIn(s', i, p, Done(Success, true))
               else
                 s'.row == s.row && EditIn(s', i, p, Done(Conflict, false))
  {
  }

  /** Some field the first patch changed is not in the second. */
  ghost predicate ChangesMore(doc: Document, p: Document, q: Document) {
    exists f :: f in p && f !in q && !(f in doc && doc[f] == p[f])
  }

  lemma OverwrittenIff(doc: Document, p: Document, q: Document)
    ensures doc + q != (doc + p) + q <==> ChangesMore(doc, p, q)
  {
    var a, b := doc + q, (doc + p) + q;
    if ChangesMore(doc, p, q) {
      var f :| f in p && f !in q && !(f in doc && doc[f] == p[f]);
      assert f in b && b[f] == p[f];
    } else {
      forall f ensures (f in a <==> f in b) && (f in a ==> a[f] == b[f]) {
      }
    }
  }

  /** Two edits that read the same row, in any state: the second succeeds too exactly if the first
      writes within the very millisecond the row carried; and the first is then lost exactly if it
      changed a field the second does not name. */
  lemma TwoEditsIff(defaults: Document, s: Sys, i: nat, j: nat, p: Document, q: Document, n1: Stamp, n2: Stamp)
    returns (trace: seq<Sys>, acts: seq<Action>)
    requires s.row.Some? && i != j && EditIn(s, i, p, Begin) && EditIn(s, j, q, Begin)
    requires KnownFields(defaults, p) && KnownFields(defaults, q)
    ensures acts == [Advance(i, Fine, n1), Advance(j, Fine, n2), Advance(i, Fine, 0), Advance(j, Fine, 0)]
    ensures Path(defaults, trace, acts) && trace[0] == s
    ensures EditIn(trace[4], i, p, Done(Success, true))
    ensures if n1 == s.row.value.stamp then EditIn(trace[4], j, q, Done(Success, true))
            else EditIn(trace[4], j, q, Done(Conflict, false))
    ensures var first := Apply(Contents(s.row), MergePatch(p));
            if n1 != s.row.value.stamp then Contents(trace[4].row) == first
            else Contents(trace[4].row) != Apply(first, MergePatch(q)) <==> ChangesMore(Spread(s.row.value.value), p, q)
  {
    var r := s.row.value;
    acts := [Advance(i, Fine, n1), Advance(j, Fine, n2), Advance(i, Fine, 0), Advance(j, Fine, 0)];
    var s1 := Next(defaults, s, acts[0]);
    ReadStep(defaults, s, i, j, p, n1);
    var s2 := Next(defaults, s1, acts[1]);
    ReadStep(defaults, s1, j, i, q, n2);
    var s3 := Next(defaults, s2, acts[2]);
    WriteStep(defaults, s2, i, j, p, r, n1);
    var s4 := Next(defaults, s3, acts[3]);
    WriteStep(defaults, s3, j, i, q, r, n2);
    trace := [s, s1, s2, s3, s4];
    OverwrittenIff(Spread(r.value), p, q);
  }

  // ---------------------------------------------------------------- the service object

  /** The settings row and the service's cache, with a call run on its own. */
  class FeedSettingsService {
    const defaults: Document
    var row: Option<Row>
    var cached: bool

    constructor (defaults: Document)
      ensures this.defaults == defaults && row == None && !cached
    {
      this.defaults := defaults;
      row, cached := None, false;
    }

    /** Merges a patch into the stored document. */
    method AdminUpdate(patch: Document, now: Stamp, readFault: Fault, writeFault: Fault) returns (outcome: Outcome)
      modifies `row, `cached
      ensures outcome == Success ==> Contents(row) == Apply(Contents(old(row)), MergePatch(patch)) && !cached
      ensures outcome == Success ==> KnownFields(defaults, patch) && row.value.stamp == now
      ensures outcome == BadRequest <==> !KnownFields(defaults, patch)
      ensures outcome != Success && writeFault != ErrorAfterCommit ==> row == old(row)
      ensures outcome != Success ==> cached == old(cached)
      ensures readFault == writeFault == Fine && KnownFields(defaults, patch) ==> outcome == Success
    {
      if exists f :: f in patch && f !in defaults {
        return BadRequest;
      }
      assert map[] + patch == patch;
      if readFault != Fine {
        return Failed;
      }
      var existing := row;
      if existing.None? {
        if writeFault != Error {
          row := Some(Row(JObj(patch), now));
        }
        if writeFault != Fine {
          return Conflict;
        }
      } else {
        var current := existing.value.value;
        var merged := (if current.JObj? then current.fields else map[]) + patch;
        var updated := writeFault != Error && row.Some? && row.value.stamp == existing.value.stamp;
        if updated {
          row := Some(Row(JObj(merged), now));
        }
        if writeFault != Fine {
          return Failed;
        }
        if !updated {
          return Conflict;
        }
      }
      cached := false;
      outcome := Success;
    }

    /** Drops the override, so the compiled default shows through again. */
    method AdminReset(fault: Fault) returns (outcome: Outcome)
      modifies `row, `cached
      ensures outcome == Success <==> fault == Fine
      ensures fault != Error ==> row == None
      ensures fault == Error ==> row == old(row)
      ensures outcome == Success ==> !cached
    {
      if fault != Error {
        row := None;
      }
      if fault != Fine {
        return Failed;
      }
      cached := false;
      outcome := Success;
    }
  }
}
