# Help24: what its protocols promise

Help24 is a marketplace for services. Clients pay by M-Pesa into escrow, and a NestJS backend moves
the money as events are handled; an admin dashboard matches requests with providers, tunes settings
and keeps its own logins. This project models the parts of both where a property depends on several
steps or several actors, and proves the properties for every input, run or interleaving.

Code that computes is modelled as functions, code that changes things as classes, methods and loops
proved against those functions, and concurrent code as state machines whose steps are the single
database calls (or timer and promise events) between which anything else may happen.

| file | models |
|---|---|
| `EscrowLock`, `EscrowInterleaving`, `EscrowReplay`, `EscrowProcessor` | the handler of `payment.success` that ties a post's one escrow row to the paying transaction: its database steps, all interleavings, all replays, and the service object |
| `SettlementView` | the settlement state shown for a post, as an observer of that handler |
| `PayoutDispatch`, `PayoutInterleaving` | payout calls: their steps, one after another, and overlapping |
| `EventQueue`, `EventService` | the event rows, the retry loop, dead-lettering and manual replay |
| `PeriodicLoop` | the drainable interval loop that drives the processor |
| `JsonDoc`, `FeedSettings` | settings documents, and concurrent guarded edits of one of them |
| `ClientConfigBuild`, `ConfigCache`, `DenialCache` | the client configuration and two caches filled by overlapping reads |
| `PhraseWords`, `TradeRegistry`, `TradeMatching`, `StableSort`, `CandidateRanking`, `TradeEvidence` | matching providers to a request |
| `PasswordRules`, `PasswordChange` | an admin's own password: the rules, and the change against a provider that may fail at any call |
| `SqlLiterals`, `ReferenceSeed`, `CatalogueInsert` | the generated seed migrations: printing, reading back, the checks, and whether the tables take them |
| `PartnerWeeks` | sign-ups per Nairobi week and the member summary |
| `Wrappers` | shared datatypes |

## What the proofs found

Where the code does less than its comments or its purpose say, the model follows the code, and the
exact condition is proved.

- **Escrow theft on a failed read.** `lockEscrowForPayment` ignores the error of its read of the
  incumbent transaction (`backend/src/events/event-processor.service.ts:350`), so a failed read looks
  like a missing transaction and a live payment's row is re-pointed. `EscrowInterleaving.StolenIff`
  gives the exact condition; the safety results assume that this one read is answered.
- **A repair that did not happen is reported.** The guarded write checks for an error, not for a match
  (`:368-381`). `RepairLost` is a run in which the paid transaction's handler reports a repair it lost;
  `RepairRealIff` says when a report is true.
- **The guard has no status.** Safety needs the rest of the backend never to leave a row settled under
  a dead transaction. Promising only to settle rows of live transactions is not enough
  (`SettledWhileLiveThenFailed`).
- **Replays converge except past a foreign settlement.** The row ends with the live payment exactly
  unless it was settled under another transaction before (`EscrowReplay.ReplaysConverge`).
- **Replaying a failed attempt's event can spoil a finished view**: "no payment" becomes
  "inconsistent", exactly when there is a row for it to take (`SettlementView.TerminalViewLostIff`).
- **A guarded write takes what has meanwhile been settled or become alive**, since its guard looks at the
  owner only: `EscrowInterleaving.StepTakesIff` says exactly when, for any step in any state.
- **A payout can be sent twice.** Two calls that overlap both find the transaction paid and both send,
  since the record that follows the transfer has no guard (`backend/src/mpesa/mpesa.service.ts:505-512`,
  `:638-683`). With no transfer refused, a transaction that became releasable once and whose sends were
  recorded is paid more than once exactly if one call picks it before another has recorded
  (`PayoutInterleaving.PaidTwiceIff`, with a run in `OverlapPaysTwice`); with refusals, the two must be calls
  whose transfers went through (`PaidTwiceDespiteRefusalsIff`). One after another they pay twice exactly if a
  send that was not recorded is followed by a call that is not refused (`PayoutDispatch.PaidTwiceIff`).
- **A payout can be lost**: the event counts as processed, nothing is sent, and a transaction is still paid.
  This happens exactly if the handler's first read failed, its error being dropped
  (`backend/src/events/event-processor.service.ts:387-399`), or the newest eligible transaction is one already
  paid out or on its way, which hides an older paid one from the handler, though the payout service would have
  picked it (`PayoutDispatch.DeliveryLostIff`, `ShadowedPayoutIsLost`).
- **The archive advice does not mirror the gate exactly**, as its comment says it does
  (`backend/src/jobs/settlement-state.ts:16-19`, `:148-153`): `SettlementView.AdviceMatchesGateIff` gives the
  posts with several transactions on which it allows what the gate forbids.
- **An event may be retried without ever being dead-lettered**, until it leaves the 24-hour window
  (`EventQueue.ExpiredStays`). `markFailed` counts an unanswered read as zero failures
  (`backend/src/events/events.service.ts:107-113`) and only logs a failed write; `EventQueue.DeadLetteredIff`
  is exact. A failure recorded across the developer reset can undo its dead-lettering
  (`EventService.DeadLetterUndoneIff`).
- **Feed settings.** The stamp alone does not protect an edit. A run loses none exactly if every edit that
  lands finds the fields it does not name as it read them (`FeedSettings.NoEditLostIff`); of two edits that
  read the same row both succeed exactly if the first writes within the millisecond the row carried, and the
  first is then lost exactly if it changed a field the second does not name (`TwoEditsIff`). A failed insert
  is always reported as a conflict, also when it landed (`ConflictLandedIff`); an ill-typed patch value hides
  a good value stored before (`JsonDoc.ReadAfterPatch`).
- **Invalidation reaches neither reads in flight nor failing reads.** The denial cache's comment says a ban
  "takes effect on the next request" (`backend/src/moderation/account-state.service.ts:14-20`). It does exactly
  if no check of the account is in flight that was answered before and is young enough to be cached
  (`DenialCache.InvalidationIsABarrierIff`, with a run in `StaleAfterInvalidate`). For the configuration the
  same holds only as long as no read fails (`ConfigCache.InvalidationWithoutErrorsIff`): a failed read re-stamps
  the last good document for another 60 s, so a kill switch flipped just before an outage does not take effect
  while reads fail. In general an older document can be hit exactly if there is one, held or in flight
  (`ConfigCache.InvalidationIsABarrierIff`). Account ids that contain NUL would forget each other's entries
  (`ForgottenIff`).
- **"Drained" depends on the event loop's rule** that promise callbacks run before timers. Under it
  "drained" always means idle, restarted or not (`PeriodicLoop.PromptDrainedIsIdle`); without it a tick could
  be running, exactly if the loop was started again or already runs another tick (`DrainedWhileRunningIff`).
- **Passwords.** A fully ticked checklist can still be refused, for length in bytes
  (`PasswordRules.ChecklistAccepts`). A failed change leaves the session that proved the current password
  alive unless the sign-out worked (`PasswordChange.FailureLeavesSessions`).
- **Seed migrations.** The generator's checks do not see empty columns, which are printed as NULL, nor the
  parents of places that are not areas (`ReferenceSeed.BuiltIsInsertableIff`), nor, for the catalogue, names
  already taken in the table (`CatalogueInsert.BuiltIsInsertableIff`); when the first repeated profession name
  is the empty one, no repeated name is reported (`NamesPass`).

## Model

| member | source | states |
|---|---|---|
| EscrowLock.LockIsRunAlone | backend/src/events/event-processor.service.ts:307-382 | the step-by-step handler, left alone, has the outcome and the tables of the handler read top to bottom, for every combination of failing calls |
| EscrowLock.OutcomeIff | backend/src/events/event-processor.service.ts:312-381 | each of the six endings of a run by its cause: it throws exactly if its read failed or a write it came to was not answered, and it re-points a row only if that is unsettled and its owner looks dead |
| EscrowLock.EffectIff | backend/src/events/event-processor.service.ts:323-376 | a run leaves the tables alone exactly if it came to no write or the write did not land; otherwise the post has the one row of this transaction and every other row stays |
| EscrowInterleaving.StepGuarantee | backend/src/events/event-processor.service.ts:323-376 | one step, whatever fails, changes a row only if it is this post's, unsettled and owned by a dead transaction, and adds one only if the post had none |
| EscrowInterleaving.InvStep | backend/src/events/event-processor.service.ts:312-376 | what each handler remembers of the row stays sound under its own steps, every other handler's and the rest of the backend |
| EscrowInterleaving.InterleavingSafety | backend/src/events/event-processor.service.ts:312-376 | in every interleaving of any number of handlers with the rest of the backend there is one row per post, and no handler step touches a settled row, a row of a live transaction or another post's row |
| EscrowInterleaving.SettledForever | backend/src/events/event-processor.service.ts:337-344 | over a whole run a settled row stays exactly as it is as long as others leave settled rows alone |
| EscrowInterleaving.StolenIff | backend/src/events/event-processor.service.ts:350-363 | one run takes a live transaction's row away exactly if the read of that transaction failed unnoticed and the write went through |
| EscrowInterleaving.StepTakesIff | backend/src/events/event-processor.service.ts:368-372 | in any state, a handler's step takes a settled or live row exactly if it is the guarded write, its guard matches, and the row is settled by now or its owner alive |
| EscrowInterleaving.IncumbentReadErrorSteals | backend/src/events/event-processor.service.ts:350-376 | a concrete theft of a paid transaction's locked row |
| EscrowInterleaving.SettledWhileLiveThenFailed | backend/src/events/event-processor.service.ts:368-372 | without a status in the guard, a row settled while its transaction lived, which fails later, is resurrected as locked |
| EscrowInterleaving.RepairLost | backend/src/events/event-processor.service.ts:365-381 | a run, from the two deliveries on, in which the paid transaction's handler reports a repair and the row belongs to a failed attempt |
| EscrowInterleaving.RepairRealIff | backend/src/events/event-processor.service.ts:365-381 | a reported repair is real exactly if the row still belonged to the transaction read before |
| EscrowReplay.LockOnRows | backend/src/events/event-processor.service.ts:307-382 | a run changes its own post's row as its four cases say, and no other row or transaction |
| EscrowReplay.NeverMoved | backend/src/events/event-processor.service.ts:334-344 | once the live payment owns the row, or another transaction settled it, no sequence of deliveries moves it |
| EscrowReplay.ReplaysConverge | backend/src/events/event-processor.service.ts:102-118 | in any sequence of deliveries, retries and replays in which the live payment's handler ran once, the row ends up its own, exactly unless it was settled elsewhere at the start |
| EscrowReplay.FinalRow | backend/src/events/event-processor.service.ts:221-231 | the final row is a function of the starting row alone |
| EscrowReplay.Confluence | backend/src/events/event-processor.service.ts:102-118 | any two such histories end in the same row |
| EscrowProcessor.Database.SelectByPost | backend/src/events/event-processor.service.ts:312-316 | the row of the post or none, and nothing on error |
| EscrowProcessor.Database.Insert | backend/src/events/event-processor.service.ts:324-326 | refused when the post has a row; an error may follow a committed insert |
| EscrowProcessor.Database.UpdateWhereOwner | backend/src/events/event-processor.service.ts:368-372 | writes only under the guard, and matching nothing is no error |
| EscrowProcessor.EventProcessorService.LockEscrowForPayment | backend/src/events/event-processor.service.ts:307-382 | the service method leaves the tables and gives the outcome of the specified run |
| SettlementView.DeriveSettlementState | backend/src/jobs/settlement-state.ts:161-190 | a finished view may be archived; one held, on its way or frozen may not |
| SettlementView.StateIff | backend/src/jobs/settlement-state.ts:104-146 | each of the shown states by the two records it stands for: released, refunded and held need both of them to say so, and a dispute is shown as one exactly if neither says the money moved |
| SettlementView.HandlerOnRow | backend/src/events/event-processor.service.ts:307-382 | a faultless run rewrites the row exactly if it is missing or unsettled under another, dead transaction |
| SettlementView.PaidRepair | backend/src/jobs/settlement-state.ts:104-146 | for a paid transaction the handler turns exactly the views in need of repair from inconsistent into in-escrow and leaves all others |
| SettlementView.OtherViews | backend/src/jobs/jobs.service.ts:666-683 | seen from any other transaction only the one that lost the row changes, from inconsistent to no payment |
| SettlementView.TerminalViewLostIff | backend/src/jobs/settlement-state.ts:118-146 | a finished view is lost exactly if a dead transaction's event finds a row to take |
| SettlementView.AdviceMatchesGateIff | backend/src/jobs/jobs.service.ts:644-694 | the gate over all rows allows archiving exactly if the advice of the latest transaction does and no money is held by an older transaction or another row |
| PayoutDispatch.DeliverySends | backend/src/events/event-processor.service.ts:384-409 | a delivery nothing overlaps pays exactly the newest eligible transaction, if it is still paid, as far as its calls get, and touches no other |
| PayoutDispatch.DeliveryLostIff | backend/src/events/event-processor.service.ts:387-405 | with a transaction paid, a delivery ends without an error and without a send exactly if its first read failed or the newest eligible transaction is not a paid one |
| PayoutDispatch.ShadowedPayoutIsLost | backend/src/events/event-processor.service.ts:401-405 | a paid transaction behind a newer one that is paid out or on its way is lost with no call failing |
| PayoutDispatch.PickIff | backend/src/mpesa/mpesa.service.ts:504-512 | a call picks the newest paid transaction and a ruling the newest paid or disputed one, and throws exactly if the read failed or there is none |
| PayoutDispatch.DeliveryPays | backend/src/mpesa/mpesa.service.ts:505-683 | what a delivery leaves of the transaction it pays: one send exactly if no call before it failed, and no longer paid exactly if the send was recorded |
| PayoutDispatch.DeliveriesSend | backend/src/mpesa/mpesa.service.ts:505-683 | any sequence of deliveries sends once for every call not refused, up to and including the first recorded one, for one transaction only |
| PayoutDispatch.PaidTwiceIff | backend/src/mpesa/mpesa.service.ts:637-683 | deliveries one after another pay more than once exactly if an unrecorded send, before any recorded one, is followed by a call not refused |
| PayoutDispatch.PayoutHandler.SelectNewest | backend/src/events/event-processor.service.ts:387-394 | the newest transaction in the given states, and none when the read fails |
| PayoutDispatch.PayoutHandler.HandlePayoutRequested | backend/src/events/event-processor.service.ts:384-409 | the handler is the specified delivery, failed reads included |
| PayoutDispatch.PayoutHandler.ReleasePayout | backend/src/mpesa/mpesa.service.ts:487-683 | the payout service picks, sends and records as specified, and throws exactly when one of them fails |
| PayoutInterleaving.InvStep | backend/src/mpesa/mpesa.service.ts:505-683 | every step of every overlapping call, and whatever else moves a transaction, keeps sends, entries and calls in balance |
| PayoutInterleaving.DispatchBound | backend/src/mpesa/mpesa.service.ts:505-683 | in every interleaving of deliveries, finance repairs and arbitration rulings, a transaction is sent at most once per entry into a releasable state, plus once per call that picked it while another was at it, plus once per unrecorded send |
| PayoutInterleaving.AtMostOnePayout | backend/src/events/event-processor.service.ts:463-474 | one call at a time, a transaction that became releasable once and whose sends were recorded is sent at most once |
| PayoutInterleaving.PaidTwiceIff | backend/src/mpesa/mpesa.service.ts:505-683 | in every interleaving, with no transfer refused or still to come, a transaction that became releasable once and whose sends were recorded is sent more than once exactly if two calls overlap, one picking it before the other recorded |
| PayoutInterleaving.PaidTwiceDespiteRefusalsIff | backend/src/mpesa/mpesa.service.ts:636-650 | with refusals, exactly if two calls overlap whose transfers came and were not refused |
| PayoutInterleaving.PaidForIff | backend/src/mpesa/mpesa.service.ts:636-650 | a call has paid a transaction exactly if its transfer step came and was not refused |
| PayoutInterleaving.OverlapPaysTwice | backend/src/events/event-processor.service.ts:102-118 | in every state with a newest eligible transaction that is paid, two overlapping deliveries pay it twice, both sends recorded |
| PayoutInterleaving.PaidTwiceFromTheStart | backend/src/events/event-processor.service.ts:102-118 | a run from the empty post: one transaction, paid once, two deliveries, two recorded sends |
| PayoutInterleaving.EntriesAreCounted | backend/src/mpesa/mpesa.service.ts:504-512 | how often a transaction became releasable, as the bounds count it, is how often its status did in the run |
| PayoutInterleaving.DeliverIsRunAlone | backend/src/events/event-processor.service.ts:384-409 | the step-by-step delivery, left alone, is the delivery from top to bottom |
| EventQueue.TickAt | backend/src/events/event-processor.service.ts:122-137 | a tick attempts exactly the first hundred live rows, oldest first, and leaves every other row as it is |
| EventQueue.RowAfterTick | backend/src/events/event-processor.service.ts:122-177 | what a tick leaves of every row: processed after a success, one more failure counted after a failure, dead-lettered at the third, and unchanged outside the batch or where the write did not land |
| EventQueue.ThreeTicks | backend/src/events/event-processor.service.ts:122-177 | three ticks finish the hundred oldest live events whatever the handlers do |
| EventQueue.QueueDrains | backend/src/events/event-processor.service.ts:122-177 | without new events and with the event table answering, a queue of up to 100·b live events is empty after 3·b ticks |
| EventQueue.AtMostThreeAttempts | backend/src/events/events.service.ts:105-157 | no event is attempted more often than it has retries left, and one that used them up is processed or dead-lettered |
| EventQueue.FinishedStays | backend/src/events/events.service.ts:141-149 | a processed or dead-lettered row is never attempted or changed by ticks again |
| EventQueue.ExpiredStays | backend/src/events/events.service.ts:139-147 | an event older than the window is never attempted or changed by ticks again |
| EventQueue.DeadLetteredIff | backend/src/events/events.service.ts:105-123 | an event that always fails is dead-lettered exactly if, among the failures that were written down, two count reads after the first are answered in a row |
| EventQueue.EndsAsAttempted | backend/src/events/events.service.ts:90-128 | over any ticks an unprocessed event ends processed exactly if an attempt of it succeeded and that was written, and one that was not dead-lettered ends so only after a failure that was counted and written |
| EventService.ExhaustedIsDead | backend/src/events/events.service.ts:105-130 | in every interleaving of reads, writes, replays, resets and developer dead-lettering a row with three failures is dead-lettered |
| EventService.QueueSizeIsExact | backend/src/events/events.service.ts:202-213 | the reported queue size counts exactly the rows the retry loop selects from |
| EventService.DeadLetterUndoneIff | backend/src/dev/dev.service.ts:89-94 | a failure recorded across any other actions, the developer reset included, makes its event live again exactly if it is not processed, is in the window, and the count read leaves an attempt |
| EventService.FetchedIff | backend/src/events/events.service.ts:138-157 | a row is fetched exactly if it is live and fewer than the limit are older and live |
| EventService.FirstLiveIsOldest | backend/src/events/events.service.ts:148-149 | a batch is in order of creation and no live row left out is older than one fetched |
| EventService.FailedReplayRequeuesIff | backend/src/events/event-processor.service.ts:102-118 | whatever fails, a replay whose handler fails leaves the event in the queue exactly if it was exhausted and reset, or unprocessed with an attempt left |
| EventService.EventsService.Emit | backend/src/events/events.service.ts:50-85 | appends one unprocessed row and reports its id; none is reported when the call fails, whether or not the row was written |
| EventService.EventsService.Update | backend/src/events/events.service.ts:91-94 | changes exactly the rows of one event, or none when the call fails |
| EventService.EventsService.MarkProcessed | backend/src/events/events.service.ts:90-99 | sets one event processed if the write lands, and leaves the others |
| EventService.EventsService.MarkFailed | backend/src/events/events.service.ts:105-130 | counts the failure from the count it read, or from zero, dead-letters at the third, and reports that even when the write fails |
| EventService.EventsService.FetchUnprocessed | backend/src/events/events.service.ts:138-157 | the hundred oldest live rows in order of creation, and none when the call fails |
| EventService.EventsService.FetchById | backend/src/events/events.service.ts:160-169 | the row of the id, exactly if there is one and the call is answered |
| EventService.EventsService.QueueSize | backend/src/events/events.service.ts:202-213 | the rows unprocessed and not dead-lettered in the window, without a look at the retry count, or -1 |
| EventService.EventsService.ResetForReplay | backend/src/events/events.service.ts:227-236 | clears the count and both flags of one event if the write lands |
| EventService.EventProcessorService.RunHandler | backend/src/events/event-processor.service.ts:141-177 | one attempt, with the errors of the event table swallowed |
| EventService.EventProcessorService.ReplayById | backend/src/events/event-processor.service.ts:102-118 | an exhausted event starts over if the reset lands, and every event that is found is attempted at once |
| EventService.EventProcessorService.RetryUnprocessed | backend/src/events/event-processor.service.ts:122-137 | the fetch and the loop over the batch are the specified tick, of which RowAfterTick says what it leaves of each row, and nothing when the fetch fails |
| PeriodicLoop.InvStep | backend/src/common/periodic-task.ts:54-116 | every start, firing, settlement, stop, timeout and restart keeps the loop invariant |
| PeriodicLoop.AtMostOneTick | backend/src/common/periodic-task.ts:60-75 | at most one tick is running at any moment |
| PeriodicLoop.NoTickAfterStop | backend/src/common/periodic-task.ts:85-90 | between a stop and the next start no tick begins |
| PeriodicLoop.DrainedMeansIdle | backend/src/common/periodic-task.ts:92-112 | "drained" is reported only with the awaited tick done and, unless restarted, none in flight |
| PeriodicLoop.StopIsBounded | backend/src/common/periodic-task.ts:97-112 | a stop has returned once its bound is passed: drained, the moment its tick settled, exactly if that was before the deadline, and timed out at the deadline if later or never |
| PeriodicLoop.StopWithinTimeout | backend/src/common/periodic-task.ts:85-116 | from the call on: it awaits the tick in flight, has returned once its own timeout has passed, drained at the time the tick settled if that was earlier, timed out at the timeout if it settled later or never; with no tick it waits for nothing |
| PeriodicLoop.SomeWaitEnds | backend/src/common/periodic-task.ts:97-105 | in every state with a waiting stop, the one with the nearest deadline can and does time out there |
| PeriodicLoop.ReturnsOnce | backend/src/common/periodic-task.ts:104-115 | what a stop returned never changes |
| PeriodicLoop.PromptDrainedIsIdle | backend/src/common/periodic-task.ts:72-74 | with callbacks before timers "drained" always means that no tick is running, restarted or not |
| PeriodicLoop.DrainedWhileRunningIff | backend/src/common/periodic-task.ts:54-112 | with callbacks in any order a waiting stop can report "drained" with a tick in flight exactly if the loop was started again or runs another tick |
| PeriodicLoop.DrainedAfterRestart | backend/src/common/periodic-task.ts:54-112 | its witness from the initial state |
| PeriodicLoop.PeriodicTask.Start | backend/src/common/periodic-task.ts:54-58 | idempotent; clears the stopping flag |
| PeriodicLoop.PeriodicTask.Tick | backend/src/common/periodic-task.ts:60-66 | begins a tick exactly if none is in flight and the loop is not stopping |
| PeriodicLoop.PeriodicTask.TickSettled | backend/src/common/periodic-task.ts:72-74 | the tick in flight ends, resolved or rejected |
| PeriodicLoop.PeriodicTask.Stop | backend/src/common/periodic-task.ts:85-93 | clears the interval and returns the tick to await |
| JsonDoc.Merge | backend/src/feed/feed-settings.service.ts:250-262 | the loop gives each default's field the stored value exactly if its type fits |
| JsonDoc.MergeNumberMap | backend/src/feed/feed-settings.service.ts:269-279 | the loop takes every finite entry over the defaults |
| JsonDoc.AcceptsIff | backend/src/feed/feed-settings.service.ts:255-259 | a stored value replaces a default exactly if both are booleans, texts, lists, objects or null, or numbers of which the stored one is finite |
| JsonDoc.MergedTwice | backend/src/app-config/app-config.service.ts:182-194 | merging a merged document again changes nothing |
| JsonDoc.ReadAfterPatch | backend/src/feed/feed-settings.service.ts:195-201 | what a field reads after a patch: the patch value, the default if ill-typed, what it read before if not named |
| FeedSettings.StepRefines | backend/src/feed/feed-settings.service.ts:173-217 | a database step that lands is the atomic merge or delete on what is stored at that moment, and no other step stores anything |
| FeedSettings.EditAlone | backend/src/feed/feed-settings.service.ts:160-224 | an edit nobody overlaps succeeds, with its stamp and the fields of the old row and the patch |
| FeedSettings.NoLostEdits | backend/src/feed/feed-settings.service.ts:160-241 | in every interleaving, with distinct commit stamps, the document is the committed merges and deletes applied in commit order |
| FeedSettings.EffectOnce | backend/src/feed/feed-settings.service.ts:160-241 | every successful call takes effect exactly once, any call at most once, and contributes its own patch or delete |
| FeedSettings.ConflictLandedIff | backend/src/feed/feed-settings.service.ts:185-193 | a reported conflict landed exactly if it was an insert whose error came after the write |
| FeedSettings.StepAtomicIff | backend/src/feed/feed-settings.service.ts:195-208 | in any state a step that lands is the atomic operation exactly if the fields outside its patch are as they were read |
| FeedSettings.NoEditLostIff | backend/src/feed/feed-settings.service.ts:160-241 | whatever the stamps, a run loses no edit exactly if that holds of every edit that lands |
| FeedSettings.TwoEditsIff | backend/src/feed/feed-settings.service.ts:183-216 | of two edits that read the same row both succeed exactly if the first writes within the millisecond the row carried, and the first is then lost exactly if it changed a field the second does not name |
| FeedSettings.FeedSettingsService.AdminUpdate | backend/src/feed/feed-settings.service.ts:160-224 | success merges the patch, stamps the row and drops the cache; every failure without a late error leaves the row |
| FeedSettings.FeedSettingsService.AdminReset | backend/src/feed/feed-settings.service.ts:235-241 | deletes the override and drops the cache |
| ClientConfigBuild.DefaultsMeetContract | backend/src/app-config/client-config.ts:105-140 | the compiled defaults are well typed and have the clamped timers |
| ClientConfigBuild.BuildIsTotal | backend/src/app-config/app-config.service.ts:196-221 | for every table content the config is complete and well typed, with whole timers in [2,60], [6,120] and [5,1440] |
| ClientConfigBuild.BuiltField | backend/src/app-config/app-config.service.ts:182-221 | every field of the built config is the stored value, if its row is an object and its type fits, and the default otherwise; a timer is that value rounded to the next whole number within its bounds |
| ClientConfigBuild.OtherRowsIgnored | backend/src/app-config/app-config.service.ts:93-101 | rows outside the contract, and contract rows that are no objects, have no influence |
| ClientConfigBuild.BuildIsFixpoint | backend/src/app-config/app-config.service.ts:182-221 | storing the built config and building again gives the same config |
| ClientConfigBuild.BuildConfig | backend/src/app-config/app-config.service.ts:196-221 | merging and then clamping in place is the specified build |
| ConfigCache.BoundedStaleness | backend/src/app-config/app-config.service.ts:74-107 | however reads overlap, without read errors every request is served a document read less than 60 s before it began |
| ConfigCache.DefaultsNeverReturn | backend/src/app-config/app-config.service.ts:80-91 | through errors and invalidations, once a read succeeded no request is served the defaults again |
| ConfigCache.InvalidationIsABarrierIff | backend/src/app-config/app-config.service.ts:80-116 | from any state and whatever fails, a later hit can be older than an invalidation exactly if an older document is held or in an answer in flight, of whatever age |
| ConfigCache.InvalidationWithoutErrorsIff | backend/src/app-config/app-config.service.ts:114-116 | without read errors, exactly if an answer read before it and still young enough is in flight |
| ConfigCache.AnsweredThenHit | backend/src/app-config/app-config.service.ts:74-116 | a waiting request gets the document the database answers, or the last good one, or the defaults, which is served again exactly within 60 s of its start and not after an invalidation |
| ConfigCache.AppConfigService.ClientConfig | backend/src/app-config/app-config.service.ts:74-107 | an undisturbed request is the specified hit or fill |
| ConfigCache.AppConfigService.Invalidate | backend/src/app-config/app-config.service.ts:114-116 | expires the cache and keeps the last good document |
| DenialCache.BoundedStaleness | backend/src/moderation/account-state.service.ts:75-100 | errors included, a request is served an answer read less than 15 s before it began or, failing its own check, no denial; the cache never passes 5,000 entries |
| DenialCache.ServedIsAnswered | backend/src/moderation/account-state.service.ts:75-100 | in every run a request that was served an answer read at some time got a denial exactly if a check of its account and capability was answered with that denial at that time |
| DenialCache.AnsweredThenHit | backend/src/moderation/account-state.service.ts:75-100 | a waiting request gets what the database answers, a failed check being no denial, and that answer is served again exactly within 15 s of its start |
| DenialCache.InvalidationIsABarrierIff | backend/src/moderation/account-state.service.ts:103-108 | from any state, an action takes effect on the account's next check exactly if no earlier check of it is in flight, answered before and still young enough to be cached |
| DenialCache.StaleAfterInvalidate | backend/src/moderation/account-state.service.ts:97-108 | a run from the start in which it does not |
| DenialCache.KeysAreDistinct | backend/src/moderation/account-state.service.ts:76-76 | two account-capability pairs share an entry only if equal |
| DenialCache.ForgottenIff | backend/src/moderation/account-state.service.ts:103-108 | an invalidation drops another account's entry exactly if that id continues the first after a NUL |
| DenialCache.AccountStateService.Denial | backend/src/moderation/account-state.service.ts:75-100 | an undisturbed request is the specified hit, failure or store; without a hit it serves the denial the database answered, and none otherwise, and stores the same for 15 s |
| DenialCache.AccountStateService.Invalidate | backend/src/moderation/account-state.service.ts:103-108 | the loop leaves no key of the account and every other entry |
| PhraseWords.IncludesIff | admin-dashboard/lib/provider-matching.ts:258-260 | substring search on padded words is the search for a contiguous block of words |
| PhraseWords.MentionsIff | admin-dashboard/lib/provider-matching.ts:262-267 | a token is mentioned exactly if its words are a block of the text's words and the phrase has three characters |
| PhraseWords.RunsOfPadded | admin-dashboard/lib/provider-matching.ts:258-260 | splitting a padded string gives its words back |
| TradeRegistry.BuildRegistry | admin-dashboard/lib/provider-matching.ts:149-179 | every lookup in the built indexes is the set a full scan of the trades defines |
| TradeRegistry.IsLabelIff | admin-dashboard/lib/provider-matching.ts:155-174 | a label names a trade exactly if, trimmed and lowercased, it is the name, an alias, or the name of the category the trade maps to |
| TradeRegistry.ResolveLabel | admin-dashboard/lib/provider-matching.ts:188-202 | the loops give the specified exact and loose trades |
| TradeRegistry.SharesWordsIff | admin-dashboard/lib/provider-matching.ts:195-198 | the two-way containment test means that one word list is a block of the other |
| TradeRegistry.ResolvedIff | admin-dashboard/lib/provider-matching.ts:188-202 | a label resolves exactly by the trades that carry it, and loosely, only if none does, by the trades of every category sharing words |
| TradeMatching.ListOfferTrades | admin-dashboard/lib/provider-matching.ts:226-244 | the list built is the specified set of claimed trades |
| TradeMatching.MoreTradesNeverWeaker | admin-dashboard/lib/provider-matching.ts:284-302 | more trades never lose or weaken the tier |
| TradeMatching.TierOf | admin-dashboard/lib/provider-matching.ts:284-302 | the nested loops with early returns give the strongest tier whose rule holds |
| TradeMatching.CategoryTradeIsExact | admin-dashboard/lib/provider-matching.ts:269-302 | a registry trade with the request's category is always in the request's exact set |
| TradeMatching.TradesAreDerived | admin-dashboard/lib/provider-matching.ts:205-244 | every trade the matcher looks at is a registry trade or carries no category |
| TradeMatching.SameNeedsTheLabel | admin-dashboard/lib/provider-matching.ts:284-302 | with an empty exact set "same" arises only from a literally equal offer category |
| TradeEvidence.LabelIff | admin-dashboard/lib/provider-matching.ts:188-202 | from the two tables alone: a label resolves exactly to the trades labelled so, and loosely, if there are none, to those labelled by a category it shares words with |
| TradeEvidence.OfferTierIff | admin-dashboard/lib/provider-matching.ts:226-302 | the tier of an offer from the two tables, its category and the request alone, without the registry, the resolved labels or the lists of trades |
| TradeEvidence.ProfessionTierIff | admin-dashboard/lib/provider-matching.ts:205-302 | the same for a provider's profession that is a row of the table |
| TradeEvidence.FreeTextTierIff | admin-dashboard/lib/provider-matching.ts:205-213 | and for one that is a free text, which can only be a mention |
| StableSort.SortSorts | admin-dashboard/lib/provider-matching.ts:349-355 | the sort gives an ordered permutation |
| StableSort.SortIsStable | admin-dashboard/lib/provider-matching.ts:349-349 | elements that tie keep their order |
| StableSort.SortedIsUnique | admin-dashboard/lib/provider-matching.ts:355-355 | two ordered lists of the same elements are equal when the comparator never ties |
| CandidateRanking.CandidatesOrdered | admin-dashboard/lib/provider-matching.ts:317-324 | the comparator is a strict order, total on candidates of different users |
| CandidateRanking.TierIsStrongest | admin-dashboard/lib/provider-matching.ts:331-353 | a provider is a candidate exactly if not the author and something matches; the tier is the strongest evidence: the same work if any of it is, a mention only if none is better |
| CandidateRanking.DistanceIsNearest | admin-dashboard/lib/provider-matching.ts:352-353 | the distance is the smallest known one of the matching offers |
| CandidateRanking.MoreEvidenceNeverWeaker | admin-dashboard/lib/provider-matching.ts:331-353 | adding offers or professions never removes a candidate or weakens its tier |
| CandidateRanking.RankedIsSorted | admin-dashboard/lib/provider-matching.ts:327-356 | the list holds exactly the candidates of the seeds, in the comparator's order, which RankedInOrder spells out |
| CandidateRanking.RankedInOrder | admin-dashboard/lib/provider-matching.ts:317-356 | of any two candidates the earlier has the stronger tier; at the same tier a known distance stands before an unknown one and the smaller first; then more offers; then the smaller id |
| CandidateRanking.OffersInOrder | admin-dashboard/lib/provider-matching.ts:349-349 | the same order for one candidate's offers, which are its matching ones, tied ones in the provider's order |
| CandidateRanking.ProfileIsFirst | admin-dashboard/lib/provider-matching.ts:340-345 | among equally strong professions the first names the profile |
| CandidateRanking.BlankOfferMatchesNothing | admin-dashboard/lib/provider-matching.ts:226-228 | an offer without a category matches no request |
| CandidateRanking.RankingIgnoresOrder | admin-dashboard/lib/provider-matching.ts:327-356 | every permutation of the seeds gives the same list |
| CandidateRanking.MatchOffers | admin-dashboard/lib/provider-matching.ts:334-338 | the loop over offers gives the matching ones with their tiers |
| CandidateRanking.MatchProfile | admin-dashboard/lib/provider-matching.ts:340-345 | the loop over professions gives the first of the strongest |
| CandidateRanking.CandidatesFor | admin-dashboard/lib/provider-matching.ts:327-356 | the loops and sorts give the specified ranking, of any two candidates the stronger tier first and then the nearer |
| PasswordRules.BytesBounds | admin-dashboard/lib/admin-password.ts:62-64 | the UTF-8 length is between one and three times the number of code units |
| PasswordRules.BytesOfBoth | admin-dashboard/lib/admin-password.ts:62-64 | the encoding of a concatenation is as long as its parts together, less two bytes where a surrogate pair was cut |
| PasswordRules.AcceptedSizes | admin-dashboard/lib/admin-password.ts:56-66 | an accepted password has 8 to 72 code units, and the byte ceiling bites only from 25 up |
| PasswordRules.Strength | admin-dashboard/lib/admin-password.ts:81-88 | the counted score is the specified one |
| PasswordRules.StrengthIsMonotone | admin-dashboard/lib/admin-password.ts:73-88 | the meter is zero exactly for refused passwords, and typing on lowers it exactly if the byte ceiling is passed |
| PasswordRules.StrongIff | admin-dashboard/lib/admin-password.ts:81-88 | the top score is for accepted passwords of twelve code units or more that miss at most one kind of character, the middle one for exactly one of the two |
| PasswordRules.ValidateNewAndConfirm | admin-dashboard/lib/admin-password.ts:140-160 | the errors of the two shared fields |
| PasswordRules.ValidateChange | admin-dashboard/lib/admin-password.ts:163-167 | the same and the current password's own error |
| PasswordRules.FormErrors | admin-dashboard/lib/admin-password.ts:140-167 | what each field says, and that the form says nothing exactly if the new password is accepted, repeated, and not the current one |
| PasswordRules.ChecklistAccepts | admin-dashboard/lib/admin-password.ts:96-117 | the field is accepted exactly if the checklist is fully ticked and the byte ceiling is kept |
| PasswordRules.TickedButRefused | admin-dashboard/lib/admin-password.ts:96-117 | a fully ticked password that the form refuses |
| PasswordChange.UpdateIsEarned | admin-dashboard/lib/admin-password.ts:428-452 | the update is asked for only with an accepted password, by someone who gave the current password of the signed-in account |
| PasswordChange.PasswordsAfter | admin-dashboard/lib/admin-password.ts:423-471 | the only password ever changed is the signed-in account's own, and only by an update that landed |
| PasswordChange.SucceedsIff | admin-dashboard/lib/admin-password.ts:423-471 | a change succeeds exactly if the form is right, the session names a user with a password, the sign-in opens that user's session and the update is accepted |
| PasswordChange.VerifyReasons | admin-dashboard/lib/admin-password.ts:331-341 | a refused sign-in, reason by reason: a wrong password exactly for that code, or that message in any case |
| PasswordChange.UpdateReasons | admin-dashboard/lib/admin-password.ts:348-381 | a refused update, reason by reason: the outcome is unknown exactly if the error is of a kind behind which the update may have landed |
| PasswordChange.UpdateBlames | admin-dashboard/lib/admin-password.ts:315-381 | which field a definite refusal blames, and for what |
| PasswordChange.ToldTheTruth | admin-dashboard/lib/admin-password.ts:423-471 | success means the new password is set; every failure but an unknown outcome means nothing changed, if an update refused with an error other than a dropped or unknown one or a 5xx did not land |
| PasswordChange.MisledIff | admin-dashboard/lib/admin-password.ts:343-381 | with a lying provider the admin is misled exactly if an accepted update did not land, or one did that was refused with an error that rules it out |
| PasswordChange.OthersAreSignedOut | admin-dashboard/lib/admin-password.ts:24-30 | after success the fresh session is the account's only one, other accounts keep theirs, and a kept browser session is live |
| PasswordChange.StrandedIff | admin-dashboard/lib/admin-password.ts:455-470 | a signed-in browser loses its session exactly if the update landed and the fresh session was not adopted |
| PasswordChange.FailureLeavesSessions | admin-dashboard/lib/admin-password.ts:443-466 | a definite failure leaves all sessions as they were, except one that proved the current password and was not signed out |
| PasswordChange.ResetToldTheTruth | admin-dashboard/lib/admin-password.ts:478-492 | the same promise for a reset link, whose own session survives |
| PasswordChange.ResetMisledIff | admin-dashboard/lib/admin-password.ts:478-492 | the exact condition for misleading the holder of a reset link |
| PasswordChange.NeverLockedOut | admin-dashboard/lib/admin-password.ts:273-287 | over any sequence of changes and resets with failures the password is always among those the messages left the person to try, and no other account's changes |
| PasswordChange.Dashboard.ChangeOwnPassword | admin-dashboard/lib/admin-password.ts:423-471 | the sequence of calls has the specified outcome and effect on passwords, sessions and browser |
| PasswordChange.Dashboard.ResetOwnPassword | admin-dashboard/lib/admin-password.ts:478-492 | likewise for a reset link |
| SqlLiterals.QuotedBack | scripts/build_reference_seed.js:35-36 | a doubled-quote string constant reads back as the string |
| SqlLiterals.ItemsBack | scripts/build_reference_seed.js:39-42 | the elements of a printed array read back one by one |
| SqlLiterals.CellBack | scripts/build_reference_seed.js:35-42 | every printed cell reads back as the value its column stores |
| SqlLiterals.TableRoundTrip | scripts/build_reference_seed.js:70-76 | reading a printed VALUES list gives exactly the rows, empty strings and missing values as NULL, for all strings |
| ReferenceSeed.PlacesRoundTrip | scripts/build_reference_seed.js:70-76 | the inserted places are, in order and column by column, the asset's |
| ReferenceSeed.LocationDefaults | scripts/build_reference_seed.js:70-76 | a missing rank is stored as 300, a missing or empty country as the asset's |
| ReferenceSeed.CategoriesRoundTrip | scripts/build_reference_seed.js:243-245 | the same for the categories |
| ReferenceSeed.ProfessionsRoundTrip | scripts/build_reference_seed.js:247-253 | the same for the professions |
| ReferenceSeed.AssertUnique | scripts/build_reference_seed.js:48-55 | finds the first repeated key, or none exactly if all differ |
| ReferenceSeed.BuildLocations | scripts/build_reference_seed.js:58-76 | succeeds exactly if ids differ and every area's parent is known, prints the places then, and otherwise reports the first repeated id or an area without a parent |
| ReferenceSeed.BuiltIsInsertableIff | scripts/build_reference_seed.js:141-189 | a checked seed goes into the table, whatever earlier runs stored, exactly if it has an entry, no mandatory column is empty, and unchecked parents are in the asset or stored |
| ReferenceSeed.MissingIff | scripts/build_reference_seed.js:238-241 | a legacy id is reported missing exactly if the catalogue lacks it |
| ReferenceSeed.BuildProfessions | scripts/build_reference_seed.js:219-253 | succeeds exactly if ids differ, names pass, categories are known and no legacy id is dropped, prints both lists then, and otherwise reports a fault the catalogue has |
| CatalogueInsert.InsertIff | scripts/build_reference_seed.js:370-394 | inserting row by row, with stored ids updated, goes through exactly if rows are complete, ids differ, and new names are free where they must be unique |
| CatalogueInsert.BuiltIsInsertableIff | scripts/build_reference_seed.js:314-394 | a checked catalogue goes into tables with any contents exactly if no mandatory column is empty and no new profession's name is taken by a stored or another new one |
| CatalogueInsert.FreshNamesDiffer | scripts/build_reference_seed.js:225-227 | into an empty table the generator's own name check suffices |
| PartnerWeeks.StartOfWeekIff | admin-dashboard/lib/partners/rules.ts:95-100 | the week start is the one Monday whose seven Nairobi days hold the moment |
| PartnerWeeks.CountsConserve | admin-dashboard/lib/partners/rules.ts:101-110 | the bucket counts add up to the sign-ups whose week is in the window |
| PartnerWeeks.LandsOnce | admin-dashboard/lib/partners/rules.ts:106-109 | a sign-up lands in at most one bucket, and in one exactly if its week is in the window |
| PartnerWeeks.WeeklyCounts | admin-dashboard/lib/partners/rules.ts:94-111 | buckets seven days apart ending with the current week, each counting its own sign-ups; a time that does not parse throws |
| PartnerWeeks.Summarise | admin-dashboard/lib/partners/rules.ts:80-91 | every counter is the number of rows of its kind |
| PartnerWeeks.SummaryConserves | admin-dashboard/lib/partners/rules.ts:80-91 | the three statuses add up to the credited members, and the three methods do exactly if nobody came by another |
| PartnerWeeks.StatusOverTime | admin-dashboard/lib/partners/rules.ts:63-67 | as time passes a status changes only from in progress to not qualified |

## Left out

- InterleavingSafety: assumes that the read of the incumbent transaction is answered, because the code ignores its error; StolenIff gives what happens otherwise.
- ReplaysConverge: deliveries run one at a time, and those of failed attempts have that same read answered, for the same reason.
- PaidRepair: for faultless database calls; the failing ones are covered by LockOnRows.
- QueueDrains: the calls to the event table succeed and no event is added meanwhile; AtMostThreeAttempts likewise. What failing calls do is in DeadLetteredIff.
- TickAt: creation times do not tie, since the source leaves the order of ties open.
- RetryUnprocessed: a tick on its own; replays during a tick are interleaved as single row writes in ExhaustedIsDead.
- PayoutInterleaving.PaidTwiceIff: for a transaction that became releasable once and whose sends were recorded, with no transfer refused; PaidTwiceDespiteRefusalsIff covers refusals and DispatchBound bounds every other case.
- ReleasePayout: the lookups and refusals before the transfer are one step that may fail, and the audit, destination and escrow writes after the record are left out.
- StopIsBounded: timers fire on time and promise callbacks run before timers, which is the event loop's rule; DrainedWhileRunningIff is without the second.
- NoLostEdits: needs distinct commit stamps, because the guard compares only the stamp; NoEditLostIff is without them.
- InvalidationWithoutErrorsIff: without read errors; InvalidationIsABarrierIff is with them.
- ConfigCache.BoundedStaleness: without read errors; under errors the last good document is served without bound by design.
- CategoryTradeIsExact: assumes that normalising the request's category twice is the same as once, which the given lowercase map does not promise by itself; SameNeedsTheLabel likewise.
- RankingIgnoresOrder: needs distinct user ids and a total order on ids; the order of offers of one provider still decides among tied offers.
- PasswordsAfter: one change at a time on the account; a provider that lies about sessions (rather than about updates) is not modelled.
- PlacesRoundTrip: numbers are the decimal text JavaScript prints; rounding to the column's number type is not modelled.
- CatalogueInsert.BuiltIsInsertableIff: the ranges of the number columns and concurrent writers are not modelled.
- SqlLiterals.TableRoundTrip: string constants with standard_conforming_strings on; the statement around the VALUES list is not modelled.
- Supabase, Daraja, GoTrue and the clock are nondeterministic steps or arguments.
- Notifications, chat lookups, reputation, logging, health counters, error texts and the failure-log throttle of the denial cache.
- Feed settings: the cached effective config and its per-field special merges; one settings key is modelled, since keys do not interact.
- App config: the version hash, and the audited write with its fallback, which end in the same invalidation.
- JavaScript details: inherited property names in `in` checks, UTF-16 lengths in matching tokens, the iteration order of sets, floating-point rounding in `Math.round`.
- Lowercasing is a given map, `localeCompare` a given order, and distances are given numbers: no Unicode tables and no trigonometry.
- Settlement labels, amounts and timestamps, which are passed through.
- Week labels are day numbers instead of printed dates, which agree for the years 0 to 9999.
- Reset e-mails, tier counts, name and phone masks, next-step texts and invitations: short case analyses.
- The ranking scorer, paging and defaults of the feed.
