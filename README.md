# Expiring user actions in Singularity, modelled in Dafny

Singularity can apply a user action (bounce, pause, scale or skip-healthchecks)
to a request for a limited time. Each such action leaves an *expiring* record
behind. `SingularityExpiringUserActionPoller` walks those records on every poll
and undoes each one whose time is up:

- a bounce is cancelled: the bounce's task cleanups and its pending request
  are discarded, a trailing `TASK_CLEANING` history update is rolled back, and
  a `CANCEL_BOUNCE` pending request is enqueued;
- a pause is lifted, if the request is still paused;
- a scale is reverted to the earlier instance count, which may bounce the
  request afterwards and, after an accepted update, sends a notification mail;
- a skip-healthchecks setting is reverted.

The model is in seven files.

- `model.dfy` (module `Model`) holds the entities as datatypes. These are the
  requests, the four kinds of expiring records, task ids, cleanups and
  histories, pending requests and request cleanups. It also holds an event log
  that stands in for calls with outside effects (unpause, bounce, mail, history
  deletion) and the `World` value that collects every store.
- `deadline.dfy` (module `DeadlinePolicy`) holds the pure part of the handler
  base: `getDurationMillis`, `isExpiringDue`, `getActionName` and `getMessage`.
- `stores.dfy` (module `Stores`) holds the store operations the poller calls,
  as functions on sequences in store order.
- `handlers.dfy` (module `Handlers`) gives each of the four
  `handleExpiringObject` implementations as a function from one `World` to
  the next.
- `handler_properties.dfy` (module `HandlerProperties`) proves what each
  handler does, what it leaves alone, and that it keeps the stores consistent.
- `reconcile.dfy` (module `Reconcile`) gives `checkExpiringObjects` and
  `runActionOnPoll` as left folds over their snapshots. It proves what one
  record, one pass and one whole poll do to the expiring store, and that the
  stores stay consistent.
- `poller.dfy` (module `Poller`) holds the class `ExpiringUserActionPoller`.
  It has one field per store, and its methods change them step by step, loops
  included, as the Java code does. Every method is proved to end in exactly the
  state its specification gives. For the store calls (`StoreRequestUpdate`,
  `CreateCleanupRequest`) and the two bounce steps (`DiscardCleanupStep`,
  `CancelPendingBounce`), that specification is a function of `Handlers` or an
  explicit new store. The handler and loop methods (`DiscardBounceCleanups`,
  `HandleBounce` … `RunActionOnPoll`) end in the matching function of
  `Handlers` or `Reconcile` and also keep `Valid()`.

What the poller takes from outside is passed in as `Env`:

| field | stands for |
|---|---|
| `now` | every `System.currentTimeMillis()` call of one poll |
| `formatDuration` | `JavaUtils.durationFromMillis` |
| `accepts(new, old)` | whether `RequestHelper.updateRequest` accepts the update; `false` means it threw `WebApplicationException` |
| `freshActionId(requestId)` | the `UUID.randomUUID()` drawn for a cascaded bounce |

The configured default bounce expiry is `Config`.

`Consistent` (the class's `Valid()`) is what the stores guarantee between
polls:

- at most one expiring record per kind and request id;
- every pause, scale and skip-healthchecks record carries a duration;
- at most one cleanup per task;
- every task with a cleanup has a non-empty history;
- requests are stored under their own id.

The source's `.get()` at line 116 and `Iterables.getLast` at line 168 can
throw outside these conditions.

In the code, the delete at line 131 is not in a `finally` block, and only the
scale and skip-healthchecks handlers catch an exception: the
`WebApplicationException` that `updateRequest` raises. So a rejected scale or
skip-healthchecks update still ends in the record's deletion
(`Reconcile.RejectedUpdateStillDeleted`). The model makes no such claim for
any other failure. `Consistent` rules out only the throws at lines 116 and
168. Every other collaborator and store call is assumed to succeed (see
"## Left out").

## Model

All source paths are `SingularityService/src/main/java/com/hubspot/singularity/scheduler/SingularityExpiringUserActionPoller.java`.

| member | source | states |
|---|---|---|
| DeadlinePolicy.DurationMillis | SingularityService/src/main/java/com/hubspot/singularity/scheduler/SingularityExpiringUserActionPoller.java:153-155 | the lifetime is the request's own duration when present; otherwise the record is a bounce and the lifetime is the configured default minutes times 60000 |
| DeadlinePolicy.DueIffPastDeadline | SingularityService/src/main/java/com/hubspot/singularity/scheduler/SingularityExpiringUserActionPoller.java:99-104 | a record is due iff now is strictly past start + duration; it is not due exactly at the deadline, and once due it stays due at every later time |
| DeadlinePolicy.DefaultBounceDeadline | SingularityService/src/main/java/com/hubspot/singularity/scheduler/SingularityExpiringUserActionPoller.java:153-155 | a bounce without a duration is due iff now > start + defaultBounceExpirationMinutes * 60000 |
| DeadlinePolicy.MessageShape | SingularityService/src/main/java/com/hubspot/singularity/scheduler/SingularityExpiringUserActionPoller.java:106-113 | the message starts with "<name> expired after <duration>"; it equals that text iff the user message is absent or empty; otherwise the rest is " (<message>)" |
| Stores.RecordsOf | SingularityService/src/main/java/com/hubspot/singularity/scheduler/SingularityExpiringUserActionPoller.java:120 | the snapshot holds exactly the store's records of the handler's kind |
| Stores.DeleteRecord | SingularityService/src/main/java/com/hubspot/singularity/scheduler/SingularityExpiringUserActionPoller.java:131 | the store loses exactly the record with the given kind and request id |
| Stores.SaveRecord | SingularityService/src/main/java/com/hubspot/singularity/scheduler/SingularityExpiringUserActionPoller.java:247-248 | the saved record is present and replaces any record with its key; every other record stays |
| Stores.SaveRecordUnique | SingularityService/src/main/java/com/hubspot/singularity/scheduler/SingularityExpiringUserActionPoller.java:247-248 | saving keeps at most one record per kind and request id |
| Stores.WithoutTask | SingularityService/src/main/java/com/hubspot/singularity/scheduler/SingularityExpiringUserActionPoller.java:163 | deleting a task's cleanup removes exactly the cleanups of that task |
| Stores.PendingIndex | SingularityService/src/main/java/com/hubspot/singularity/scheduler/SingularityExpiringUserActionPoller.java:176 | the lookup finds the first pending request for (request, deploy), and finds none only when there is none |
| Stores.RemoveAt | SingularityService/src/main/java/com/hubspot/singularity/scheduler/SingularityExpiringUserActionPoller.java:181 | deleting a pending request removes that one entry and keeps the order of the rest |
| HandlerProperties.DiscardCleanupCases | SingularityService/src/main/java/com/hubspot/singularity/scheduler/SingularityExpiringUserActionPoller.java:160-171 | for one cleanup: the trailing TASK_CLEANING update is deleted iff the cleanup is this bounce's, no cleanup remains for the task and the last update is TASK_CLEANING; the fallback is the second-to-last update when there are at least two, else none; otherwise history and log are untouched |
| HandlerProperties.RollbackEvents | SingularityService/src/main/java/com/hubspot/singularity/scheduler/SingularityExpiringUserActionPoller.java:164-171 | every deletion recorded for a snapshot comes from a cleanup of this bounce whose task history ends in TASK_CLEANING, with that history's second-to-last update (or none) as fallback; every such cleanup has its deletion recorded; there are never more entries than cleanups |
| HandlerProperties.DiscardCleanupsEffect | SingularityService/src/main/java/com/hubspot/singularity/scheduler/SingularityExpiringUserActionPoller.java:159-174 | the loop deletes exactly the cleanups with the record's request id and action id; it rolls back exactly those tasks' trailing TASK_CLEANING updates; the log gains exactly RollbackEvents, one history deletion per rolled-back task with its fallback; no other store changes |
| HandlerProperties.DiscardCleanupsConsistent | SingularityService/src/main/java/com/hubspot/singularity/scheduler/SingularityExpiringUserActionPoller.java:159-174 | the loop keeps one cleanup per task and a non-empty history for every task still being cleaned up |
| HandlerProperties.RemovedPending | SingularityService/src/main/java/com/hubspot/singularity/scheduler/SingularityExpiringUserActionPoller.java:176-182 | one pending request is discarded exactly when the first one for the bounce's request and deploy carries the bounce's action id, and it is that entry; otherwise none is |
| HandlerProperties.CancelBounceQueueEffect | SingularityService/src/main/java/com/hubspot/singularity/scheduler/SingularityExpiringUserActionPoller.java:176-185 | the queue loses only the matching pending request; every other entry stays; exactly one CANCEL_BOUNCE with the record's request, deploy, user, message and action id is enqueued last |
| HandlerProperties.BounceRevertEffect | SingularityService/src/main/java/com/hubspot/singularity/scheduler/SingularityExpiringUserActionPoller.java:158-186 | a bounce expiry changes cleanups, histories and the pending queue as above, and appends exactly RollbackEvents to the log; nothing else changes |
| HandlerProperties.PauseRevertEffect | SingularityService/src/main/java/com/hubspot/singularity/scheduler/SingularityExpiringUserActionPoller.java:202-211 | a pause expiry changes anything iff the request is PAUSED; then the request becomes ACTIVE and one unpause with the user and the message is recorded |
| HandlerProperties.ScaleRevertEffect | SingularityService/src/main/java/com/hubspot/singularity/scheduler/SingularityExpiringUserActionPoller.java:227-261 | the new request differs from the old only in instances; a rejected update changes nothing (no mail, no bounce); an accepted one stores the request as SCALE_REVERTED; the bounce call, the INCREMENTAL_BOUNCE cleanup and the new expiring bounce happen iff bounceAfterScale is set, a deploy is in use and no such cleanup EXISTED; one scaled mail with the old instance count follows |
| HandlerProperties.ScaleCascadeOnce | SingularityService/src/main/java/com/hubspot/singularity/scheduler/SingularityExpiringUserActionPoller.java:241-251 | when createCleanupRequest reports EXISTED, there is no bounce call, no new cleanup and no new expiring record |
| HandlerProperties.SkipHealthchecksRevertEffect | SingularityService/src/main/java/com/hubspot/singularity/scheduler/SingularityExpiringUserActionPoller.java:277-287 | the new request differs from the old only in skipHealthchecks; a rejected update changes nothing; an accepted one is stored with no history type |
| HandlerProperties.RevertExpiringFrame | SingularityService/src/main/java/com/hubspot/singularity/scheduler/SingularityExpiringUserActionPoller.java:141-287 | only the scale handler touches the expiring store; it adds only a fresh cascaded bounce, leaves every non-bounce record alone and keeps keys unique |
| HandlerProperties.RevertConsistent | SingularityService/src/main/java/com/hubspot/singularity/scheduler/SingularityExpiringUserActionPoller.java:141-287 | every handler keeps the cleanup and request stores consistent |
| Reconcile.RunHandlers | SingularityService/src/main/java/com/hubspot/singularity/scheduler/SingularityExpiringUserActionPoller.java:85-89 | running the handlers in turn keeps the stores consistent |
| Reconcile.ProcessRecordCases | SingularityService/src/main/java/com/hubspot/singularity/scheduler/SingularityExpiringUserActionPoller.java:119-134 | a record that is not due leaves everything as it was; a due record's key is gone afterwards; when its request is absent, the deletion is the only change |
| Reconcile.RejectedUpdateStillDeleted | SingularityService/src/main/java/com/hubspot/singularity/scheduler/SingularityExpiringUserActionPoller.java:119-134 | a due scale or skip-healthchecks record whose update is rejected is still deleted, and nothing else changes |
| Reconcile.ProcessRecordExpiring | SingularityService/src/main/java/com/hubspot/singularity/scheduler/SingularityExpiringUserActionPoller.java:119-134 | one iteration deletes the due record's key from its kind; other kinds are kept (bounces excepted under a scale); only fresh cascaded bounces are added |
| Reconcile.ProcessRecordConsistent | SingularityService/src/main/java/com/hubspot/singularity/scheduler/SingularityExpiringUserActionPoller.java:119-134 | one iteration keeps the stores consistent |
| Reconcile.CheckKindEffect | SingularityService/src/main/java/com/hubspot/singularity/scheduler/SingularityExpiringUserActionPoller.java:119-134 | after one pass over a kind, its remaining records are exactly the ones that were not due; other kinds are kept (bounces excepted in the scale pass); only fresh cascaded bounces appear |
| Reconcile.PollUnfolds | SingularityService/src/main/java/com/hubspot/singularity/scheduler/SingularityExpiringUserActionPoller.java:75-89 | a poll is the bounce pass, then pause, then scale, then skip-healthchecks |
| Reconcile.PollExpiring | SingularityService/src/main/java/com/hubspot/singularity/scheduler/SingularityExpiringUserActionPoller.java:85-89 | after a poll, the pause, scale and skip-healthchecks records are exactly the ones that were not due; every bounce record left was not due or is a fresh bounce saved by a scale expiry |
| Reconcile.ScaleExpiryCascades | SingularityService/src/main/java/com/hubspot/singularity/scheduler/SingularityExpiringUserActionPoller.java:227-261 | worked case: a due scale with bounceAfterScale and a deploy in use reverts the instance count, records the bounce and the mail, and leaves only the new expiring bounce |
| Poller.ExpiringUserActionPoller.StoreRequestUpdate | SingularityService/src/main/java/com/hubspot/singularity/scheduler/SingularityExpiringUserActionPoller.java:232-233 | stores the new request with the given state and records the update |
| Poller.ExpiringUserActionPoller.CreateCleanupRequest | SingularityService/src/main/java/com/hubspot/singularity/scheduler/SingularityExpiringUserActionPoller.java:241-243 | reports EXISTED iff a cleanup of that type is already queued for the request; otherwise appends it; nothing else changes |
| Poller.ExpiringUserActionPoller.DiscardCleanupStep | SingularityService/src/main/java/com/hubspot/singularity/scheduler/SingularityExpiringUserActionPoller.java:160-172 | one iteration of the cleanup loop ends in the state DiscardCleanup gives |
| Poller.ExpiringUserActionPoller.DiscardBounceCleanups | SingularityService/src/main/java/com/hubspot/singularity/scheduler/SingularityExpiringUserActionPoller.java:159-174 | the loop over a snapshot of the cleanups ends in the state DiscardCleanups gives, and keeps the stores valid |
| Poller.ExpiringUserActionPoller.CancelPendingBounce | SingularityService/src/main/java/com/hubspot/singularity/scheduler/SingularityExpiringUserActionPoller.java:176-185 | only the pending queue changes, as CancelBounceQueue gives |
| Poller.ExpiringUserActionPoller.HandleBounce | SingularityService/src/main/java/com/hubspot/singularity/scheduler/SingularityExpiringUserActionPoller.java:158-186 | ends in BounceRevert of the old state and keeps the stores valid |
| Poller.ExpiringUserActionPoller.HandlePause | SingularityService/src/main/java/com/hubspot/singularity/scheduler/SingularityExpiringUserActionPoller.java:202-211 | ends in PauseRevert of the old state and keeps the stores valid |
| Poller.ExpiringUserActionPoller.HandleScale | SingularityService/src/main/java/com/hubspot/singularity/scheduler/SingularityExpiringUserActionPoller.java:227-261 | ends in ScaleRevert of the old state and keeps the stores valid |
| Poller.ExpiringUserActionPoller.HandleSkipHealthchecks | SingularityService/src/main/java/com/hubspot/singularity/scheduler/SingularityExpiringUserActionPoller.java:277-287 | ends in SkipHealthchecksRevert of the old state and keeps the stores valid |
| Poller.ExpiringUserActionPoller.HandleExpiringObject | SingularityService/src/main/java/com/hubspot/singularity/scheduler/SingularityExpiringUserActionPoller.java:137 | runs the handler of the record's kind: ends in Revert of the old state |
| Poller.ExpiringUserActionPoller.CheckExpiringObjects | SingularityService/src/main/java/com/hubspot/singularity/scheduler/SingularityExpiringUserActionPoller.java:119-134 | the loop over the kind's records ends in CheckKind of the old state (so CheckKindEffect applies) and keeps the stores valid |
| Poller.ExpiringUserActionPoller.RunActionOnPoll | SingularityService/src/main/java/com/hubspot/singularity/scheduler/SingularityExpiringUserActionPoller.java:85-89 | the loop over the handlers in registration order ends in Poll of the old state (so PollExpiring applies) and keeps the stores valid |

## Left out

- Leader gating, periodic scheduling and the injected lock (lines 51, 65-66): a poll is one sequential call.
- Guice construction (lines 63-82). RequestManager, TaskManager, DeployManager and RequestHelper are not part of this model: they are replaced by the store fields and simple store operations.
- The validation inside `RequestHelper.updateRequest` is not shown. It is the parameter `Env.accepts`; a rejection stands for the `WebApplicationException` the handlers catch.
- A `WebApplicationException` raised by the calls after `updateRequest` in the scale handler (createCleanupRequest, bounce, saveExpiringObject, the mail): the model lets them succeed.
- `RequestHelper.unpause` is not shown. It is modelled as setting the request ACTIVE and logging one `Unpaused` event; whatever else it does is not captured.
- `RequestManager.bounce` and the mailer are logged as events (`Bounced`, `ScaledMail`); mail delivery is not modelled.
- Logging (lines 126, 162, 165, 179, 204, 208, 236, 250, 253, 259, 285).
- `System.currentTimeMillis()`: every call in one poll reads the same `Env.now`, so the clock does not advance inside a poll.
- `UUID.randomUUID()` is `Env.freshActionId`. It is a function of the request id, so the cleanup and the saved bounce share it as in the source.
- `JavaUtils.durationFromMillis` is the uninterpreted `Env.formatDuration`.
- The comparator behind `Collections.sort` (line 167) is not shown. The stored history is taken as already sorted.
- Exceptions other than `WebApplicationException` from `updateRequest`. `.get()` on a missing duration (line 116) and `Iterables.getLast` on an empty history (line 168) are unreachable under `Consistent`, which every handler, pass and poll preserves; the class's methods require `Valid()`. Every other collaborator and store call is assumed to succeed and not to throw. These include `requestHelper.unpause` (line 210), the pending-queue calls (lines 176-185), the task-manager calls (lines 163-170) and the expiring-store calls. Such a throw would skip the delete at line 131 and end the poll; the model does not capture that.
- Store layout: the expiring store is keyed by (kind, request id); the cleanup store is keyed by task; `createCleanupRequest` reports EXISTED when a cleanup of the same type is already queued for the request. These are assumptions, because the stores' implementations are not shown.
- Pending queue layout: a sequence in which `addToPendingQueue` appends and `getPendingRequest(requestId, deployId)` returns the first entry for that pair. So an entry for the same (request, deploy) that the bounce does not own stays beside the new CANCEL_BOUNCE. A store keyed by (request, deploy) could instead overwrite or refuse that enqueue; this is an assumption, because the store is not shown.
- The re-check `getTaskCleanup` after `deleteCleanupTask` (line 164) is modelled. In a store keyed by task it always finds nothing.
- Requests carry only the fields the poller reads or writes: id, instances, skipHealthchecks and bounceAfterScale.
- The user is an optional string, as the API passes it. The bounce message shows it as Guava's `Optional` prints itself (`Optional.of(bob)`, `Optional.absent()`); that printed form is an assumption, because the library is not part of this model.
- DeadlinePolicy.DurationMillis: does not model 64-bit overflow of `now - startMillis` or the saturation of `TimeUnit.MINUTES.toMillis`; integers are unbounded.
- Reconcile.PollExpiring: states only one direction for bounce records. A bounce that was not due can be replaced in the same poll by a cascaded bounce for the same request, so "every non-due bounce survives" does not hold.
