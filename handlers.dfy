/**
 The four revert handlers as transitions on the stores: what expiring a bounce,
 a pause, a scale or a skip-healthchecks action does to the world.
 */
module Handlers {
  import opened Model
  import opened Stores

  // ---------------------------------------------------------------- store consistency

  /** getTaskHistoryUpdates: a task without history has no updates. */
  function HistoryOf(w: World, t: TaskId): seq<TaskHistoryUpdate>
  {
    if t in w.histories then w.histories[t] else []
  }

  /**
   What the stores guarantee between polls: keyed stores hold one entry per key,
   every task that is being cleaned up has a history, and requests are stored
   under their own id.
   */
  ghost predicate CleanupsConsistent(w: World)
  {
    && DistinctTaskIds(w.taskCleanups)
    && (forall c :: c in w.taskCleanups ==> HistoryOf(w, c.taskId) != [])
  }

  ghost predicate RequestsKeyed(w: World)
  {
    forall rid :: rid in w.requests ==> w.requests[rid].request.id == rid
  }

  // ---------------------------------------------------------------- collaborators

  /** RequestHelper.updateRequest, once the validator accepted it: store and record the change. */
  function UpdateRequest(w: World, newRequest: Request, oldRequest: Request, state: RequestState,
                         historyType: Option<RequestHistoryType>, user: User, message: string): World
  {
    w.(requests := w.requests[newRequest.id := RequestWithState(newRequest, state)],
       events := w.events + [RequestUpdated(newRequest, Some(oldRequest), state, historyType, user, None, Some(message))])
  }

  // ---------------------------------------------------------------- bounce

  /** The cleanup was queued by this bounce: same request and the same action id. */
  predicate MatchesBounce(c: TaskCleanup, a: ExpiringAction)
  {
    c.taskId.requestId == a.requestId && c.actionId == Some(a.actionId)
  }

  predicate EndsCleaning(h: seq<TaskHistoryUpdate>)
  {
    |h| > 0 && h[|h| - 1].taskState == TaskCleaning
  }

  /** The fallback handed to deleteTaskHistoryUpdate: the second-to-last update, if any. */
  function PreviousUpdate(h: seq<TaskHistoryUpdate>): Option<TaskHistoryUpdate>
  {
    if |h| > 1 then Some(h[|h| - 2]) else None
  }

  /** A history after its trailing TASK_CLEANING update is rolled back. */
  function RolledBack(h: seq<TaskHistoryUpdate>): seq<TaskHistoryUpdate>
  {
    if EndsCleaning(h) then h[..|h| - 1] else h
  }

  /** One iteration over the cleanup list for bounce record a. */
  function DiscardCleanup(w: World, a: ExpiringAction, c: TaskCleanup): World
  {
    if !MatchesBounce(c, a) then w
    else
      var w1 := w.(taskCleanups := WithoutTask(w.taskCleanups, c.taskId));
      if HasCleanupFor(w1.taskCleanups, c.taskId) then w1
      else
        var h := HistoryOf(w1, c.taskId);
        if EndsCleaning(h) then
          w1.(histories := w1.histories[c.taskId := h[..|h| - 1]],
              events := w1.events + [TaskHistoryUpdateDeleted(c.taskId, TaskCleaning, PreviousUpdate(h))])
        else w1
  }

  /** The loop over a snapshot cs of the cleanup list, in list order. */
  function DiscardCleanups(w: World, a: ExpiringAction, cs: seq<TaskCleanup>): World
    decreases |cs|
  {
    if cs == [] then w
    else DiscardCleanup(DiscardCleanups(w, a, cs[..|cs| - 1]), a, cs[|cs| - 1])
  }

  /** The pending request this bounce queued: the one for (request, deploy), if it carries the bounce's action id. */
  predicate PendingMatches(q: seq<PendingRequest>, a: ExpiringAction)
    requires a.payload.BouncePayload?
  {
    var idx := PendingIndex(q, a.requestId, a.payload.deployId);
    idx.Some? && q[idx.value].actionId == Some(a.actionId)
  }

  function CancelBounceRequest(a: ExpiringAction, message: string, now: int): PendingRequest
    requires a.payload.BouncePayload?
  {
    PendingRequest(a.requestId, a.payload.deployId, now, a.user, CancelBounce, Some(message), Some(a.actionId))
  }

  /** The pending queue after a bounce expiry: its own pending request dropped, then a CANCEL_BOUNCE enqueued. */
  function CancelBounceQueue(q: seq<PendingRequest>, a: ExpiringAction, message: string, now: int): seq<PendingRequest>
    requires a.payload.BouncePayload?
  {
    var kept := if PendingMatches(q, a)
                then RemoveAt(q, PendingIndex(q, a.requestId, a.payload.deployId).value)
                else q;
    kept + [CancelBounceRequest(a, message, now)]
  }

  function BounceRevert(w: World, a: ExpiringAction, message: string, now: int): World
    requires a.payload.BouncePayload?
  {
    var w1 := DiscardCleanups(w, a, w.taskCleanups);
    w1.(pending := CancelBounceQueue(w1.pending, a, message, now))
  }

  // ---------------------------------------------------------------- pause

  /** requestHelper.unpause: the request becomes active again; the call is recorded. */
  function Unpause(w: World, request: Request, user: User, message: string): World
  {
    w.(requests := w.requests[request.id := RequestWithState(request, Active)],
       events := w.events + [Unpaused(request, user, Some(message), None)])
  }

  function PauseRevert(w: World, a: ExpiringAction, rws: RequestWithState, message: string): World
  {
    if rws.state != Paused then w
    else Unpause(w, rws.request, a.user, message)
  }

  // ---------------------------------------------------------------- scale

  /** How Guava's Optional prints itself, which is what String.format("%s", user) shows. */
  function ShowUser(user: User): string
  {
    match user
    case Some(u) => "Optional.of(" + u + ")"
    case None => "Optional.absent()"
  }

  function BounceMessage(user: User): string
  {
    "Bouncing after expiring scale by " + ShowUser(user)
  }

  function ScaledRequest(a: ExpiringAction, current: Request): Request
    requires a.payload.ScalePayload?
  {
    current.(instances := a.payload.revertToInstances)
  }

  /** The INCREMENTAL_BOUNCE cleanup that a scale revert asks for. */
  function BounceCleanupRequest(a: ExpiringAction, newRequest: Request, deployId: DeployId, env: Env): RequestCleanup
  {
    RequestCleanup(a.user, IncrementalBounce, env.now, newRequest.id, Some(deployId),
                   Some(BounceMessage(a.user)), Some(env.freshActionId(newRequest.id)))
  }

  /** The expiring bounce saved for the cascaded bounce, with the default bounce parameters. */
  function CascadedBounce(a: ExpiringAction, newRequest: Request, deployId: DeployId, env: Env): ExpiringAction
  {
    ExpiringAction(newRequest.id, a.user, env.now, DefaultBounceRequest, env.freshActionId(newRequest.id), BouncePayload(deployId))
  }

  /** A bounce follows a scale revert when the request asks for it, has a deploy in use and is not already bouncing. */
  predicate Cascades(w: World, newRequest: Request, a: ExpiringAction, env: Env)
  {
    && newRequest.bounceAfterScale == Some(true)
    && newRequest.id in w.inUseDeploys
    && !CleanupRequestExists(w.requestCleanups, BounceCleanupRequest(a, newRequest, w.inUseDeploys[newRequest.id], env))
  }

  function BounceAfterScale(w: World, a: ExpiringAction, rws: RequestWithState, newRequest: Request, env: Env): World
  {
    if newRequest.id !in w.inUseDeploys then w
    else
      var deployId := w.inUseDeploys[newRequest.id];
      var cleanup := BounceCleanupRequest(a, newRequest, deployId, env);
      if CleanupRequestExists(w.requestCleanups, cleanup) then w
      else
        w.(requestCleanups := w.requestCleanups + [cleanup],
           events := w.events + [Bounced(rws.request, env.now, a.user, Some(BounceMessage(a.user)))],
           expiring := SaveRecord(w.expiring, CascadedBounce(a, newRequest, deployId, env)))
  }

  function ScaleRevert(w: World, a: ExpiringAction, rws: RequestWithState, message: string, env: Env): World
    requires a.payload.ScalePayload?
  {
    var oldRequest := rws.request;
    var newRequest := ScaledRequest(a, oldRequest);
    if !env.accepts(newRequest, oldRequest) then w
    else
      var w1 := UpdateRequest(w, newRequest, oldRequest, rws.state, Some(ScaleReverted), a.user, message);
      var w2 := if newRequest.bounceAfterScale == Some(true) then BounceAfterScale(w1, a, rws, newRequest, env) else w1;
      w2.(events := w2.events + [ScaledMail(newRequest, oldRequest.instances, a.user)])
  }

  // ---------------------------------------------------------------- skip healthchecks

  function SkipHealthchecksRequest(a: ExpiringAction, current: Request): Request
    requires a.payload.SkipHealthchecksPayload?
  {
    current.(skipHealthchecks := a.payload.revertToSkipHealthchecks)
  }

  function SkipHealthchecksRevert(w: World, a: ExpiringAction, rws: RequestWithState, message: string, env: Env): World
    requires a.payload.SkipHealthchecksPayload?
  {
    var newRequest := SkipHealthchecksRequest(a, rws.request);
    if !env.accepts(newRequest, rws.request) then w
    else UpdateRequest(w, newRequest, rws.request, rws.state, None, a.user, message)
  }

  // ---------------------------------------------------------------- dispatch

  /** handleExpiringObject, dispatched on the record's kind. */
  function Revert(w: World, a: ExpiringAction, rws: RequestWithState, message: string, env: Env): World
  {
    match a.payload
    case BouncePayload(_) => BounceRevert(w, a, message, env.now)
    case PausePayload => PauseRevert(w, a, rws, message)
    case ScalePayload(_) => ScaleRevert(w, a, rws, message, env)
    case SkipHealthchecksPayload(_) => SkipHealthchecksRevert(w, a, rws, message, env)
  }
}
