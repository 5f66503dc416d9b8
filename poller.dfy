/**
 The poller itself: an object holding the stores it works on, whose methods
 change them step by step as the handlers do. Each method is proved to leave
 the stores exactly as the matching transition in Handlers or Reconcile says,
 and to keep the stores consistent.
 */
module Poller {
  import opened Model
  import opened DeadlinePolicy
  import opened Stores
  import opened Handlers
  import opened HandlerProperties
  import opened Reconcile

  class ExpiringUserActionPoller {
    var expiring: seq<ExpiringAction>
    var requests: map<RequestId, RequestWithState>
    var inUseDeploys: map<RequestId, DeployId>
    var taskCleanups: seq<TaskCleanup>
    var histories: map<TaskId, seq<TaskHistoryUpdate>>
    var pending: seq<PendingRequest>
    var requestCleanups: seq<RequestCleanup>
    var events: seq<Event>
    const config: Config

    /** The stores as one value. */
    function State(): World
      reads this
    {
      World(expiring, requests, inUseDeploys, taskCleanups, histories, pending, requestCleanups, events)
    }

    ghost predicate Valid()
      reads this
    {
      Consistent(State())
    }

    constructor (config: Config, w: World)
      requires Consistent(w)
      ensures this.config == config && State() == w && Valid()
    {
      this.config := config;
      expiring := w.expiring;
      requests := w.requests;
      inUseDeploys := w.inUseDeploys;
      taskCleanups := w.taskCleanups;
      histories := w.histories;
      pending := w.pending;
      requestCleanups := w.requestCleanups;
      events := w.events;
    }

    // ---------------------------------------------------------------- store calls

    /** RequestHelper.updateRequest once the validator has accepted the update. */
    method StoreRequestUpdate(newRequest: Request, oldRequest: Request, state: RequestState,
                              historyType: Option<RequestHistoryType>, user: User, message: string)
      modifies this
      ensures State() == UpdateRequest(old(State()), newRequest, oldRequest, state, historyType, user, message)
    {
      requests := requests[newRequest.id := RequestWithState(newRequest, state)];
      events := events + [RequestUpdated(newRequest, Some(oldRequest), state, historyType, user, None, Some(message))];
    }

    /** RequestManager.createCleanupRequest: store the cleanup unless one of its type is already queued for the request. */
    method CreateCleanupRequest(c: RequestCleanup) returns (result: CreateResult)
      modifies this
      ensures result == Existed <==> CleanupRequestExists(old(requestCleanups), c)
      ensures requestCleanups == if result == Existed then old(requestCleanups) else old(requestCleanups) + [c]
      ensures State() == old(State()).(requestCleanups := requestCleanups)
    {
      if CleanupRequestExists(requestCleanups, c) {
        result := Existed;
      } else {
        requestCleanups := requestCleanups + [c];
        result := Created;
      }
    }

    // ---------------------------------------------------------------- handlers

    /** One iteration of the bounce handler's loop, for cleanup c of the snapshot. */
    method DiscardCleanupStep(a: ExpiringAction, c: TaskCleanup)
      requires CleanupsConsistent(State()) && (MatchesBounce(c, a) ==> c in taskCleanups)
      modifies this
      ensures State() == DiscardCleanup(old(State()), a, c)
    {
      if MatchesBounce(c, a) {
        ghost var p := State();
        taskCleanups := WithoutTask(taskCleanups, c.taskId);
        if !HasCleanupFor(taskCleanups, c.taskId) {
          var h := if c.taskId in histories then histories[c.taskId] else [];
          assert h == HistoryOf(p, c.taskId);
          if h[|h| - 1].taskState == TaskCleaning {
            var previous := if |h| > 1 then Some(h[|h| - 2]) else None;
            histories := histories[c.taskId := h[..|h| - 1]];
            events := events + [TaskHistoryUpdateDeleted(c.taskId, TaskCleaning, previous)];
          }
        }
      }
    }

    /** The bounce handler's loop over a snapshot of the task cleanups. */
    method DiscardBounceCleanups(a: ExpiringAction)
      requires Valid()
      modifies this
      ensures Valid() && State() == DiscardCleanups(old(State()), a, old(taskCleanups))
    {
      ghost var w0 := State();
      var cleanups := taskCleanups;
      for i := 0 to |cleanups|
        invariant State() == DiscardCleanups(w0, a, cleanups[..i])
      {
        var c := cleanups[i];
        assert cleanups[..i + 1] == cleanups[..i] + [c];
        DiscardCleanupsPrefix(w0, a, i);
        DiscardCleanupsConsistent(w0, a, cleanups[..i]);
        DiscardCleanupStep(a, c);
      }
      assert cleanups[..|cleanups|] == cleanups;
      DiscardCleanupsConsistent(w0, a, cleanups);
      DiscardCleanupsExpiring(w0, a, cleanups);
    }

    /** The bounce handler's pending-queue update: drop the bounce's own pending request, then enqueue CANCEL_BOUNCE. */
    method CancelPendingBounce(a: ExpiringAction, message: string, now: int)
      requires a.payload.BouncePayload?
      modifies this
      ensures State() == old(State()).(pending := CancelBounceQueue(old(pending), a, message, now))
    {
      var idx := PendingIndex(pending, a.requestId, a.payload.deployId);
      if idx.Some? && pending[idx.value].actionId == Some(a.actionId) {
        pending := RemoveAt(pending, idx.value);
      }
      pending := pending + [CancelBounceRequest(a, message, now)];
    }

    /** The bounce handler: discard the bounce's task cleanups, then cancel its pending request. */
    method HandleBounce(a: ExpiringAction, message: string, now: int)
      requires Valid() && a.payload.BouncePayload?
      modifies this
      ensures Valid() && State() == BounceRevert(old(State()), a, message, now)
    {
      DiscardBounceCleanups(a);
      CancelPendingBounce(a, message, now);
    }

    /** The pause handler: unpause the request, or discard the record when it is no longer paused. */
    method HandlePause(a: ExpiringAction, rws: RequestWithState, message: string)
      requires Valid()
      modifies this
      ensures Valid() && State() == PauseRevert(old(State()), a, rws, message)
    {
      if rws.state != Paused {
        return;
      }
      requests := requests[rws.request.id := RequestWithState(rws.request, Active)];
      events := events + [Unpaused(rws.request, a.user, Some(message), None)];
    }

    /** The scale handler: restore the instance count, bounce if the request asks for it, send the scaled mail. */
    method HandleScale(a: ExpiringAction, rws: RequestWithState, message: string, env: Env)
      requires Valid() && a.payload.ScalePayload?
      modifies this
      ensures Valid() && State() == ScaleRevert(old(State()), a, rws, message, env)
    {
      ghost var w0 := State();
      RevertConsistent(w0, a, rws, message, env);
      RevertExpiringFrame(w0, a, rws, message, env);
      var oldRequest := rws.request;
      var newRequest := oldRequest.(instances := a.payload.revertToInstances);
      if !env.accepts(newRequest, oldRequest) {
        // the validator threw WebApplicationException, which the handler swallows
        return;
      }
      StoreRequestUpdate(newRequest, oldRequest, rws.state, Some(ScaleReverted), a.user, message);
      if newRequest.bounceAfterScale == Some(true) {
        if newRequest.id in inUseDeploys {
          var deployId := inUseDeploys[newRequest.id];
          var bounceMessage := BounceMessage(a.user);
          var actionId := env.freshActionId(newRequest.id);
          var result := CreateCleanupRequest(RequestCleanup(a.user, IncrementalBounce, env.now, newRequest.id, Some(deployId),
                                                            Some(bounceMessage), Some(actionId)));
          if result != Existed {
            events := events + [Bounced(rws.request, env.now, a.user, Some(bounceMessage))];
            expiring := SaveRecord(expiring, ExpiringAction(newRequest.id, a.user, env.now, DefaultBounceRequest,
                                                            actionId, BouncePayload(deployId)));
          }
        }
      }
      events := events + [ScaledMail(newRequest, oldRequest.instances, a.user)];
    }

    /** The skip-healthchecks handler: restore the request's skipHealthchecks setting. */
    method HandleSkipHealthchecks(a: ExpiringAction, rws: RequestWithState, message: string, env: Env)
      requires Valid() && a.payload.SkipHealthchecksPayload?
      modifies this
      ensures Valid() && State() == SkipHealthchecksRevert(old(State()), a, rws, message, env)
    {
      var newRequest := rws.request.(skipHealthchecks := a.payload.revertToSkipHealthchecks);
      if !env.accepts(newRequest, rws.request) {
        // the validator threw WebApplicationException, which the handler swallows
        return;
      }
      StoreRequestUpdate(newRequest, rws.request, rws.state, None, a.user, message);
    }

    /** handleExpiringObject of the handler for the record's kind. */
    method HandleExpiringObject(a: ExpiringAction, rws: RequestWithState, message: string, env: Env)
      requires Valid()
      modifies this
      ensures Valid() && State() == Revert(old(State()), a, rws, message, env)
    {
      match a.payload {
        case BouncePayload(_) => HandleBounce(a, message, env.now);
        case PausePayload => HandlePause(a, rws, message);
        case ScalePayload(_) => HandleScale(a, rws, message, env);
        case SkipHealthchecksPayload(_) => HandleSkipHealthchecks(a, rws, message, env);
      }
    }

    // ---------------------------------------------------------------- the poll

    /** checkExpiringObjects: expire every due record of kind k, in store order. */
    method CheckExpiringObjects(k: Kind, env: Env)
      requires Valid()
      modifies this
      ensures Valid() && State() == CheckKind(old(State()), k, config, env)
    {
      ghost var w0 := State();
      var records := RecordsOf(expiring, k);
      for i := 0 to |records|
        invariant Valid()
        invariant State() == ProcessRecords(w0, records[..i], config, env)
      {
        var a := records[i];
        assert records[..i + 1] == records[..i] + [a];
        assert a in records;
        ghost var p := State();
        if IsExpiringDue(a, env.now, config) {
          if a.requestId in requests {
            HandleExpiringObject(a, requests[a.requestId], Message(a, config, env.formatDuration), env);
          }
          expiring := DeleteRecord(expiring, KindOf(a), a.requestId);
        }
        ProcessRecordConsistent(p, a, config, env);
      }
      assert records[..|records|] == records;
    }

    /** runActionOnPoll: run the handlers in their registration order. */
    method RunActionOnPoll(env: Env)
      requires Valid()
      modifies this
      ensures Valid() && State() == Poll(old(State()), config, env)
    {
      ghost var w0 := State();
      var handlers := HandlerOrder;
      for i := 0 to |handlers|
        invariant Valid()
        invariant State() == RunHandlers(w0, handlers[..i], config, env)
      {
        assert handlers[..i + 1][..i] == handlers[..i];
        CheckExpiringObjects(handlers[i], env);
      }
      assert handlers[..|handlers|] == handlers;
    }
  }
}
