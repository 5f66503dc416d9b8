/**
 The entities the expiring-user-action poller reads and writes: expiring action
 records of four kinds, requests with their state, task cleanups, task history
 updates, pending requests, request cleanups, and the calls the poller makes on
 collaborators it cannot see (unpause, bounce, mail, request updates), recorded
 as events.
 */
module Model {

  datatype Option<+T> = None | Some(value: T)

  type RequestId = string
  type DeployId = string
  type ActionId = string
  /** The acting user, optional as in the API. */
  type User = Option<string>

  datatype RequestState = Active | Deleted | Paused | SystemCooldown | Finished | DeployingToUnpause

  /** The fields of a request that the poller reads or rebuilds. */
  datatype Request = Request(
    id: RequestId,
    instances: Option<int>,
    skipHealthchecks: Option<bool>,
    bounceAfterScale: Option<bool>)

  datatype RequestWithState = RequestWithState(request: Request, state: RequestState)

  /** The user's original API request: an optional lifetime and an optional note. */
  datatype ExpiringApiRequest = ExpiringApiRequest(durationMillis: Option<int>, message: Option<string>)

  /** The defaults of a bounce request: no duration and no message. */
  const DefaultBounceRequest: ExpiringApiRequest := ExpiringApiRequest(None, None)

  /** The four kinds of expiring action, one handler each. */
  datatype Kind = Bounce | Pause | Scale | SkipHealthchecks

  /** What each kind carries beyond the common fields. */
  datatype Payload =
    | BouncePayload(deployId: DeployId)
    | PausePayload
    | ScalePayload(revertToInstances: Option<int>)
    | SkipHealthchecksPayload(revertToSkipHealthchecks: Option<bool>)

  datatype ExpiringAction = ExpiringAction(
    requestId: RequestId,
    user: User,
    startMillis: int,
    apiRequest: ExpiringApiRequest,
    actionId: ActionId,
    payload: Payload)

  function KindOf(a: ExpiringAction): Kind
  {
    match a.payload
    case BouncePayload(_) => Bounce
    case PausePayload => Pause
    case ScalePayload(_) => Scale
    case SkipHealthchecksPayload(_) => SkipHealthchecks
  }

  /** The store keeps at most one record per kind and request. */
  function Key(a: ExpiringAction): (Kind, RequestId)
  {
    (KindOf(a), a.requestId)
  }

  datatype TaskId = TaskId(requestId: RequestId, deployId: DeployId, startedAt: int, instanceNo: int, host: string)

  datatype ExtendedTaskState =
    | TaskLaunched | TaskStaging | TaskStarting | TaskRunning | TaskCleaning | TaskKilling
    | TaskFinished | TaskFailed | TaskKilled | TaskLost | TaskLostWhileDown | TaskError

  datatype TaskHistoryUpdate = TaskHistoryUpdate(taskId: TaskId, timestamp: int, taskState: ExtendedTaskState)

  datatype TaskCleanup = TaskCleanup(taskId: TaskId, timestamp: int, actionId: Option<ActionId>)

  datatype PendingType =
    | Immediate | OneOff | BouncePending | NewDeploy | NextDeployStep | UnpausedPending
    | Retry | UpdatedRequest | Decomissioned | TaskDone | Startup | CancelBounce

  datatype PendingRequest = PendingRequest(
    requestId: RequestId,
    deployId: DeployId,
    timestamp: int,
    user: User,
    pendingType: PendingType,
    message: Option<string>,
    actionId: Option<ActionId>)

  datatype RequestCleanupType = Deleting | Pausing | BounceCleanup | IncrementalBounce

  datatype RequestCleanup = RequestCleanup(
    user: User,
    cleanupType: RequestCleanupType,
    timestamp: int,
    requestId: RequestId,
    deployId: Option<DeployId>,
    message: Option<string>,
    actionId: Option<ActionId>)

  datatype CreateResult = Created | Existed

  datatype RequestHistoryType =
    | CreatedHistory | UpdatedHistory | DeletedHistory | PausedHistory | UnpausedHistory
    | BouncedHistory | ScaledHistory | ScaleReverted

  /** Calls on collaborators whose effect lies outside the modelled stores. */
  datatype Event =
    | RequestUpdated(request: Request, oldRequest: Option<Request>, state: RequestState,
                     historyType: Option<RequestHistoryType>, user: User,
                     skipHealthchecks: Option<bool>, message: Option<string>)
    | Unpaused(request: Request, user: User, message: Option<string>, skipHealthchecks: Option<bool>)
    | Bounced(request: Request, timestamp: int, user: User, message: Option<string>)
    | ScaledMail(request: Request, oldInstances: Option<int>, user: User)
    | TaskHistoryUpdateDeleted(taskId: TaskId, taskState: ExtendedTaskState, previous: Option<TaskHistoryUpdate>)

  /** Every store the poller touches, as one value. */
  datatype World = World(
    expiring: seq<ExpiringAction>,
    requests: map<RequestId, RequestWithState>,
    inUseDeploys: map<RequestId, DeployId>,
    taskCleanups: seq<TaskCleanup>,
    histories: map<TaskId, seq<TaskHistoryUpdate>>,
    pending: seq<PendingRequest>,
    requestCleanups: seq<RequestCleanup>,
    events: seq<Event>)

  datatype Config = Config(defaultBounceExpirationMinutes: int)

  /**
   What the poller takes from its surroundings: the clock, the duration formatter,
   whether the request validator accepts an update (new, old), and the fresh
   action id generated for a request.
   */
  datatype Env = Env(
    now: int,
    formatDuration: int -> string,
    accepts: (Request, Request) -> bool,
    freshActionId: RequestId -> ActionId)
}
