/**
 What each revert handler promises: which task cleanups, history updates and
 pending requests a bounce expiry removes and adds, when a pause expiry
 unpauses, what a scale or skip-healthchecks expiry writes, and what none of
 them touches.
 */
module HandlerProperties {
  import opened Model
  import opened Stores
  import opened Handlers

  /** Some cleanup of task t in cs was queued by bounce a. */
  ghost predicate MatchedTask(cs: seq<TaskCleanup>, a: ExpiringAction, t: TaskId)
  {
    exists c :: c in cs && c.taskId == t && MatchesBounce(c, a)
  }

  // ---------------------------------------------------------------- bounce: the cleanup loop

  /** After i iterations: the cleanups seen so far that this bounce queued are gone, the rest are still there. */
  ghost predicate CleanupsAfter(cs: seq<TaskCleanup>, a: ExpiringAction, i: nat, r: World)
    requires i <= |cs|
  {
    forall c :: c in r.taskCleanups <==> (c in cs[..i] && !MatchesBounce(c, a)) || c in cs[i..]
  }

  /** After i iterations: the tasks seen so far whose cleanup this bounce queued have their history rolled back. */
  ghost predicate HistoriesAfter(w: World, cs: seq<TaskCleanup>, a: ExpiringAction, i: nat, r: World)
    requires i <= |cs|
  {
    && r.histories.Keys == w.histories.Keys
    && forall t :: HistoryOf(r, t) == if MatchedTask(cs[..i], a, t) then RolledBack(HistoryOf(w, t)) else HistoryOf(w, t)
  }

  /** The cleanup loop writes only the cleanups, the histories and the event log. */
  ghost predicate OnlyCleanupsChanged(w: World, r: World)
  {
    r.(taskCleanups := w.taskCleanups, histories := w.histories, events := w.events) == w
  }

  /** The i-th cleanup of a snapshot with distinct task ids is the only one of its task. */
  lemma OnlyCleanupOfItsTask(cs: seq<TaskCleanup>, i: nat)
    requires DistinctTaskIds(cs) && i < |cs|
    ensures cs[i] !in cs[..i] && cs[i] !in cs[i + 1..]
    ensures forall x :: x in cs && x.taskId == cs[i].taskId ==> x == cs[i]
  {
    forall j | 0 <= j < i ensures cs[..i][j] != cs[i] {
      assert cs[j].taskId != cs[i].taskId;
    }
    var rest := cs[i + 1..];
    forall j | 0 <= j < |rest| ensures rest[j] != cs[i] {
      assert rest[j] == cs[i + 1 + j];
    }
    forall x | x in cs && x.taskId == cs[i].taskId ensures x == cs[i] {
      DistinctMeansUnique(cs, x, cs[i]);
    }
  }

  lemma CleanupsStep(cs: seq<TaskCleanup>, a: ExpiringAction, i: nat, p: World)
    requires DistinctTaskIds(cs) && i < |cs| && CleanupsAfter(cs, a, i, p)
    ensures CleanupsAfter(cs, a, i + 1, DiscardCleanup(p, a, cs[i]))
  {
    var c := cs[i];
    OnlyCleanupOfItsTask(cs, i);
    assert cs[..i + 1] == cs[..i] + [c];
    assert cs[i..] == [c] + cs[i + 1..];
    var r := DiscardCleanup(p, a, c);
    forall x ensures x in r.taskCleanups <==> (x in cs[..i + 1] && !MatchesBounce(x, a)) || x in cs[i + 1..] {
      if x in cs[..i] || x in cs[i + 1..] { assert x in cs; }
    }
  }

  lemma HistoriesStep(w: World, cs: seq<TaskCleanup>, a: ExpiringAction, i: nat, p: World)
    requires DistinctTaskIds(cs) && i < |cs| && CleanupsAfter(cs, a, i, p) && HistoriesAfter(w, cs, a, i, p)
    ensures HistoriesAfter(w, cs, a, i + 1, DiscardCleanup(p, a, cs[i]))
  {
    var c := cs[i];
    OnlyCleanupOfItsTask(cs, i);
    assert cs[..i + 1] == cs[..i] + [c];
    if MatchesBounce(c, a) {
      assert !MatchedTask(cs[..i], a, c.taskId);
      forall t ensures MatchedTask(cs[..i + 1], a, t) <==> MatchedTask(cs[..i], a, t) || t == c.taskId {
        if t == c.taskId { assert c in cs[..i + 1]; }
      }
    } else {
      forall t ensures MatchedTask(cs[..i + 1], a, t) <==> MatchedTask(cs[..i], a, t) {
      }
    }
  }

  /** True when the loop rolls back the history of c's task: c is this bounce's and that history ends in TASK_CLEANING. */
  predicate RollsBack(w: World, a: ExpiringAction, c: TaskCleanup)
  {
    MatchesBounce(c, a) && EndsCleaning(HistoryOf(w, c.taskId))
  }

  /**
   The history deletions the cleanup loop records for the snapshot cs, in list
   order: one per cleanup of this bounce whose task's history in w ends in
   TASK_CLEANING, each with the second-to-last update of that history as fallback.
   */
  function RollbackEvents(w: World, a: ExpiringAction, cs: seq<TaskCleanup>): (r: seq<Event>)
    ensures |r| <= |cs|
    ensures forall e :: e in r ==>
              exists c :: c in cs && RollsBack(w, a, c)
                       && e == TaskHistoryUpdateDeleted(c.taskId, TaskCleaning, PreviousUpdate(HistoryOf(w, c.taskId)))
    ensures forall c :: c in cs && RollsBack(w, a, c) ==>
              TaskHistoryUpdateDeleted(c.taskId, TaskCleaning, PreviousUpdate(HistoryOf(w, c.taskId))) in r
    decreases |cs|
  {
    if cs == [] then []
    else
      var c := cs[|cs| - 1];
      assert forall x :: x in cs <==> x in cs[..|cs| - 1] || x == c by {
        assert cs == cs[..|cs| - 1] + [c];
      }
      RollbackEvents(w, a, cs[..|cs| - 1])
        + (if RollsBack(w, a, c)
           then [TaskHistoryUpdateDeleted(c.taskId, TaskCleaning, PreviousUpdate(HistoryOf(w, c.taskId)))]
           else [])
  }

  /** After i iterations: the log has gained exactly the deletions of the cleanups seen so far. */
  ghost predicate EventsAfter(w: World, cs: seq<TaskCleanup>, a: ExpiringAction, i: nat, r: World)
    requires i <= |cs|
  {
    r.events == w.events + RollbackEvents(w, a, cs[..i])
  }

  lemma EventsStep(w: World, cs: seq<TaskCleanup>, a: ExpiringAction, i: nat, p: World)
    requires DistinctTaskIds(cs) && i < |cs| && HistoriesAfter(w, cs, a, i, p) && EventsAfter(w, cs, a, i, p)
    ensures EventsAfter(w, cs, a, i + 1, DiscardCleanup(p, a, cs[i]))
  {
    var c := cs[i];
    OnlyCleanupOfItsTask(cs, i);
    assert cs[..i + 1][..i] == cs[..i];
    if MatchesBounce(c, a) {
      assert !MatchedTask(cs[..i], a, c.taskId);
      assert HistoryOf(p, c.taskId) == HistoryOf(w, c.taskId);
      assert !HasCleanupFor(WithoutTask(p.taskCleanups, c.taskId), c.taskId);
    }
  }

  /** After the first i iterations of the cleanup loop. */
  lemma {:induction false} DiscardCleanupsPrefix(w: World, a: ExpiringAction, i: nat)
    requires DistinctTaskIds(w.taskCleanups) && i <= |w.taskCleanups|
    ensures var r := DiscardCleanups(w, a, w.taskCleanups[..i]);
            && CleanupsAfter(w.taskCleanups, a, i, r)
            && HistoriesAfter(w, w.taskCleanups, a, i, r)
            && EventsAfter(w, w.taskCleanups, a, i, r)
            && OnlyCleanupsChanged(w, r)
  {
    var cs := w.taskCleanups;
    if i == 0 {
      assert cs[..0] == [] && cs[0..] == cs;
    } else {
      DiscardCleanupsPrefix(w, a, i - 1);
      var p := DiscardCleanups(w, a, cs[..i - 1]);
      assert cs[..i][..i - 1] == cs[..i - 1];
      assert DiscardCleanups(w, a, cs[..i]) == DiscardCleanup(p, a, cs[i - 1]);
      CleanupsStep(cs, a, i - 1, p);
      HistoriesStep(w, cs, a, i - 1, p);
      EventsStep(w, cs, a, i - 1, p);
    }
  }

  /**
   The cleanup loop removes exactly the cleanups this bounce queued, rolls back
   the trailing TASK_CLEANING update of exactly their tasks, records exactly
   those deletions in the log, and leaves every other store alone.
   */
  lemma DiscardCleanupsEffect(w: World, a: ExpiringAction)
    requires DistinctTaskIds(w.taskCleanups)
    ensures var r := DiscardCleanups(w, a, w.taskCleanups);
            && (forall c :: c in r.taskCleanups <==> c in w.taskCleanups && !MatchesBounce(c, a))
            && (forall t :: HistoryOf(r, t) ==
                  if MatchedTask(w.taskCleanups, a, t) then RolledBack(HistoryOf(w, t)) else HistoryOf(w, t))
            && r.events == w.events + RollbackEvents(w, a, w.taskCleanups)
            && r.(taskCleanups := w.taskCleanups, histories := w.histories, events := w.events) == w
  {
    var cs := w.taskCleanups;
    DiscardCleanupsPrefix(w, a, |cs|);
    assert cs[..|cs|] == cs && cs[|cs|..] == [];
  }

  /**
   One iteration for a cleanup c: the task's trailing TASK_CLEANING update is
   deleted exactly when c is this bounce's, no cleanup remains for the task once
   c is gone, and the last update is TASK_CLEANING; the deletion is recorded with
   the second-to-last update as fallback when there are two or more, and none
   otherwise. In every other case the history and the log are untouched.
   */
  lemma DiscardCleanupCases(w: World, a: ExpiringAction, c: TaskCleanup)
    ensures var r := DiscardCleanup(w, a, c);
            var h := HistoryOf(w, c.taskId);
            var rolls := MatchesBounce(c, a) && !HasCleanupFor(WithoutTask(w.taskCleanups, c.taskId), c.taskId)
                         && EndsCleaning(h);
            && r.taskCleanups == (if MatchesBounce(c, a) then WithoutTask(w.taskCleanups, c.taskId) else w.taskCleanups)
            && (HistoryOf(r, c.taskId) != h <==> rolls)
            && (rolls ==>
                  && HistoryOf(r, c.taskId) == h[..|h| - 1]
                  && r.events == w.events + [TaskHistoryUpdateDeleted(c.taskId, TaskCleaning,
                                                                      if |h| >= 2 then Some(h[|h| - 2]) else None)])
            && (!rolls ==> r.histories == w.histories && r.events == w.events)
  {
    var h := HistoryOf(w, c.taskId);
    if EndsCleaning(h) {
      assert |h[..|h| - 1]| != |h|;
    }
  }

  lemma DiscardCleanupConsistent(w: World, a: ExpiringAction, c: TaskCleanup)
    requires CleanupsConsistent(w)
    ensures CleanupsConsistent(DiscardCleanup(w, a, c))
  {
    if MatchesBounce(c, a) {
      WithoutTaskDistinct(w.taskCleanups, c.taskId);
    }
  }

  lemma {:induction false} DiscardCleanupsConsistent(w: World, a: ExpiringAction, cs: seq<TaskCleanup>)
    requires CleanupsConsistent(w)
    ensures CleanupsConsistent(DiscardCleanups(w, a, cs))
    decreases |cs|
  {
    if cs != [] {
      DiscardCleanupsConsistent(w, a, cs[..|cs| - 1]);
      DiscardCleanupConsistent(DiscardCleanups(w, a, cs[..|cs| - 1]), a, cs[|cs| - 1]);
    }
  }

  // ---------------------------------------------------------------- bounce: the whole handler

  /** Position i holds the first pending request for (rid, did). */
  ghost predicate FirstPendingAt(q: seq<PendingRequest>, i: int, rid: RequestId, did: DeployId)
  {
    && 0 <= i < |q|
    && PendingFor(q[i], rid, did)
    && forall j :: 0 <= j < i ==> !PendingFor(q[j], rid, did)
  }

  /**
   The pending request the bounce expiry deletes: one entry exactly when the
   first pending request for the bounce's request and deploy carries the
   bounce's action id, and then that entry; otherwise none.
   */
  function RemovedPending(q: seq<PendingRequest>, a: ExpiringAction): (m: multiset<PendingRequest>)
    requires a.payload.BouncePayload?
    ensures |m| <= 1
    ensures m <= multiset(q)
    ensures |m| == 1 <==>
              exists i :: FirstPendingAt(q, i, a.requestId, a.payload.deployId) && q[i].actionId == Some(a.actionId)
    ensures forall i :: FirstPendingAt(q, i, a.requestId, a.payload.deployId) && q[i].actionId == Some(a.actionId)
              ==> m == multiset{q[i]}
    ensures forall p :: p in m ==> PendingFor(p, a.requestId, a.payload.deployId) && p.actionId == Some(a.actionId)
  {
    if PendingMatches(q, a) then multiset{q[PendingIndex(q, a.requestId, a.payload.deployId).value]} else multiset{}
  }

  /**
   The pending queue after a bounce expiry: the first pending request for the
   bounce's request and deploy is deleted only when it carries the bounce's
   action id, every other entry is kept, and exactly one CANCEL_BOUNCE with the
   same action id, the user and the message is enqueued last.
   */
  lemma CancelBounceQueueEffect(q: seq<PendingRequest>, a: ExpiringAction, message: string, now: int)
    requires a.payload.BouncePayload?
    ensures var r := CancelBounceQueue(q, a, message, now);
            var cancel := PendingRequest(a.requestId, a.payload.deployId, now, a.user, CancelBounce, Some(message), Some(a.actionId));
            && |r| > 0 && r[|r| - 1] == cancel
            && multiset(r) == multiset(q) - RemovedPending(q, a) + multiset{cancel}
            && (forall p :: p in q && !(PendingFor(p, a.requestId, a.payload.deployId) && p.actionId == Some(a.actionId))
                  ==> p in r)
  {
    var cancel := CancelBounceRequest(a, message, now);
    var kept := if PendingMatches(q, a)
                then RemoveAt(q, PendingIndex(q, a.requestId, a.payload.deployId).value)
                else q;
    assert CancelBounceQueue(q, a, message, now) == kept + [cancel];
    assert multiset(kept) == multiset(q) - RemovedPending(q, a);
    forall p | p in q && !(PendingFor(p, a.requestId, a.payload.deployId) && p.actionId == Some(a.actionId))
      ensures p in kept
    {
      assert p !in RemovedPending(q, a);
      assert multiset(q)[p] > 0;
      assert multiset(kept)[p] > 0;
    }
  }

  /**
   Expiring a bounce deletes exactly the task cleanups it queued, rolls back the
   trailing TASK_CLEANING updates of their tasks, records exactly those
   deletions in the log, and changes the pending queue as CancelBounceQueueEffect
   states; nothing else changes.
   */
  lemma BounceRevertEffect(w: World, a: ExpiringAction, message: string, now: int)
    requires a.payload.BouncePayload? && DistinctTaskIds(w.taskCleanups)
    ensures var r := BounceRevert(w, a, message, now);
            && (forall c :: c in r.taskCleanups <==> c in w.taskCleanups && !MatchesBounce(c, a))
            && (forall t :: HistoryOf(r, t) ==
                  if MatchedTask(w.taskCleanups, a, t) then RolledBack(HistoryOf(w, t)) else HistoryOf(w, t))
            && r.events == w.events + RollbackEvents(w, a, w.taskCleanups)
            && r.pending == CancelBounceQueue(w.pending, a, message, now)
            && r.(taskCleanups := w.taskCleanups, histories := w.histories, pending := w.pending, events := w.events) == w
  {
    DiscardCleanupsEffect(w, a);
  }

  // ---------------------------------------------------------------- pause

  /** Expiring a pause unpauses the request, with the user and the message, exactly when it is PAUSED; otherwise nothing happens. */
  lemma PauseRevertEffect(w: World, a: ExpiringAction, rws: RequestWithState, message: string)
    ensures var r := PauseRevert(w, a, rws, message);
            && (r != w <==> rws.state == Paused)
            && (rws.state == Paused ==>
                  && r.events == w.events + [Unpaused(rws.request, a.user, Some(message), None)]
                  && r.requests == w.requests[rws.request.id := RequestWithState(rws.request, Active)]
                  && r.(events := w.events, requests := w.requests) == w)
  {
    if rws.state == Paused {
      assert |PauseRevert(w, a, rws, message).events| == |w.events| + 1;
    }
  }

  // ---------------------------------------------------------------- scale

  /**
   Expiring a scale: if the validator rejects the update nothing happens (no mail,
   no bounce). Otherwise the request is stored with only its instance count
   reverted, the update is recorded as SCALE_REVERTED, a bounce and a new expiring
   bounce under the fresh action id follow exactly when Cascades holds, and one
   scaled mail with the old instance count is sent last.
   */
  lemma ScaleRevertEffect(w: World, a: ExpiringAction, rws: RequestWithState, message: string, env: Env)
    requires a.payload.ScalePayload?
    ensures var r := ScaleRevert(w, a, rws, message, env);
            var newRequest := ScaledRequest(a, rws.request);
            && newRequest == rws.request.(instances := a.payload.revertToInstances)
            && (!env.accepts(newRequest, rws.request) ==> r == w)
            && (env.accepts(newRequest, rws.request) ==>
                  var cascade := Cascades(w, newRequest, a, env);
                  && r.requests == w.requests[newRequest.id := RequestWithState(newRequest, rws.state)]
                  && r.events == w.events
                       + [RequestUpdated(newRequest, Some(rws.request), rws.state, Some(ScaleReverted), a.user, None, Some(message))]
                       + (if cascade then [Bounced(rws.request, env.now, a.user, Some(BounceMessage(a.user)))] else [])
                       + [ScaledMail(newRequest, rws.request.instances, a.user)]
                  && r.expiring == (if cascade
                                    then SaveRecord(w.expiring, CascadedBounce(a, newRequest, w.inUseDeploys[newRequest.id], env))
                                    else w.expiring)
                  && r.requestCleanups == (if cascade
                                           then w.requestCleanups + [BounceCleanupRequest(a, newRequest, w.inUseDeploys[newRequest.id], env)]
                                           else w.requestCleanups)
                  && r.(requests := w.requests, events := w.events, expiring := w.expiring, requestCleanups := w.requestCleanups) == w)
  {
  }

  /** A request cleanup that already EXISTED stops the cascade: no bounce call and no new expiring bounce. */
  lemma ScaleCascadeOnce(w: World, a: ExpiringAction, rws: RequestWithState, message: string, env: Env)
    requires a.payload.ScalePayload?
    requires var newRequest := ScaledRequest(a, rws.request);
             newRequest.id in w.inUseDeploys &&
             CleanupRequestExists(w.requestCleanups, BounceCleanupRequest(a, newRequest, w.inUseDeploys[newRequest.id], env))
    ensures var r := ScaleRevert(w, a, rws, message, env);
            && r.expiring == w.expiring
            && r.requestCleanups == w.requestCleanups
            && w.events <= r.events
            && forall i :: |w.events| <= i < |r.events| ==> !r.events[i].Bounced?
  {
    ScaleRevertEffect(w, a, rws, message, env);
  }

  // ---------------------------------------------------------------- skip healthchecks

  /**
   Expiring a skip-healthchecks action: a rejected update changes nothing;
   an accepted one stores the request with only its skipHealthchecks flag
   reverted and records the update with no history type.
   */
  lemma SkipHealthchecksRevertEffect(w: World, a: ExpiringAction, rws: RequestWithState, message: string, env: Env)
    requires a.payload.SkipHealthchecksPayload?
    ensures var r := SkipHealthchecksRevert(w, a, rws, message, env);
            var newRequest := SkipHealthchecksRequest(a, rws.request);
            && newRequest == rws.request.(skipHealthchecks := a.payload.revertToSkipHealthchecks)
            && (!env.accepts(newRequest, rws.request) ==> r == w)
            && (env.accepts(newRequest, rws.request) ==>
                  && r.requests == w.requests[newRequest.id := RequestWithState(newRequest, rws.state)]
                  && r.events == w.events + [RequestUpdated(newRequest, Some(rws.request), rws.state, None, a.user, None, Some(message))]
                  && r.(requests := w.requests, events := w.events) == w)
  {
  }

  // ---------------------------------------------------------------- what every handler keeps

  /** A record the scale handler saves for a cascaded bounce. */
  ghost predicate FreshCascadedBounce(x: ExpiringAction, env: Env)
  {
    && x.payload.BouncePayload?
    && x.startMillis == env.now
    && x.apiRequest == DefaultBounceRequest
    && x.actionId == env.freshActionId(x.requestId)
  }

  /**
   Only the scale handler writes to the expiring store, and only by saving a fresh
   bounce record (which replaces the request's bounce record, if any); records of
   the other kinds are never touched and the keys stay unique.
   */
  lemma RevertExpiringFrame(w: World, a: ExpiringAction, rws: RequestWithState, message: string, env: Env)
    ensures var r := Revert(w, a, rws, message, env);
            && (KindOf(a) != Scale ==> r.expiring == w.expiring)
            && (forall x :: KindOf(x) != Bounce ==> (x in r.expiring <==> x in w.expiring))
            && (forall x :: x in r.expiring && x !in w.expiring ==> FreshCascadedBounce(x, env))
            && (UniqueKeys(w.expiring) ==> UniqueKeys(r.expiring))
  {
    match a.payload {
      case BouncePayload(_) =>
        DiscardCleanupsExpiring(w, a, w.taskCleanups);
      case PausePayload =>
      case ScalePayload(_) =>
        var newRequest := ScaledRequest(a, rws.request);
        if env.accepts(newRequest, rws.request) && Cascades(w, newRequest, a, env) {
          if UniqueKeys(w.expiring) {
            SaveRecordUnique(w.expiring, CascadedBounce(a, newRequest, w.inUseDeploys[newRequest.id], env));
          }
        }
      case SkipHealthchecksPayload(_) =>
    }
  }

  lemma {:induction false} DiscardCleanupsExpiring(w: World, a: ExpiringAction, cs: seq<TaskCleanup>)
    ensures var r := DiscardCleanups(w, a, cs);
            r.expiring == w.expiring && r.requests == w.requests && r.pending == w.pending
    decreases |cs|
  {
    if cs != [] {
      DiscardCleanupsExpiring(w, a, cs[..|cs| - 1]);
    }
  }

  /** Every handler keeps the cleanup store consistent and every request stored under its own id. */
  lemma RevertConsistent(w: World, a: ExpiringAction, rws: RequestWithState, message: string, env: Env)
    requires CleanupsConsistent(w) && RequestsKeyed(w)
    ensures CleanupsConsistent(Revert(w, a, rws, message, env))
    ensures RequestsKeyed(Revert(w, a, rws, message, env))
  {
    match a.payload {
      case BouncePayload(_) =>
        DiscardCleanupsConsistent(w, a, w.taskCleanups);
        DiscardCleanupsExpiring(w, a, w.taskCleanups);
        var w1 := DiscardCleanups(w, a, w.taskCleanups);
        assert BounceRevert(w, a, message, env.now).(pending := w1.pending) == w1;
      case PausePayload =>
      case ScalePayload(_) =>
      case SkipHealthchecksPayload(_) =>
    }
  }
}
