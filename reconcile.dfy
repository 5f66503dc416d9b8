/**
 The generic expiry loop and the poll driver as transitions on the stores:
 for each record of one kind that is due, run the kind's handler when the
 request still exists, then delete the record; run the four kinds in order.
 */
module Reconcile {
  import opened Model
  import opened DeadlinePolicy
  import opened Stores
  import opened Handlers
  import opened HandlerProperties

  ghost predicate AllHaveDuration(s: seq<ExpiringAction>)
  {
    forall x :: x in s ==> HasDuration(x)
  }

  /** What the stores guarantee between polls. */
  ghost predicate Consistent(w: World)
  {
    && UniqueKeys(w.expiring)
    && AllHaveDuration(w.expiring)
    && CleanupsConsistent(w)
    && RequestsKeyed(w)
  }

  /** One iteration of checkExpiringObjects. */
  function ProcessRecord(w: World, a: ExpiringAction, config: Config, env: Env): World
    requires HasDuration(a)
  {
    if !IsExpiringDue(a, env.now, config) then w
    else
      var w1 := if a.requestId in w.requests
                then Revert(w, a, w.requests[a.requestId], Message(a, config, env.formatDuration), env)
                else w;
      w1.(expiring := DeleteRecord(w1.expiring, KindOf(a), a.requestId))
  }

  /** The loop of checkExpiringObjects over a snapshot rs of the records, in list order. */
  function ProcessRecords(w: World, rs: seq<ExpiringAction>, config: Config, env: Env): World
    requires forall x :: x in rs ==> HasDuration(x)
    decreases |rs|
  {
    if rs == [] then w
    else ProcessRecord(ProcessRecords(w, rs[..|rs| - 1], config, env), rs[|rs| - 1], config, env)
  }

  /** checkExpiringObjects for one kind. */
  function CheckKind(w: World, k: Kind, config: Config, env: Env): World
    requires AllHaveDuration(w.expiring)
  {
    ProcessRecords(w, RecordsOf(w.expiring, k), config, env)
  }

  /** The handlers in the order the poller registers them. */
  const HandlerOrder: seq<Kind> := [Bounce, Pause, Scale, SkipHealthchecks]

  /** runActionOnPoll over the handler kinds ks, in order. */
  function RunHandlers(w: World, ks: seq<Kind>, config: Config, env: Env): (r: World)
    requires Consistent(w)
    ensures Consistent(r)
    decreases |ks|
  {
    if ks == [] then w
    else
      var p := RunHandlers(w, ks[..|ks| - 1], config, env);
      CheckKindConsistent(p, ks[|ks| - 1], config, env);
      CheckKind(p, ks[|ks| - 1], config, env)
  }

  function Poll(w: World, config: Config, env: Env): World
    requires Consistent(w)
  {
    RunHandlers(w, HandlerOrder, config, env)
  }

  // ---------------------------------------------------------------- one record

  /**
   A record that is not yet due is left alone and nothing is done for it; a due
   record is deleted whether or not its request exists, and when the request is
   gone nothing but the deletion happens.
   */
  lemma ProcessRecordCases(w: World, a: ExpiringAction, config: Config, env: Env)
    requires HasDuration(a)
    ensures !IsExpiringDue(a, env.now, config) ==> ProcessRecord(w, a, config, env) == w
    ensures IsExpiringDue(a, env.now, config) ==>
              Key(a) !in set x | x in ProcessRecord(w, a, config, env).expiring :: Key(x)
    ensures IsExpiringDue(a, env.now, config) && a.requestId !in w.requests ==>
              ProcessRecord(w, a, config, env) == w.(expiring := DeleteRecord(w.expiring, KindOf(a), a.requestId))
  {
  }

  /**
   A rejected scale or skip-healthchecks update is swallowed: the record is
   deleted all the same and nothing else changes, so no mail and no bounce.
   */
  lemma RejectedUpdateStillDeleted(w: World, a: ExpiringAction, config: Config, env: Env)
    requires HasDuration(a) && IsExpiringDue(a, env.now, config) && a.requestId in w.requests
    requires var current := w.requests[a.requestId].request;
             || (a.payload.ScalePayload? && !env.accepts(ScaledRequest(a, current), current))
             || (a.payload.SkipHealthchecksPayload? && !env.accepts(SkipHealthchecksRequest(a, current), current))
    ensures ProcessRecord(w, a, config, env) == w.(expiring := DeleteRecord(w.expiring, KindOf(a), a.requestId))
  {
  }

  lemma ProcessRecordConsistent(w: World, a: ExpiringAction, config: Config, env: Env)
    requires Consistent(w) && HasDuration(a)
    ensures Consistent(ProcessRecord(w, a, config, env))
  {
    if IsExpiringDue(a, env.now, config) {
      var w1 := if a.requestId in w.requests
                then Revert(w, a, w.requests[a.requestId], Message(a, config, env.formatDuration), env)
                else w;
      if a.requestId in w.requests {
        var rws := w.requests[a.requestId];
        var msg := Message(a, config, env.formatDuration);
        RevertExpiringFrame(w, a, rws, msg, env);
        RevertConsistent(w, a, rws, msg, env);
        forall x | x in w1.expiring ensures HasDuration(x) {
          if x !in w.expiring { assert FreshCascadedBounce(x, env); }
        }
      }
      DeleteRecordUnique(w1.expiring, KindOf(a), a.requestId);
    }
  }

  lemma {:induction false} ProcessRecordsConsistent(w: World, rs: seq<ExpiringAction>, config: Config, env: Env)
    requires Consistent(w) && forall x :: x in rs ==> HasDuration(x)
    ensures Consistent(ProcessRecords(w, rs, config, env))
    decreases |rs|
  {
    if rs != [] {
      ProcessRecordsConsistent(w, rs[..|rs| - 1], config, env);
      ProcessRecordConsistent(ProcessRecords(w, rs[..|rs| - 1], config, env), rs[|rs| - 1], config, env);
    }
  }

  lemma CheckKindConsistent(w: World, k: Kind, config: Config, env: Env)
    requires Consistent(w)
    ensures Consistent(CheckKind(w, k, config, env))
  {
    ProcessRecordsConsistent(w, RecordsOf(w.expiring, k), config, env);
  }

  // ---------------------------------------------------------------- one kind

  /** After i iterations over the snapshot of kind k: the records seen so far that were due are gone, the rest remain. */
  ghost predicate KindAfter(w: World, k: Kind, i: nat, now: int, config: Config, r: World)
    requires AllHaveDuration(w.expiring) && i <= |RecordsOf(w.expiring, k)|
  {
    var rs := RecordsOf(w.expiring, k);
    forall x :: KindOf(x) == k ==>
      (x in r.expiring <==> (x in rs[..i] && !IsExpiringDue(x, now, config)) || x in rs[i..])
  }

  /** Records of the other kinds stay as they were, except bounce records while the scale handler runs. */
  ghost predicate OtherKindsKept(w: World, k: Kind, r: World)
  {
    forall x :: KindOf(x) != k && (k != Scale || KindOf(x) != Bounce) ==> (x in r.expiring <==> x in w.expiring)
  }

  ghost predicate OnlyFreshAdded(w: World, env: Env, r: World)
  {
    forall x :: x in r.expiring && x !in w.expiring ==> FreshCascadedBounce(x, env)
  }

  /**
   What one iteration does to the expiring store: a due record's key is deleted,
   records of other kinds stay (except bounces under a scale expiry), and only
   fresh cascaded bounces are added.
   */
  lemma ProcessRecordExpiring(p: World, a: ExpiringAction, config: Config, env: Env)
    requires HasDuration(a)
    ensures var r := ProcessRecord(p, a, config, env);
            && (forall x :: KindOf(x) == KindOf(a) ==>
                  (x in r.expiring <==> x in p.expiring && (Key(x) != Key(a) || !IsExpiringDue(a, env.now, config))))
            && (forall x :: KindOf(x) != KindOf(a) && (KindOf(a) != Scale || KindOf(x) != Bounce) ==>
                  (x in r.expiring <==> x in p.expiring))
            && (forall x :: x in r.expiring && x !in p.expiring ==> FreshCascadedBounce(x, env))
  {
    if IsExpiringDue(a, env.now, config) && a.requestId in p.requests {
      RevertExpiringFrame(p, a, p.requests[a.requestId], Message(a, config, env.formatDuration), env);
    }
  }

  /** The snapshot of kind k holds each of its records once, so record i is neither before nor after itself. */
  lemma SnapshotSplit(w: World, k: Kind, i: nat)
    requires UniqueKeys(w.expiring) && i < |RecordsOf(w.expiring, k)|
    ensures var rs := RecordsOf(w.expiring, k);
            && rs[..i + 1] == rs[..i] + [rs[i]]
            && rs[i..] == [rs[i]] + rs[i + 1..]
            && rs[i] !in rs[..i] && rs[i] !in rs[i + 1..]
  {
    RecordsOfUnique(w.expiring, k);
    UniqueSplit(RecordsOf(w.expiring, k), i);
  }

  lemma KindStep(w: World, k: Kind, i: nat, config: Config, env: Env, p: World)
    requires UniqueKeys(w.expiring) && AllHaveDuration(w.expiring) && i < |RecordsOf(w.expiring, k)|
    requires KindAfter(w, k, i, env.now, config, p) && OtherKindsKept(w, k, p) && OnlyFreshAdded(w, env, p)
    ensures var rs := RecordsOf(w.expiring, k);
            var r := ProcessRecord(p, rs[i], config, env);
            KindAfter(w, k, i + 1, env.now, config, r) && OtherKindsKept(w, k, r) && OnlyFreshAdded(w, env, r)
  {
    var rs := RecordsOf(w.expiring, k);
    var a := rs[i];
    assert a in rs;
    SnapshotSplit(w, k, i);
    ProcessRecordExpiring(p, a, config, env);
    var r := ProcessRecord(p, a, config, env);
    forall x | KindOf(x) == k
      ensures x in r.expiring <==> (x in rs[..i + 1] && !IsExpiringDue(x, env.now, config)) || x in rs[i + 1..]
    {
      if x in rs[..i] || x in rs[i + 1..] {
        assert x in rs;
        if Key(x) == Key(a) { UniqueKeysMeansUnique(w.expiring, x, a); }
      } else if x in p.expiring && Key(x) == Key(a) {
        assert x in rs[i..];
      }
    }
  }

  lemma {:induction false} CheckKindPrefix(w: World, k: Kind, i: nat, config: Config, env: Env)
    requires UniqueKeys(w.expiring) && AllHaveDuration(w.expiring) && i <= |RecordsOf(w.expiring, k)|
    ensures var rs := RecordsOf(w.expiring, k);
            var r := ProcessRecords(w, rs[..i], config, env);
            KindAfter(w, k, i, env.now, config, r) && OtherKindsKept(w, k, r) && OnlyFreshAdded(w, env, r)
  {
    var rs := RecordsOf(w.expiring, k);
    if i == 0 {
      assert rs[..0] == [] && rs[0..] == rs;
    } else {
      CheckKindPrefix(w, k, i - 1, config, env);
      assert rs[..i][..i - 1] == rs[..i - 1];
      KindStep(w, k, i - 1, config, env, ProcessRecords(w, rs[..i - 1], config, env));
    }
  }

  /**
   One handler pass over kind k deletes every due record of that kind and keeps
   every record of that kind that is not yet due; the records of other kinds stay
   as they were, except that the scale pass may replace bounce records, and the
   only records it adds are fresh cascaded bounces.
   */
  lemma CheckKindEffect(w: World, k: Kind, config: Config, env: Env)
    requires Consistent(w)
    ensures var r := CheckKind(w, k, config, env);
            && (forall x :: x in RecordsOf(r.expiring, k) <==>
                  x in RecordsOf(w.expiring, k) && !IsExpiringDue(x, env.now, config))
            && OtherKindsKept(w, k, r)
            && OnlyFreshAdded(w, env, r)
  {
    var rs := RecordsOf(w.expiring, k);
    CheckKindPrefix(w, k, |rs|, config, env);
    assert rs[..|rs|] == rs && rs[|rs|..] == [];
  }

  // ---------------------------------------------------------------- the poll

  /** The poll runs the bounce, pause, scale and skip-healthchecks passes one after another. */
  lemma PollUnfolds(w: World, config: Config, env: Env)
    requires Consistent(w)
    ensures RunHandlers(w, [Bounce], config, env) == CheckKind(w, Bounce, config, env)
    ensures RunHandlers(w, [Bounce, Pause], config, env)
            == CheckKind(RunHandlers(w, [Bounce], config, env), Pause, config, env)
    ensures RunHandlers(w, [Bounce, Pause, Scale], config, env)
            == CheckKind(RunHandlers(w, [Bounce, Pause], config, env), Scale, config, env)
    ensures Poll(w, config, env)
            == CheckKind(RunHandlers(w, [Bounce, Pause, Scale], config, env), SkipHealthchecks, config, env)
  {
    var hs := HandlerOrder;
    assert hs[..3] == [Bounce, Pause, Scale];
    assert [Bounce, Pause, Scale][..2] == [Bounce, Pause];
    assert [Bounce, Pause][..1] == [Bounce];
    assert [Bounce][..0] == [];
  }

  /**
   After one poll, every pause, scale and skip-healthchecks record that was due
   is gone and every one that was not due is still there (and no new one
   appears); every bounce record left is either one that was not due or a fresh
   bounce saved by a scale expiry in this poll.
   */
  lemma PollExpiring(w: World, config: Config, env: Env)
    requires Consistent(w)
    ensures var r := Poll(w, config, env);
            && (forall x :: KindOf(x) != Bounce ==>
                  (x in r.expiring <==> x in w.expiring && !IsExpiringDue(x, env.now, config)))
            && (forall x :: x in r.expiring && KindOf(x) == Bounce ==>
                  (x in w.expiring && !IsExpiringDue(x, env.now, config)) || FreshCascadedBounce(x, env))
  {
    PollUnfolds(w, config, env);
    var w1 := RunHandlers(w, [Bounce], config, env);
    var w2 := RunHandlers(w, [Bounce, Pause], config, env);
    var w3 := RunHandlers(w, [Bounce, Pause, Scale], config, env);
    CheckKindEffect(w, Bounce, config, env);
    CheckKindEffect(w1, Pause, config, env);
    CheckKindEffect(w2, Scale, config, env);
    CheckKindEffect(w3, SkipHealthchecks, config, env);
  }

  // ---------------------------------------------------------------- a worked case

  /**
   A scale of request "r" to 5 instances, started at 0 for one minute with
   revert-to 2 and bounceAfterScale set, expires at 60001 while deploy "d" is in
   use: the request goes back to 2 instances, the scale record is deleted, and an
   expiring bounce for "r" under the fresh action id takes its place.
   */
  lemma ScaleExpiryCascades(env: Env)
    requires env.now == 60001 && env.freshActionId("r") == "b1"
    requires env.accepts(Request("r", Some(2), None, Some(true)), Request("r", Some(5), None, Some(true)))
    ensures var scaled := Request("r", Some(5), None, Some(true));
            var a := ExpiringAction("r", Some("u"), 0, ExpiringApiRequest(Some(60000), None), "s1", ScalePayload(Some(2)));
            var w := World([a], map["r" := RequestWithState(scaled, Active)], map["r" := "d"], [], map[], [], [], []);
            var r := ProcessRecord(w, a, Config(60), env);
            && r.requests["r"] == RequestWithState(Request("r", Some(2), None, Some(true)), Active)
            && r.expiring == [ExpiringAction("r", Some("u"), 60001, DefaultBounceRequest, "b1", BouncePayload("d"))]
            && |r.events| == 3 && r.events[1].Bounced? && r.events[2] == ScaledMail(Request("r", Some(2), None, Some(true)), Some(5), Some("u"))
  {
    var scaled := Request("r", Some(5), None, Some(true));
    var a := ExpiringAction("r", Some("u"), 0, ExpiringApiRequest(Some(60000), None), "s1", ScalePayload(Some(2)));
    var w := World([a], map["r" := RequestWithState(scaled, Active)], map["r" := "d"], [], map[], [], [], []);
    var bounce := ExpiringAction("r", Some("u"), 60001, DefaultBounceRequest, "b1", BouncePayload("d"));
    assert IsExpiringDue(a, env.now, Config(60));
    var msg := Message(a, Config(60), env.formatDuration);
    var w1 := Revert(w, a, w.requests["r"], msg, env);
    assert !CleanupRequestExists([], BounceCleanupRequest(a, ScaledRequest(a, scaled), "d", env));
    ScaleRevertEffect(w, a, w.requests["r"], msg, env);
    assert DeleteRecord([a], Bounce, "r") == [a];
    assert w1.expiring == [a, bounce];
    assert DeleteRecord([a, bounce], Scale, "r") == [bounce];
  }
}
