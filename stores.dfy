/**
 The stores the poller works on, as sequences in store order, and the store
 operations it calls: list the expiring records of one kind, delete and save
 them, delete and look up task cleanups, look up and delete pending requests,
 and create a request cleanup only if none exists.
 */
module Stores {
  import opened Model

  // ---------------------------------------------------------------- expiring records

  /** No two records share a kind and a request id. */
  ghost predicate UniqueKeys(s: seq<ExpiringAction>)
  {
    forall i, j :: 0 <= i < j < |s| ==> Key(s[i]) != Key(s[j])
  }

  /** getExpiringObjects: the records of one kind, in store order. */
  function RecordsOf(s: seq<ExpiringAction>, k: Kind): (r: seq<ExpiringAction>)
    ensures forall x :: x in r <==> x in s && KindOf(x) == k
    ensures |r| <= |s|
  {
    if s == [] then []
    else (if KindOf(s[0]) == k then [s[0]] else []) + RecordsOf(s[1..], k)
  }

  /** deleteExpiringObject: drop the record of kind k for request rid, if any. */
  function DeleteRecord(s: seq<ExpiringAction>, k: Kind, rid: RequestId): (r: seq<ExpiringAction>)
    ensures forall x :: x in r <==> x in s && Key(x) != (k, rid)
    ensures |r| <= |s|
  {
    if s == [] then []
    else (if Key(s[0]) == (k, rid) then [] else [s[0]]) + DeleteRecord(s[1..], k, rid)
  }

  /** saveExpiringObject: the new record replaces any record with the same key. */
  function SaveRecord(s: seq<ExpiringAction>, a: ExpiringAction): (r: seq<ExpiringAction>)
    ensures forall x :: x in r <==> x == a || (x in s && Key(x) != Key(a))
  {
    DeleteRecord(s, KindOf(a), a.requestId) + [a]
  }

  lemma {:induction false} RecordsOfUnique(s: seq<ExpiringAction>, k: Kind)
    requires UniqueKeys(s)
    ensures UniqueKeys(RecordsOf(s, k))
  {
    if s != [] {
      RecordsOfUnique(s[1..], k);
      var tail := RecordsOf(s[1..], k);
      forall y | y in tail ensures Key(y) != Key(s[0]) {
        var j :| 0 <= j < |s[1..]| && s[1..][j] == y;
        assert s[j + 1] == y;
      }
      ConsUnique(if KindOf(s[0]) == k then [s[0]] else [], tail);
    }
  }

  lemma {:induction false} DeleteRecordUnique(s: seq<ExpiringAction>, k: Kind, rid: RequestId)
    requires UniqueKeys(s)
    ensures UniqueKeys(DeleteRecord(s, k, rid))
  {
    if s != [] {
      DeleteRecordUnique(s[1..], k, rid);
      var tail := DeleteRecord(s[1..], k, rid);
      forall y | y in tail ensures Key(y) != Key(s[0]) {
        var j :| 0 <= j < |s[1..]| && s[1..][j] == y;
        assert s[j + 1] == y;
      }
      ConsUnique(if Key(s[0]) == (k, rid) then [] else [s[0]], tail);
    }
  }

  lemma SaveRecordUnique(s: seq<ExpiringAction>, a: ExpiringAction)
    requires UniqueKeys(s)
    ensures UniqueKeys(SaveRecord(s, a))
  {
    var d := DeleteRecord(s, KindOf(a), a.requestId);
    DeleteRecordUnique(s, KindOf(a), a.requestId);
    var r := d + [a];
    forall i, j | 0 <= i < j < |r| ensures Key(r[i]) != Key(r[j]) {
      if j == |r| - 1 {
        assert r[i] == d[i];
        assert d[i] in d;
      } else {
        assert r[i] == d[i] && r[j] == d[j];
      }
    }
  }

  /** A prefix of at most one record whose key is new keeps the keys unique. */
  lemma ConsUnique(h: seq<ExpiringAction>, t: seq<ExpiringAction>)
    requires |h| <= 1 && UniqueKeys(t)
    requires forall y :: y in h ==> forall z :: z in t ==> Key(z) != Key(y)
    ensures UniqueKeys(h + t)
  {
    var r := h + t;
    forall i, j | 0 <= i < j < |r| ensures Key(r[i]) != Key(r[j]) {
      if i < |h| {
        assert r[i] == h[i] && r[j] == t[j - |h|];
        assert h[i] in h && t[j - |h|] in t;
      } else {
        assert r[i] == t[i - |h|] && r[j] == t[j - |h|];
      }
    }
  }

  /** Two records of a store with unique keys that share a key are the same record. */
  lemma UniqueKeysMeansUnique(s: seq<ExpiringAction>, x: ExpiringAction, y: ExpiringAction)
    requires UniqueKeys(s) && x in s && y in s && Key(x) == Key(y)
    ensures x == y
  {
    var i :| 0 <= i < |s| && s[i] == x;
    var j :| 0 <= j < |s| && s[j] == y;
    assert i == j;
  }

  /** In a sequence with unique keys, element i occurs neither before nor after position i. */
  lemma UniqueSplit(rs: seq<ExpiringAction>, i: nat)
    requires UniqueKeys(rs) && i < |rs|
    ensures rs[..i + 1] == rs[..i] + [rs[i]]
    ensures rs[i..] == [rs[i]] + rs[i + 1..]
    ensures rs[i] !in rs[..i] && rs[i] !in rs[i + 1..]
  {
    var a := rs[i];
    assert rs[..i + 1] == rs[..i] + [a];
    assert rs[i..] == [a] + rs[i + 1..];
    var before := rs[..i];
    forall j | 0 <= j < |before| ensures before[j] != a {
      assert before[j] == rs[j];
      assert Key(rs[j]) != Key(rs[i]);
    }
    var rest := rs[i + 1..];
    forall j | 0 <= j < |rest| ensures rest[j] != a {
      assert rest[j] == rs[i + 1 + j];
      assert Key(rs[i]) != Key(rs[i + 1 + j]);
    }
  }

  // ---------------------------------------------------------------- task cleanups

  /** The cleanup store is keyed by task: no task appears twice. */
  ghost predicate DistinctTaskIds(cs: seq<TaskCleanup>)
  {
    forall i, j :: 0 <= i < j < |cs| ==> cs[i].taskId != cs[j].taskId
  }

  /** deleteCleanupTask: drop the cleanup of task t. */
  function WithoutTask(cs: seq<TaskCleanup>, t: TaskId): (r: seq<TaskCleanup>)
    ensures forall c :: c in r <==> c in cs && c.taskId != t
    ensures |r| <= |cs|
  {
    if cs == [] then []
    else (if cs[0].taskId == t then [] else [cs[0]]) + WithoutTask(cs[1..], t)
  }

  /** getTaskCleanup(t).isPresent() */
  predicate HasCleanupFor(cs: seq<TaskCleanup>, t: TaskId)
  {
    exists c :: c in cs && c.taskId == t
  }

  lemma {:induction false} WithoutTaskDistinct(cs: seq<TaskCleanup>, t: TaskId)
    requires DistinctTaskIds(cs)
    ensures DistinctTaskIds(WithoutTask(cs, t))
  {
    if cs != [] {
      WithoutTaskDistinct(cs[1..], t);
      var h := if cs[0].taskId == t then [] else [cs[0]];
      var tail := WithoutTask(cs[1..], t);
      forall y | y in tail ensures y.taskId != cs[0].taskId {
        var j :| 0 <= j < |cs[1..]| && cs[1..][j] == y;
        assert cs[j + 1] == y;
      }
      var r := h + tail;
      forall i, j | 0 <= i < j < |r| ensures r[i].taskId != r[j].taskId {
        if i < |h| {
          assert r[i] == cs[0] && r[j] == tail[j - |h|] && tail[j - |h|] in tail;
        } else {
          assert r[i] == tail[i - |h|] && r[j] == tail[j - |h|];
        }
      }
    }
  }

  /** Two cleanups of a store with distinct task ids that share a task id are the same cleanup. */
  lemma DistinctMeansUnique(cs: seq<TaskCleanup>, x: TaskCleanup, y: TaskCleanup)
    requires DistinctTaskIds(cs) && x in cs && y in cs && x.taskId == y.taskId
    ensures x == y
  {
    var i :| 0 <= i < |cs| && cs[i] == x;
    var j :| 0 <= j < |cs| && cs[j] == y;
    assert i == j;
  }

  // ---------------------------------------------------------------- pending requests

  predicate PendingFor(p: PendingRequest, rid: RequestId, did: DeployId)
  {
    p.requestId == rid && p.deployId == did
  }

  /** getPendingRequest: the position of the first pending request for (rid, did). */
  function PendingIndex(q: seq<PendingRequest>, rid: RequestId, did: DeployId): (r: Option<nat>)
    ensures r.Some? ==> r.value < |q| && PendingFor(q[r.value], rid, did)
    ensures r.Some? ==> forall j :: 0 <= j < r.value ==> !PendingFor(q[j], rid, did)
    ensures r.None? ==> forall j :: 0 <= j < |q| ==> !PendingFor(q[j], rid, did)
  {
    if q == [] then None
    else if PendingFor(q[0], rid, did) then Some(0)
    else match PendingIndex(q[1..], rid, did)
      case None => None
      case Some(i) => Some(i + 1)
  }

  /** deletePendingRequest: drop the entry at position i and nothing else. */
  function RemoveAt(q: seq<PendingRequest>, i: nat): (r: seq<PendingRequest>)
    requires i < |q|
    ensures |r| == |q| - 1
    ensures multiset(r) == multiset(q) - multiset{q[i]}
    ensures forall j :: 0 <= j < |r| ==> r[j] == (if j < i then q[j] else q[j + 1])
  {
    assert q == q[..i] + [q[i]] + q[i + 1..];
    q[..i] + q[i + 1..]
  }

  // ---------------------------------------------------------------- request cleanups

  /** createCleanupRequest reports EXISTED when a cleanup of the same type is already queued for the request. */
  predicate CleanupRequestExists(store: seq<RequestCleanup>, c: RequestCleanup)
  {
    exists d :: d in store && d.requestId == c.requestId && d.cleanupType == c.cleanupType
  }
}
