/**
 * Failure handling: demoting a worker whose heartbeat is stale and handing
 * its unfinished chunks to the first worker that is still active.
 *
 * Re-dispatching a reassigned chunk is a network send that never changes the
 * coordinator's state, so it does not appear here.
 */
module Failover {
  import opened Wrappers
  import opened Registry
  import opened Chunks
  import opened Coordinator

  /** Seconds without a heartbeat after which a worker counts as failed. */
  const HeartbeatTimeout: real := 30.0

  /** Strictly more than the timeout: an age of exactly 30 seconds is still alive. */
  predicate Stale(info: WorkerInfo, now: real) {
    now - info.lastHeartbeat > HeartbeatTimeout
  }

  /** One chunk after `failed` went down and `next` was picked as the replacement. */
  function Reassign(c: Chunk, failed: WorkerId, next: Option<WorkerId>): (r: Chunk)
    ensures r.filepath == c.filepath && r.start == c.start && r.size == c.size && r.port == c.port
    ensures c.workerId == failed && c.status != Completed && next.Some? && next.value != "" ==>
      r.workerId == next.value && r.status == Pending
    ensures c.workerId != failed || c.status == Completed || next.None? || next.value == "" ==> r == c
  {
    if c.workerId == failed && c.status != Completed && next.Some? && next.value != "" then
      c.(workerId := next.value, status := Pending)
    else c
  }

  function ReassignAll(cs: seq<Chunk>, failed: WorkerId, next: Option<WorkerId>): (r: seq<Chunk>)
    ensures |r| == |cs|
    ensures forall i :: 0 <= i < |cs| ==> r[i] == Reassign(cs[i], failed, next)
  {
    seq(|cs|, i requires 0 <= i < |cs| => Reassign(cs[i], failed, next))
  }

  // ---------------------------------------------------------------------
  // handle_worker_failure

  /**
   * Marks `workerId` failed if it is registered, then gives each of its
   * chunks that is not completed, in every file, to the first worker still
   * active, with status pending. With no active worker left, chunks stay as
   * they are.
   */
  function HandleWorkerFailure(s: State, workerId: WorkerId): (r: State)
    ensures r.results == s.results
    ensures Ids(r.workers) == Ids(s.workers)
    ensures forall i :: 0 <= i < |s.workers| ==>
      r.workers[i].info == if s.workers[i].id == workerId then s.workers[i].info.(status := Failed)
                           else s.workers[i].info
    ensures r.fileChunks.Keys == s.fileChunks.Keys
    ensures forall f :: f in s.fileChunks ==>
      var before, after := s.fileChunks[f], r.fileChunks[f];
      && SameRanges(before, after)
      && forall i :: 0 <= i < |before| ==>
           && after[i].port == before[i].port
           && (if before[i].workerId == workerId && before[i].status != Completed && HasActive(r.workers)
               then after[i].workerId == FirstActive(r.workers).value
                 && after[i].workerId != workerId
                 && after[i].status == Pending
               else after[i] == before[i])
  {
    var ws := SetStatus(s.workers, workerId, Failed);
    var next := FirstActive(ws);
    assert next.Some? ==> next.value != "" && next.value != workerId;
    State(ws, map f | f in s.fileChunks :: ReassignAll(s.fileChunks[f], workerId, next), s.results)
  }

  /** Reassignment keeps every chunk with a registered owner. */
  lemma ReassignKeepsOwners(ws: Workers, cs: seq<Chunk>, failed: WorkerId, next: Option<WorkerId>)
    requires ChunkOwnersIn(ws, cs)
    requires next.Some? ==> Registered(ws, next.value)
    ensures ChunkOwnersIn(ws, ReassignAll(cs, failed, next))
  {
  }

  lemma HandleFailureKeepsValid(s: State, sizes: map<string, nat>, workerId: WorkerId)
    requires Valid(s, sizes)
    ensures Valid(HandleWorkerFailure(s, workerId), sizes)
  {
    var t := HandleWorkerFailure(s, workerId);
    var next := FirstActive(t.workers);
    if next.Some? {
      var k :| 0 <= k < |t.workers| && t.workers[k].id == next.value && IsActive(t.workers, k);
      assert Ids(t.workers)[k] == next.value;
    }
    forall f | f in t.fileChunks
      ensures ChunkOwnersIn(t.workers, t.fileChunks[f])
    {
      assert ChunksOf(s.workers, f, s.fileChunks[f]);
      ReassignKeepsOwners(t.workers, s.fileChunks[f], workerId, next);
    }
    RangesKeepValid(s, t, sizes);
  }

  // ---------------------------------------------------------------------
  // one pass of check_worker_heartbeats

  /** Ids of the registered workers whose heartbeat is stale at `now`, in registry order. */
  function StaleIds(ws: seq<Registration>, now: real): (ids: seq<WorkerId>)
    ensures forall x :: x in ids <==> exists i :: 0 <= i < |ws| && ws[i].id == x && Stale(ws[i].info, now)
  {
    if |ws| == 0 then []
    else
      var rest := StaleIds(ws[1..], now);
      assert forall i :: 1 <= i < |ws| ==> ws[i] == ws[1..][i - 1];
      if Stale(ws[0].info, now) then [ws[0].id] + rest else rest
  }

  /** `idx[k]` is a stale registry position holding `ids[k]`. */
  ghost predicate PositionsMatch(ws: seq<Registration>, now: real, ids: seq<WorkerId>, idx: seq<nat>) {
    && |idx| == |ids|
    && forall k :: 0 <= k < |idx| ==> idx[k] < |ws| && ws[idx[k]].id == ids[k] && Stale(ws[idx[k]].info, now)
  }

  ghost predicate Increasing(idx: seq<nat>) {
    forall k, l :: 0 <= k < l < |idx| ==> idx[k] < idx[l]
  }

  /** Every stale registry position from `from` on is listed. */
  ghost predicate CoversStale(ws: seq<Registration>, now: real, idx: seq<nat>, from: nat) {
    forall j :: from <= j < |ws| && Stale(ws[j].info, now) ==> j in idx
  }

  /**
   * `idx[k]` is the registry position of `ids[k]`: the ids are exactly the
   * stale positions' ids, in registry order.
   */
  ghost predicate StalePositions(ws: seq<Registration>, now: real, ids: seq<WorkerId>, idx: seq<nat>) {
    PositionsMatch(ws, now, ids, idx) && Increasing(idx) && CoversStale(ws, now, idx, 0)
  }

  function Shift(idx: seq<nat>): (r: seq<nat>)
    ensures |r| == |idx|
    ensures forall k :: 0 <= k < |idx| ==> r[k] == idx[k] + 1
  {
    seq(|idx|, k requires 0 <= k < |idx| => idx[k] + 1)
  }

  lemma ShiftMatch(ws: seq<Registration>, now: real, ids: seq<WorkerId>, tail: seq<nat>)
    requires 0 < |ws| && PositionsMatch(ws[1..], now, ids, tail)
    ensures PositionsMatch(ws, now, ids, Shift(tail))
  {
    forall k | 0 <= k < |tail|
      ensures ws[Shift(tail)[k]] == ws[1..][tail[k]]
    {
    }
  }

  lemma ShiftIncreasing(tail: seq<nat>)
    requires Increasing(tail)
    ensures Increasing(Shift(tail))
  {
  }

  lemma ShiftCovers(ws: seq<Registration>, now: real, tail: seq<nat>)
    requires 0 < |ws| && CoversStale(ws[1..], now, tail, 0)
    ensures CoversStale(ws, now, Shift(tail), 1)
  {
    forall j | 1 <= j < |ws| && Stale(ws[j].info, now)
      ensures j in Shift(tail)
    {
      assert ws[1..][j - 1] == ws[j];
      var k :| 0 <= k < |tail| && tail[k] == j - 1;
      assert Shift(tail)[k] == j;
    }
  }

  lemma ConsMatch(ws: seq<Registration>, now: real, rest: seq<WorkerId>, shifted: seq<nat>)
    requires 0 < |ws| && Stale(ws[0].info, now) && PositionsMatch(ws, now, rest, shifted)
    ensures PositionsMatch(ws, now, [ws[0].id] + rest, [0] + shifted)
  {
    var ids, idx := [ws[0].id] + rest, [0] + shifted;
    forall k | 0 < k < |idx|
      ensures idx[k] == shifted[k - 1] && ids[k] == rest[k - 1]
    {
    }
  }

  lemma ConsIncreasing(shifted: seq<nat>)
    requires Increasing(shifted)
    requires forall k :: 0 <= k < |shifted| ==> 1 <= shifted[k]
    ensures Increasing([0] + shifted)
  {
    var idx := [0] + shifted;
    forall k | 0 < k < |idx|
      ensures idx[k] == shifted[k - 1]
    {
    }
  }

  lemma ConsCovers(ws: seq<Registration>, now: real, shifted: seq<nat>)
    requires CoversStale(ws, now, shifted, 1)
    ensures CoversStale(ws, now, [0] + shifted, 0)
  {
    forall j | 0 <= j < |ws| && Stale(ws[j].info, now)
      ensures j in [0] + shifted
    {
      if j > 0 {
        assert j in shifted;
      }
    }
  }

  /** The pass visits the stale workers in registry order, each once. */
  lemma {:induction false} StaleIdsInOrder(ws: seq<Registration>, now: real) returns (idx: seq<nat>)
    ensures StalePositions(ws, now, StaleIds(ws, now), idx)
    decreases |ws|
  {
    if |ws| == 0 {
      idx := [];
    } else {
      var tail := StaleIdsInOrder(ws[1..], now);
      var rest := StaleIds(ws[1..], now);
      var shifted := Shift(tail);
      ShiftMatch(ws, now, rest, tail);
      ShiftIncreasing(tail);
      ShiftCovers(ws, now, tail);
      if Stale(ws[0].info, now) {
        assert StaleIds(ws, now) == [ws[0].id] + rest;
        idx := [0] + shifted;
        ConsMatch(ws, now, rest, shifted);
        ConsIncreasing(shifted);
        ConsCovers(ws, now, shifted);
      } else {
        assert StaleIds(ws, now) == rest;
        idx := shifted;
      }
    }
  }

  function IdSet(ids: seq<WorkerId>): set<WorkerId> {
    set x | x in ids
  }

  /** Handles the failure of each id in turn. */
  function FailEach(s: State, ids: seq<WorkerId>): (r: State)
    ensures Ids(r.workers) == Ids(s.workers)
    ensures r.fileChunks.Keys == s.fileChunks.Keys
    ensures forall f :: f in s.fileChunks ==> |r.fileChunks[f]| == |s.fileChunks[f]|
    decreases |ids|
  {
    if |ids| == 0 then s else FailEach(HandleWorkerFailure(s, ids[0]), ids[1..])
  }

  /**
   * One pass of the heartbeat checker at time `now`: every registered worker,
   * whatever its status, whose heartbeat age exceeds the timeout is handled
   * as failed, in registry order.
   */
  function HeartbeatPass(s: State, now: real): (r: State)
    ensures Ids(r.workers) == Ids(s.workers)
    ensures r.fileChunks.Keys == s.fileChunks.Keys
    ensures forall f :: f in s.fileChunks ==> |r.fileChunks[f]| == |s.fileChunks[f]|
  {
    FailEach(s, StaleIds(s.workers, now))
  }

  /**
   * How a chunk `c0` of the starting table ended up as `c` after the workers
   * in `down` were handled as failed, with `ws` the resulting registry.
   */
  ghost predicate Moved(c0: Chunk, c: Chunk, down: set<WorkerId>, ws: Workers) {
    && c.filepath == c0.filepath && c.start == c0.start && c.size == c0.size && c.port == c0.port
    && (c0.status == Completed || c0.workerId !in down ==> c == c0)
    && (c0.status != Completed && c0.workerId in down ==>
          && c.status == Pending
          && if HasActive(ws) then c.workerId == FirstActive(ws).value else c.workerId in down)
  }

  /** `s` is what handling each id of `down` as failed, in some order, made of `s0`. */
  ghost predicate AfterFailures(s0: State, s: State, down: set<WorkerId>) {
    && s.results == s0.results
    && Ids(s.workers) == Ids(s0.workers)
    && (forall i :: 0 <= i < |s0.workers| ==>
          s.workers[i].info == if s0.workers[i].id in down then s0.workers[i].info.(status := Failed)
                               else s0.workers[i].info)
    && s.fileChunks.Keys == s0.fileChunks.Keys
    && (forall f :: f in s0.fileChunks ==> |s.fileChunks[f]| == |s0.fileChunks[f]|)
    && (forall f, i :: f in s0.fileChunks && 0 <= i < |s0.fileChunks[f]| ==>
          Moved(s0.fileChunks[f][i], s.fileChunks[f][i], down, s.workers))
  }

  /** One more failure, seen from a single chunk. */
  lemma MovedStep(c0: Chunk, c: Chunk, c': Chunk, down: set<WorkerId>, y: WorkerId, ws: Workers)
    requires Moved(c0, c, down, ws)
    requires c'.filepath == c.filepath && c'.start == c.start && c'.size == c.size && c'.port == c.port
    requires var ws' := SetStatus(ws, y, Failed);
      if c.workerId == y && c.status != Completed && HasActive(ws')
      then c'.workerId == FirstActive(ws').value && c'.status == Pending
      else c' == c
    ensures Moved(c0, c', down + {y}, SetStatus(ws, y, Failed))
  {
    FirstActiveAfterFailure(ws, y);
  }

  lemma {:induction false} AfterFailuresStep(s0: State, s: State, down: set<WorkerId>, y: WorkerId)
    requires AfterFailures(s0, s, down)
    ensures AfterFailures(s0, HandleWorkerFailure(s, y), down + {y})
  {
    var s' := HandleWorkerFailure(s, y);
    assert s'.workers == SetStatus(s.workers, y, Failed);
    forall i | 0 <= i < |s0.workers|
      ensures s'.workers[i].info == if s0.workers[i].id in down + {y}
                                    then s0.workers[i].info.(status := Failed)
                                    else s0.workers[i].info
    {
      assert Ids(s.workers)[i] == Ids(s0.workers)[i];
    }
    forall f, i | f in s0.fileChunks && 0 <= i < |s0.fileChunks[f]|
      ensures Moved(s0.fileChunks[f][i], s'.fileChunks[f][i], down + {y}, s'.workers)
    {
      MovedStep(s0.fileChunks[f][i], s.fileChunks[f][i], s'.fileChunks[f][i], down, y, s.workers);
    }
  }

  lemma {:induction false} FailEachEffect(s0: State, s: State, down: set<WorkerId>, ids: seq<WorkerId>)
    requires AfterFailures(s0, s, down)
    ensures AfterFailures(s0, FailEach(s, ids), down + IdSet(ids))
    decreases |ids|
  {
    if |ids| > 0 {
      AfterFailuresStep(s0, s, down, ids[0]);
      FailEachEffect(s0, HandleWorkerFailure(s, ids[0]), down + {ids[0]}, ids[1..]);
      assert down + {ids[0]} + IdSet(ids[1..]) == down + IdSet(ids);
    } else {
      assert IdSet(ids) == {};
    }
  }

  /**
   * The effect of one heartbeat pass. Exactly the workers whose heartbeat is
   * older than the timeout become failed; nothing else in the registry
   * changes. A chunk keeps its file, range and port; a completed chunk, or
   * one whose owner is not stale, is untouched; every unfinished chunk of a
   * stale worker ends up pending, with the first worker still active after
   * the pass if there is one, and otherwise still with a stale worker.
   */
  lemma HeartbeatPassEffect(s: State, now: real)
    ensures var r := HeartbeatPass(s, now);
      && r.results == s.results
      && Ids(r.workers) == Ids(s.workers)
      && (forall i :: 0 <= i < |s.workers| ==>
            r.workers[i].info == if Stale(s.workers[i].info, now) then s.workers[i].info.(status := Failed)
                                 else s.workers[i].info)
      && r.fileChunks.Keys == s.fileChunks.Keys
      && (forall f :: f in s.fileChunks ==> |r.fileChunks[f]| == |s.fileChunks[f]|)
      && (forall f, i :: f in s.fileChunks && 0 <= i < |s.fileChunks[f]| ==>
            Moved(s.fileChunks[f][i], r.fileChunks[f][i], IdSet(StaleIds(s.workers, now)), r.workers))
  {
    var ids := StaleIds(s.workers, now);
    assert AfterFailures(s, s, {});
    FailEachEffect(s, s, {}, ids);
    assert {} + IdSet(ids) == IdSet(ids);
    forall i | 0 <= i < |s.workers|
      ensures s.workers[i].id in ids <==> Stale(s.workers[i].info, now)
    {
    }
  }

  /** A worker whose heartbeat is exactly the timeout old is left alone by a pass. */
  lemma TimeoutBoundary(s: State, now: real, i: int)
    requires 0 <= i < |s.workers|
    requires now - s.workers[i].info.lastHeartbeat == HeartbeatTimeout
    ensures HeartbeatPass(s, now).workers[i] == s.workers[i]
  {
    HeartbeatPassEffect(s, now);
    assert Ids(HeartbeatPass(s, now).workers)[i] == Ids(s.workers)[i];
  }

  /**
   * When some worker survives a pass, no unfinished chunk is left with a
   * stale worker: each one is owned by the first surviving worker.
   */
  lemma HeartbeatPassClearsStale(s: State, now: real, f: string, i: int)
    requires f in s.fileChunks && 0 <= i < |s.fileChunks[f]|
    requires HasActive(HeartbeatPass(s, now).workers)
    ensures var c := HeartbeatPass(s, now).fileChunks[f][i];
            c.status != Completed ==> c.workerId !in StaleIds(s.workers, now)
  {
    var r := HeartbeatPass(s, now);
    HeartbeatPassEffect(s, now);
    var c0, c := s.fileChunks[f][i], r.fileChunks[f][i];
    assert Moved(c0, c, IdSet(StaleIds(s.workers, now)), r.workers);
    if c0.status != Completed && c0.workerId in StaleIds(s.workers, now) {
      var k :| 0 <= k < |r.workers| && r.workers[k].id == c.workerId && IsActive(r.workers, k);
      SurvivorNotStale(s, now, k);
    }
  }

  /** A worker still active after a pass was not stale when the pass began. */
  lemma SurvivorNotStale(s: State, now: real, k: int)
    requires 0 <= k < |s.workers| && IsActive(HeartbeatPass(s, now).workers, k)
    ensures HeartbeatPass(s, now).workers[k].id !in StaleIds(s.workers, now)
  {
    var r := HeartbeatPass(s, now);
    HeartbeatPassEffect(s, now);
    assert Ids(r.workers)[k] == Ids(s.workers)[k];
    forall j | 0 <= j < |s.workers| && s.workers[j].id == r.workers[k].id
      ensures !Stale(s.workers[j].info, now)
    {
      assert j == k;
    }
  }

  lemma HeartbeatPassKeepsValid(s: State, sizes: map<string, nat>, now: real)
    requires Valid(s, sizes)
    ensures Valid(HeartbeatPass(s, now), sizes)
  {
    FailEachKeepsValid(s, sizes, StaleIds(s.workers, now));
  }

  lemma {:induction false} FailEachKeepsValid(s: State, sizes: map<string, nat>, ids: seq<WorkerId>)
    requires Valid(s, sizes)
    ensures Valid(FailEach(s, ids), sizes)
    decreases |ids|
  {
    if |ids| > 0 {
      HandleFailureKeepsValid(s, sizes, ids[0]);
      FailEachKeepsValid(HandleWorkerFailure(s, ids[0]), sizes, ids[1..]);
    }
  }

  // ---------------------------------------------------------------------
  // The missing heartbeat handler

  /**
   * As written, only registration sets a heartbeat time: a worker that
   * registered at time 0 and keeps delivering results is still handled as
   * failed by the first pass after 30 seconds.
   */
  lemma LiveWorkerFailedAsWritten()
    ensures var s1 := RegisterWorker(Initial, Some("w1"), Some(8001), 0.0).state;
            var s2 := ReceiveResults(s1, Some("w1"), Some("app.log"), []).state;
            var r := HeartbeatPass(s2, 31.0);
            |r.workers| == 1 && r.workers[0].id == "w1" && r.workers[0].info.status == Failed
  {
    var s1 := RegisterWorker(Initial, Some("w1"), Some(8001), 0.0).state;
    var s2 := ReceiveResults(s1, Some("w1"), Some("app.log"), []).state;
    assert s2.workers == [Registration("w1", WorkerInfo(0.0, Active, Some(8001)))];
    assert Ids(s2.workers) == ["w1"];
    HeartbeatPassEffect(s2, 31.0);
  }

  /**
   * The handler the worker's heartbeat calls for: a registered worker's
   * heartbeat time becomes `now`; a missing, empty or unknown id is ignored.
   */
  function RecordHeartbeat(s: State, workerId: Option<string>, now: real): (r: State)
    ensures r.fileChunks == s.fileChunks && r.results == s.results
    ensures Ids(r.workers) == Ids(s.workers)
    ensures forall i :: 0 <= i < |s.workers| ==>
      r.workers[i].info == if Given(workerId) && s.workers[i].id == workerId.value
                           then s.workers[i].info.(lastHeartbeat := now)
                           else s.workers[i].info
  {
    if Given(workerId) then s.(workers := SetHeartbeat(s.workers, workerId.value, now)) else s
  }

  /**
   * With the handler in place, a worker that sent a heartbeat at `t` is left
   * alone by any pass at most 30 seconds later.
   */
  lemma HeartbeatKeepsWorkerAlive(s: State, workerId: Option<string>, t: real, now: real, i: int)
    requires Given(workerId)
    requires 0 <= i < |s.workers| && s.workers[i].id == workerId.value
    requires now - t <= HeartbeatTimeout
    ensures var s1 := RecordHeartbeat(s, workerId, t);
            HeartbeatPass(s1, now).workers[i] == s1.workers[i]
  {
    var s1 := RecordHeartbeat(s, workerId, t);
    HeartbeatPassEffect(s1, now);
    assert Ids(HeartbeatPass(s1, now).workers)[i] == Ids(s1.workers)[i];
    assert Ids(s1.workers)[i] == s.workers[i].id;
  }
}
