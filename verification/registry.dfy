/**
 * The coordinator's worker registry: an insertion-ordered association list
 * from worker id to its record.
 *
 * The source keeps a Python dict; a dict iterates in insertion order and an
 * assignment to an existing key keeps that key's position. Both facts matter
 * to the coordinator (chunk layout follows registry order, reassignment picks
 * the first active worker), so the registry is a sequence with unique keys.
 * Registration rejects empty ids, so every key is non-empty as well.
 */
module Registry {
  import opened Wrappers

  type WorkerId = string

  datatype WorkerStatus = Active | Failed

  /** The per-worker record: last heartbeat time, liveness status, callback port. */
  datatype WorkerInfo = WorkerInfo(lastHeartbeat: real, status: WorkerStatus, port: Option<int>)

  datatype Registration = Registration(id: WorkerId, info: WorkerInfo)

  ghost predicate WellKeyed(ws: seq<Registration>) {
    && (forall i, j :: 0 <= i < j < |ws| ==> ws[i].id != ws[j].id)
    && (forall i :: 0 <= i < |ws| ==> ws[i].id != "")
  }

  /** A registry: ids are distinct and non-empty. */
  type Workers = ws: seq<Registration> | WellKeyed(ws) witness []

  /** The ids of a registry, in registry order. */
  function Ids(ws: seq<Registration>): seq<WorkerId> {
    seq(|ws|, i requires 0 <= i < |ws| => ws[i].id)
  }

  /** Position of the first occurrence of `id` in `ids`. */
  function Find(ids: seq<WorkerId>, id: WorkerId): (r: Option<nat>)
    ensures r.Some? ==> r.value < |ids| && ids[r.value] == id
    ensures r.Some? ==> forall j :: 0 <= j < r.value ==> ids[j] != id
    ensures r.None? <==> id !in ids
  {
    if |ids| == 0 then None
    else if ids[0] == id then Some(0)
    else match Find(ids[1..], id)
      case None => None
      case Some(k) => Some(k + 1)
  }

  predicate Registered(ws: Workers, id: WorkerId) {
    id in Ids(ws)
  }

  /** The record stored under `id`, as `self.workers.get(id)` would return it. */
  function Lookup(ws: Workers, id: WorkerId): (r: Option<WorkerInfo>)
    ensures r.Some? <==> Registered(ws, id)
    ensures forall i :: 0 <= i < |ws| && ws[i].id == id ==> r == Some(ws[i].info)
  {
    assert forall i :: 0 <= i < |ws| ==> Ids(ws)[i] == ws[i].id;
    match Find(Ids(ws), id)
    case None => None
    case Some(k) => Some(ws[k].info)
  }

  /**
   * `workers[id] = info`: an existing id keeps its position and gets the new
   * record; a new id is appended at the end.
   */
  function Put(ws: Workers, id: WorkerId, info: WorkerInfo): (r: Workers)
    requires id != ""
    ensures Registered(ws, id) ==> Ids(r) == Ids(ws)
    ensures !Registered(ws, id) ==> Ids(r) == Ids(ws) + [id]
    ensures Lookup(r, id) == Some(info)
    ensures forall x :: x != id ==> Lookup(r, x) == Lookup(ws, x)
  {
    match Find(Ids(ws), id)
    case Some(k) =>
      var r := ws[k := Registration(id, info)];
      assert Ids(r) == Ids(ws);
      r
    case None =>
      assert forall i :: 0 <= i < |ws| ==> Ids(ws)[i] == ws[i].id;
      var r := ws + [Registration(id, info)];
      assert Ids(r) == Ids(ws) + [id];
      r
  }

  /** Overwrites the status of a registered worker; an unknown id changes nothing. */
  function SetStatus(ws: Workers, id: WorkerId, st: WorkerStatus): (r: Workers)
    ensures Ids(r) == Ids(ws)
    ensures forall i :: 0 <= i < |ws| ==>
      r[i].info == if ws[i].id == id then ws[i].info.(status := st) else ws[i].info
  {
    match Find(Ids(ws), id)
    case Some(k) =>
      var r := ws[k := Registration(id, ws[k].info.(status := st))];
      assert Ids(r) == Ids(ws);
      r
    case None =>
      assert forall i :: 0 <= i < |ws| ==> Ids(ws)[i] == ws[i].id;
      ws
  }

  predicate IsActive(ws: seq<Registration>, i: int)
    requires 0 <= i < |ws|
  {
    ws[i].info.status == Active
  }

  predicate HasActive(ws: seq<Registration>) {
    exists i :: 0 <= i < |ws| && IsActive(ws, i)
  }

  /**
   * The first worker, in registry order, whose status is active: the
   * `next(w for w in workers if workers[w]['status'] == 'active')` of the source.
   */
  function FirstActive(ws: seq<Registration>): (r: Option<WorkerId>)
    ensures r.None? <==> !HasActive(ws)
    ensures r.Some? ==> exists k :: 0 <= k < |ws| && ws[k].id == r.value && IsActive(ws, k)
                                 && forall j :: 0 <= j < k ==> !IsActive(ws, j)
  {
    if |ws| == 0 then None
    else if ws[0].info.status == Active then
      assert IsActive(ws, 0);
      Some(ws[0].id)
    else
      var r := FirstActive(ws[1..]);
      assert forall k :: 1 <= k < |ws| ==> IsActive(ws, k) == IsActive(ws[1..], k - 1);
      assert HasActive(ws) ==> HasActive(ws[1..]) by {
        if HasActive(ws) {
          var k :| 0 <= k < |ws| && IsActive(ws, k);
          assert IsActive(ws[1..], k - 1);
        }
      }
      assert HasActive(ws[1..]) ==> HasActive(ws) by {
        if HasActive(ws[1..]) {
          var k :| 0 <= k < |ws| - 1 && IsActive(ws[1..], k);
          assert IsActive(ws, k + 1);
        }
      }
      r
  }

  /** Two writes to the same key leave the registry as the second write alone would. */
  lemma PutPut(ws: Workers, id: WorkerId, first: WorkerInfo, second: WorkerInfo)
    requires id != ""
    ensures Put(Put(ws, id, first), id, second) == Put(ws, id, second)
  {
    assert forall i :: 0 <= i < |ws| ==> Ids(ws)[i] == ws[i].id;
    match Find(Ids(ws), id)
    case Some(k) =>
      var once := Put(ws, id, first);
      assert once == ws[k := Registration(id, first)];
      assert Ids(once) == Ids(ws);
    case None =>
      var once := Put(ws, id, first);
      assert once == ws + [Registration(id, first)];
      assert Ids(once) == Ids(ws) + [id];
      assert Find(Ids(once), id) == Some(|ws|);
  }

  /**
   * Demoting one worker never creates an active worker, and if the demoted
   * worker was not the first active one, the first active worker stays the same.
   */
  lemma FirstActiveAfterFailure(ws: Workers, id: WorkerId)
    ensures HasActive(SetStatus(ws, id, Failed)) ==> HasActive(ws)
    ensures HasActive(ws) && FirstActive(ws).value != id ==>
              FirstActive(SetStatus(ws, id, Failed)) == FirstActive(ws)
  {
    var ws' := SetStatus(ws, id, Failed);
    if HasActive(ws') {
      var k :| 0 <= k < |ws'| && IsActive(ws', k);
      assert IsActive(ws, k);
    }
    if HasActive(ws) && FirstActive(ws).value != id {
      var k :| 0 <= k < |ws| && ws[k].id == FirstActive(ws).value && IsActive(ws, k)
               && forall j :: 0 <= j < k ==> !IsActive(ws, j);
      assert IsActive(ws', k);
      var k' :| 0 <= k' < |ws'| && ws'[k'].id == FirstActive(ws').value && IsActive(ws', k')
                && forall j :: 0 <= j < k' ==> !IsActive(ws', j);
      if k' < k {
        assert IsActive(ws, k');
      }
      assert k' == k;
      assert Ids(ws')[k] == Ids(ws)[k];
    }
  }

  /** Overwrites the heartbeat time of a registered worker; an unknown id changes nothing. */
  function SetHeartbeat(ws: Workers, id: WorkerId, t: real): (r: Workers)
    ensures Ids(r) == Ids(ws)
    ensures forall i :: 0 <= i < |ws| ==>
      r[i].info == if ws[i].id == id then ws[i].info.(lastHeartbeat := t) else ws[i].info
  {
    match Find(Ids(ws), id)
    case Some(k) =>
      var r := ws[k := Registration(id, ws[k].info.(lastHeartbeat := t))];
      assert Ids(r) == Ids(ws);
      r
    case None =>
      assert forall i :: 0 <= i < |ws| ==> Ids(ws)[i] == ws[i].id;
      ws
  }
}
