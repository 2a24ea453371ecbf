/**
 * The coordinator's bookkeeping: the worker registry, the chunk table
 * (file path to its chunks) and the results map (file path to the records
 * workers sent back), with the registration, work-distribution and
 * result-receiving handlers as pure state transitions.
 *
 * Request fields arrive as `Option<string>`: `None` is a missing JSON key.
 * A handler rejects a field that is missing or empty, which is what Python's
 * `not field` tests for a string.
 */
module Coordinator {
  import opened Wrappers
  import opened Registry
  import opened Chunks
  import opened LogRecords

  datatype State = State(
    workers: Workers,
    fileChunks: map<string, seq<Chunk>>,
    results: map<string, seq<Record>>)

  /** HTTP 200 with status 'success', or HTTP 400 with status 'error'. */
  datatype Reply = Success | BadRequest

  datatype Handled = Handled(state: State, reply: Reply)

  /** The state of a freshly started coordinator. */
  const Initial := State([], map[], map[])

  /** Python truthiness of an optional string field. */
  predicate Given(field: Option<string>) {
    field.Some? && field.value != ""
  }

  /** Results stored for a file so far; an absent file has none. */
  function Stored(results: map<string, seq<Record>>, filepath: string): seq<Record> {
    if filepath in results then results[filepath] else []
  }

  /**
   * The chunk table is well formed with respect to the file sizes it was laid
   * out for: `sizes` has an entry for exactly the files in the table, and each
   * file's chunk list tiles the whole file of that size, records the file it
   * belongs to, and is owned by registered workers.
   */
  ghost predicate Valid(s: State, sizes: map<string, nat>) {
    && s.fileChunks.Keys == sizes.Keys
    && (forall f :: f in s.fileChunks ==> Tiles(s.fileChunks[f], sizes[f]))
    && (forall f :: f in s.fileChunks ==> ChunksOf(s.workers, f, s.fileChunks[f]))
  }

  /** Before any work is distributed the table is empty, and valid for no files. */
  lemma InitialValid()
    ensures Valid(Initial, map[])
  {
  }

  /** Every chunk of the list belongs to file `f` and to a registered worker. */
  ghost predicate ChunksOf(ws: Workers, f: string, cs: seq<Chunk>) {
    forall i :: 0 <= i < |cs| ==> cs[i].filepath == f && Registered(ws, cs[i].workerId)
  }

  /**
   * A step that keeps the files and byte ranges of the chunk table and leaves
   * every chunk with a registered owner keeps the table valid.
   */
  lemma RangesKeepValid(s: State, t: State, sizes: map<string, nat>)
    requires Valid(s, sizes)
    requires t.fileChunks.Keys == s.fileChunks.Keys
    requires forall f :: f in s.fileChunks ==> SameRanges(s.fileChunks[f], t.fileChunks[f])
    requires forall f :: f in t.fileChunks ==> ChunkOwnersIn(t.workers, t.fileChunks[f])
    ensures Valid(t, sizes)
  {
    forall f | f in t.fileChunks
      ensures Tiles(t.fileChunks[f], sizes[f])
      ensures ChunksOf(t.workers, f, t.fileChunks[f])
    {
      SameRangesTile(s.fileChunks[f], t.fileChunks[f], sizes[f]);
    }
  }

  ghost predicate ChunkOwnersIn(ws: Workers, cs: seq<Chunk>) {
    forall i :: 0 <= i < |cs| ==> Registered(ws, cs[i].workerId)
  }

  // ---------------------------------------------------------------------
  // register_worker

  /**
   * Registers a worker: a missing or empty id is rejected and nothing
   * changes; otherwise the id's record becomes (now, active, port), at the
   * id's existing position or appended at the end.
   */
  function RegisterWorker(s: State, workerId: Option<string>, port: Option<int>, now: real): (h: Handled)
    ensures !Given(workerId) ==> h == Handled(s, BadRequest)
    ensures Given(workerId) ==>
      var id := workerId.value;
      && h.reply == Success
      && h.state.fileChunks == s.fileChunks
      && h.state.results == s.results
      && Lookup(h.state.workers, id) == Some(WorkerInfo(now, Active, port))
      && (forall x :: x != id ==> Lookup(h.state.workers, x) == Lookup(s.workers, x))
      && (Registered(s.workers, id) ==> Ids(h.state.workers) == Ids(s.workers))
      && (!Registered(s.workers, id) ==> Ids(h.state.workers) == Ids(s.workers) + [id])
  {
    if !Given(workerId) then Handled(s, BadRequest)
    else
      var id := workerId.value;
      Handled(s.(workers := Put(s.workers, id, WorkerInfo(now, Active, port))), Success)
  }

  /** Registering the same worker twice equals registering it once, at the later time. */
  lemma RegisterTwice(s: State, workerId: Option<string>, port: Option<int>, t1: real, t2: real)
    ensures RegisterWorker(RegisterWorker(s, workerId, port, t1).state, workerId, port, t2)
         == RegisterWorker(s, workerId, port, t2)
  {
    if Given(workerId) {
      PutPut(s.workers, workerId.value, WorkerInfo(t1, Active, port), WorkerInfo(t2, Active, port));
    }
  }

  /** A registration, even of a previously failed id, leaves an active worker to hand work to. */
  lemma RegisterRevives(s: State, workerId: Option<string>, port: Option<int>, now: real)
    requires Given(workerId)
    ensures FirstActive(RegisterWorker(s, workerId, port, now).state.workers).Some?
  {
    var ws := RegisterWorker(s, workerId, port, now).state.workers;
    var k := Find(Ids(ws), workerId.value).value;
    assert IsActive(ws, k);
  }

  lemma RegisterKeepsValid(s: State, sizes: map<string, nat>, workerId: Option<string>, port: Option<int>, now: real)
    requires Valid(s, sizes)
    ensures Valid(RegisterWorker(s, workerId, port, now).state, sizes)
  {
    if Given(workerId) {
      var ws := RegisterWorker(s, workerId, port, now).state.workers;
      assert forall x :: Registered(s.workers, x) ==> Registered(ws, x) by {
        forall x | Registered(s.workers, x) ensures Registered(ws, x) {
          assert Lookup(s.workers, x).Some?;
        }
      }
    }
  }

  // ---------------------------------------------------------------------
  // distribute_work (the partitioning part; sending chunks does not touch state)

  /**
   * Lays `filepath` out over every registered worker, failed ones included,
   * and replaces the file's chunk list. `fileSize` is `None` when the file
   * does not exist; then, or with no registered worker, nothing changes.
   */
  function DistributeWork(s: State, filepath: string, fileSize: Option<nat>): (r: State)
    ensures fileSize.None? || |s.workers| == 0 ==> r == s
    ensures fileSize.Some? && 1 <= |s.workers| ==>
      && r.workers == s.workers
      && r.results == s.results
      && filepath in r.fileChunks
      && r.fileChunks == s.fileChunks[filepath := r.fileChunks[filepath]]
      && var cs := r.fileChunks[filepath];
         && |cs| == |s.workers|
         && (forall i :: 0 <= i < |cs| ==>
               && cs[i].workerId == s.workers[i].id
               && cs[i].port == s.workers[i].info.port
               && cs[i].filepath == filepath
               && cs[i].status == Pending)
         && Tiles(cs, fileSize.value)
         && cs == Layout(s.workers, filepath, fileSize.value)
  {
    if fileSize.None? || |s.workers| == 0 then s
    else
      LayoutTiles(s.workers, filepath, fileSize.value);
      s.(fileChunks := s.fileChunks[filepath := Layout(s.workers, filepath, fileSize.value)])
  }

  /** The distributed file's size is recorded; every other file keeps its size. */
  lemma DistributeKeepsValid(s: State, sizes: map<string, nat>, filepath: string, fileSize: Option<nat>)
    requires Valid(s, sizes)
    ensures Valid(DistributeWork(s, filepath, fileSize),
                  if fileSize.Some? && 1 <= |s.workers| then sizes[filepath := fileSize.value] else sizes)
  {
    if fileSize.Some? && 1 <= |s.workers| {
      var r := DistributeWork(s, filepath, fileSize);
      var after := sizes[filepath := fileSize.value];
      var cs := r.fileChunks[filepath];
      assert ChunksOf(r.workers, filepath, cs) by {
        forall i | 0 <= i < |cs| ensures Registered(s.workers, cs[i].workerId) {
          assert Ids(s.workers)[i] == cs[i].workerId;
        }
      }
      forall f | f in r.fileChunks
        ensures Tiles(r.fileChunks[f], after[f]) && ChunksOf(r.workers, f, r.fileChunks[f])
      {
        if f != filepath {
          assert r.fileChunks[f] == s.fileChunks[f];
        }
      }
      assert r.fileChunks.Keys == after.Keys;
    }
  }

  // ---------------------------------------------------------------------
  // receive_results

  /** Marks completed every chunk of the list owned by `workerId`. */
  function MarkCompleted(cs: seq<Chunk>, workerId: WorkerId): (r: seq<Chunk>)
    ensures |r| == |cs|
    ensures forall i :: 0 <= i < |cs| ==>
      && r[i].(status := cs[i].status) == cs[i]
      && r[i].status == (if cs[i].workerId == workerId then Completed else cs[i].status)
  {
    seq(|cs|, i requires 0 <= i < |cs| =>
      if cs[i].workerId == workerId then cs[i].(status := Completed) else cs[i])
  }

  /**
   * Accepts a batch of records from a worker: a missing or empty worker id or
   * file path is rejected and nothing changes; otherwise the records are
   * appended to the file's results (created empty if absent, even when the
   * file has no chunks) and the sender's chunks of that file become completed.
   */
  function ReceiveResults(s: State, workerId: Option<string>, filepath: Option<string>,
                          records: seq<Record>): (h: Handled)
    ensures !Given(workerId) || !Given(filepath) ==> h == Handled(s, BadRequest)
    ensures Given(workerId) && Given(filepath) ==>
      var fp := filepath.value;
      && h.reply == Success
      && h.state.workers == s.workers
      && h.state.results.Keys == s.results.Keys + {fp}
      && h.state.results[fp] == Stored(s.results, fp) + records
      && (forall f :: f in s.results && f != fp ==> h.state.results[f] == s.results[f])
      && h.state.fileChunks.Keys == s.fileChunks.Keys
      && (forall f :: f in s.fileChunks && f != fp ==> h.state.fileChunks[f] == s.fileChunks[f])
      && (fp in s.fileChunks ==>
            var before, after := s.fileChunks[fp], h.state.fileChunks[fp];
            && |after| == |before|
            && forall i :: 0 <= i < |before| ==>
                 && after[i].(status := before[i].status) == before[i]
                 && after[i].status == (if before[i].workerId == workerId.value then Completed
                                        else before[i].status))
  {
    if !Given(workerId) || !Given(filepath) then Handled(s, BadRequest)
    else
      var w, fp := workerId.value, filepath.value;
      var results := s.results[fp := Stored(s.results, fp) + records];
      var table := if fp in s.fileChunks then s.fileChunks[fp := MarkCompleted(s.fileChunks[fp], w)]
                   else s.fileChunks;
      Handled(State(s.workers, table, results), Success)
  }

  /** Results accumulate: two accepted batches for one file append in arrival order. */
  lemma {:induction false} ReceiveResultsAppends(s: State, w1: Option<string>, w2: Option<string>,
                                                 filepath: Option<string>, a: seq<Record>, b: seq<Record>)
    requires Given(w1) && Given(w2) && Given(filepath)
    ensures var s1 := ReceiveResults(s, w1, filepath, a).state;
            var s2 := ReceiveResults(s1, w2, filepath, b).state;
            s2.results[filepath.value] == Stored(s.results, filepath.value) + a + b
  {
    var s1 := ReceiveResults(s, w1, filepath, a).state;
    assert Stored(s1.results, filepath.value) == Stored(s.results, filepath.value) + a;
  }

  /** Completing chunks changes neither their ranges nor their owners. */
  lemma MarkCompletedKeepsRanges(ws: Workers, f: string, cs: seq<Chunk>, w: WorkerId)
    requires ChunksOf(ws, f, cs)
    ensures SameRanges(cs, MarkCompleted(cs, w))
    ensures ChunkOwnersIn(ws, MarkCompleted(cs, w))
  {
    var r := MarkCompleted(cs, w);
    forall i | 0 <= i < |cs|
      ensures r[i].filepath == cs[i].filepath && r[i].start == cs[i].start && r[i].size == cs[i].size
      ensures Registered(ws, r[i].workerId)
    {
      assert r[i].(status := cs[i].status) == cs[i];
    }
  }

  lemma ReceiveKeepsValid(s: State, sizes: map<string, nat>, workerId: Option<string>, filepath: Option<string>,
                          records: seq<Record>)
    requires Valid(s, sizes)
    ensures Valid(ReceiveResults(s, workerId, filepath, records).state, sizes)
  {
    if Given(workerId) && Given(filepath) && filepath.value in s.fileChunks {
      var fp, w := filepath.value, workerId.value;
      var t := ReceiveResults(s, workerId, filepath, records).state;
      assert t.workers == s.workers;
      assert t.fileChunks == s.fileChunks[fp := MarkCompleted(s.fileChunks[fp], w)];
      MarkCompletedKeepsRanges(s.workers, fp, s.fileChunks[fp], w);
      forall f | f in t.fileChunks
        ensures SameRanges(s.fileChunks[f], t.fileChunks[f])
        ensures ChunkOwnersIn(t.workers, t.fileChunks[f])
      {
        if f != fp {
          assert ChunksOf(s.workers, f, s.fileChunks[f]);
        }
      }
      RangesKeepValid(s, t, sizes);
    }
  }
}
