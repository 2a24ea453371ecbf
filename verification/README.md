# Distributed log analyzer — a Dafny model of its core

The system splits large log files between worker processes. A coordinator
keeps a registry of workers. It cuts each file into one byte range per
registered worker and records the ranges in a chunk table. It collects the
parsed records that workers send back. When a worker's heartbeat is older
than 30 seconds, it hands that worker's unfinished chunks to the first
active worker. Each worker reads its range, splits it into lines, parses the
non-blank ones, and feeds the records to a per-minute metrics analyzer.

The model is written as pure functions over immutable values:

- `Registry` is the worker dictionary. It is an insertion-ordered sequence
  with unique, non-empty ids, because Python dicts iterate in insertion order
  and that order decides both the chunk layout and the failover target.
- `Chunks` covers the partition arithmetic and what it means for a chunk list
  to tile a file.
- `Coordinator` covers `register_worker`, `distribute_work` and
  `receive_results`, together with a whole-state invariant, `Valid(s, sizes)`.
  `sizes` is a ghost record of the size each file had when its chunks were
  laid out. The invariant says each file's chunk list tiles the whole file
  of that size and is owned by registered workers. Distributing a file
  records its new size, and every other operation keeps the sizes.
- `Failover` covers `handle_worker_failure` and one pass of the heartbeat
  check.
- `Analyzer` covers `update_metrics` and `get_current_metrics`, with
  reference counters that read the records directly.
- `TextLines` models Python's `str.split('\n')` and `str.strip()` exactly.
- `Worker` covers `process_chunk`.
- `LogRecords` holds the record shapes and `Wrappers` holds `Option`.

Several values the source reads from its environment are passed in as
parameters:

- the event-loop clock is `now: real`;
- the wall clock in the analyzer is `now: real` seconds, with the sub-second
  part kept, while minute keys are whole seconds;
- whether a file exists, and its size, are `Option<nat>`;
- the file's text is `Option<string>`;
- `LogEntry.parse` is an arbitrary function `string -> Option<Entry>`.
  `None` stands for a `ValueError`.

A request field that is missing, `null` or empty is `None` or `Some("")`.
The source's truthiness test `not x` is `!Given(x)`.

Where the written description of the system and the code disagree, the model
follows the code:

- `distribute_work` partitions the file among all registered workers,
  including failed ones.
- The chunk table has no "dispatched" status. A chunk is only pending or
  completed.
- When the file is shorter than the number of workers, every chunk except the
  last is empty. Chunk starts are therefore contiguous but not strictly
  increasing.
- No heartbeat endpoint exists. The last heartbeat time is set only at
  registration (see Findings).

## Model

| member | source | states |
|---|---|---|
| Registry.Put | coordinator.py:94-98 | storing a worker's info appends a new id at the end of the order, or keeps the order when the id is already present; afterwards the id looks up to exactly the stored info, and every other id looks up as before |
| Registry.PutPut | coordinator.py:94-98 | registering the same id twice is the same as registering it once with the second info: the later registration wins and the position does not move |
| Registry.Lookup | coordinator.py:191 | a worker's info is found exactly when the id is registered, and it is the info stored under that id |
| Registry.SetHeartbeat | worker.py:181-182 | the registry half of the heartbeat handler the coordinator lacks (see Findings): only the sender's heartbeat time changes; ids, order, status and port are untouched, and an unknown id changes nothing |
| Registry.SetStatus | coordinator.py:191-192 | marking a worker failed changes only that worker's status; ids, order, heartbeat times and ports are untouched, and an unknown id changes nothing |
| Registry.FirstActive | coordinator.py:199 | the failover target is none exactly when no registered worker is active; otherwise it is the id of the earliest active worker in registration order |
| Registry.FirstActiveAfterFailure | coordinator.py:191-199 | demoting a worker never creates an active worker, and if the demoted worker was not the failover target, the target does not change |
| Coordinator.InitialValid | coordinator.py:15-19 | the coordinator starts with an empty chunk table, which satisfies the state invariant for no files |
| Coordinator.RegisterWorker | coordinator.py:84-101 | a missing or empty worker id is answered with a bad request and changes nothing; otherwise the worker is recorded as active with the current time and the given port, other workers, the chunk table and the results stay the same, and the reply is success |
| Coordinator.RegisterTwice | coordinator.py:94-98 | re-registering overwrites the earlier registration: two registrations of the same id equal the second one alone |
| Coordinator.RegisterRevives | coordinator.py:94-98 | after any successful registration a failover target exists, because a re-registering failed worker becomes active again |
| Coordinator.RegisterKeepsValid | coordinator.py:84-101 | registration preserves the state invariant with the same file sizes: each chunk list still tiles its whole file and is still owned by registered workers, since no id is removed |
| Coordinator.DistributeWork | coordinator.py:104-136 | a missing file or an empty registry changes nothing; otherwise only that file's chunk list is replaced, by one pending chunk per worker in registration order, carrying the worker's id and port; the list is exactly the layout of the file over the registry, and the chunks tile the file exactly |
| Chunks.Layout | coordinator.py:117-136 | one chunk per registered worker, in registration order, carrying that worker's id and port, the file path and the pending status |
| Chunks.RangeStart | coordinator.py:123 | the start of each of the n ranges is a non-negative offset no greater than the file size |
| Chunks.RangeSize | coordinator.py:124 | each range has a non-negative size and ends within the file, and the last range ends exactly at the file size |
| Chunks.LayoutTiles | coordinator.py:118-124 | chunk i starts at i times the floor of size over n; every chunk but the last has that size; the last one absorbs the remainder, which is less than n; the chunks are contiguous from 0 to the file size and their sizes sum to the file size |
| Chunks.TilesPartition | coordinator.py:118-124 | every byte offset of the file lies in exactly one chunk of a tiling chunk list |
| Chunks.SumOfContiguous | coordinator.py:123-124 | the sizes of contiguous chunks add up to the distance from the first start to the last end |
| Chunks.ContiguousDisjoint | coordinator.py:123-124 | distinct chunks of a contiguous list with non-negative sizes do not overlap |
| Coordinator.DistributeKeepsValid | coordinator.py:104-136 | distributing a file preserves the state invariant, with the file's new size recorded and every other file's size unchanged; the new list tiles the whole file |
| Coordinator.MarkCompleted | coordinator.py:179-181 | every chunk owned by the reporting worker becomes completed, every other chunk keeps its status, and ranges, owners and ports are unchanged |
| Coordinator.ReceiveResults | coordinator.py:162-184 | a missing or empty worker id or file path is answered with a bad request and changes nothing; otherwise the file's stored records are extended by the new ones in order, other files' records and chunk lists are untouched, the file's chunks owned by the sender become completed, and the registry is unchanged |
| Coordinator.ReceiveResultsAppends | coordinator.py:173-176 | two accepted deliveries for one file store the concatenation of their records, in delivery order, after what was already stored |
| Coordinator.ReceiveKeepsValid | coordinator.py:162-184 | receiving results preserves the state invariant with the same file sizes |
| Failover.Reassign | coordinator.py:197-203 | an unfinished chunk of the failed worker goes to the replacement, if there is one, as pending; any other chunk is unchanged; the file, range and port of a chunk never change |
| Failover.ReassignAll | coordinator.py:196-203 | every chunk of a list is treated alone, in place, and the list keeps its length |
| Failover.HandleWorkerFailure | coordinator.py:186-207 | the worker is marked failed and nothing else in the registry changes; each unfinished chunk of that worker moves to the earliest active worker, which is never the failed one, and becomes pending; when no worker is active, or the chunk is completed or owned by another worker, it is untouched; ranges and ports are never changed |
| Failover.HandleFailureKeepsValid | coordinator.py:186-207 | failure handling preserves the state invariant with the same file sizes |
| Failover.StaleIds | coordinator.py:215-217 | the workers handled by a pass are exactly those whose heartbeat is more than 30 seconds old |
| Failover.StaleIdsInOrder | coordinator.py:215-217 | the workers a pass handles are the stale registrations, each once, in registration order |
| Failover.FailEach | coordinator.py:215-218 | handling a list of failures in turn keeps the registered ids and their order, the set of files in the chunk table and the length of every chunk list |
| Failover.HeartbeatPass | coordinator.py:212-218 | a pass handles the stale workers as failed in registration order; the registered ids, the files in the chunk table and the length of every chunk list stay the same |
| Failover.HeartbeatPassEffect | coordinator.py:209-218 | after one pass every stale worker is failed and every other worker is unchanged; each chunk keeps its file, range and port, and is either unchanged or was an unfinished chunk of a stale owner that moved, as pending, to the first worker still active after the pass, or, when none survives, to another stale worker |
| Failover.TimeoutBoundary | coordinator.py:217 | the timeout is strict: a worker whose heartbeat is exactly 30 seconds old is left alone |
| Failover.HeartbeatPassClearsStale | coordinator.py:195-218 | if some worker is still active after a pass, no unfinished chunk is left with a stale owner |
| Failover.HeartbeatPassKeepsValid | coordinator.py:209-218 | a heartbeat pass preserves the state invariant with the same file sizes |
| Failover.LiveWorkerFailedAsWritten | coordinator.py:41-42 | as written, a worker registered at time 0 that is still delivering results is marked failed by the pass at time 31 |
| Failover.RecordHeartbeat | worker.py:174-183 | the missing heartbeat handler: a registered worker's heartbeat time becomes now; a missing, empty or unknown id changes nothing; nothing else changes |
| Failover.HeartbeatKeepsWorkerAlive | coordinator.py:215-218 | with the handler in place, a worker whose last heartbeat is at most 30 seconds old is left untouched by a pass |
| Analyzer.MinuteKey | analyzer.py:26 | the minute key is the start of the minute containing the timestamp: a multiple of 60 that is at most the timestamp and more than the timestamp minus 60 |
| Analyzer.New | analyzer.py:8-18 | a fresh analyzer has the given window and satisfies the counter invariant |
| Analyzer.Observe | analyzer.py:25-39 | folding in one record keeps the window and preserves the counter invariant |
| Analyzer.ObserveCounts | analyzer.py:26-33 | one record adds one request to its own minute, and one error there when its level is exactly ERROR; every other minute's counts are unchanged |
| Analyzer.UpdateMetrics | analyzer.py:20-39 | updating keeps the window and preserves the invariant: each minute with errors or samples has at least one request, and error counts never exceed request counts |
| Analyzer.UpdateMetricsRequests | analyzer.py:24-29 | after a batch, each minute's request count is its old count plus the number of batch records whose timestamp falls in that minute |
| Analyzer.UpdateMetricsErrors | analyzer.py:32-33 | after a batch, each minute's error count is its old count plus the number of batch records in that minute whose level is exactly ERROR |
| Analyzer.UpdateMetricsSamples | analyzer.py:36-39 | after a batch, each minute's response times are the old ones followed by that minute's response_time values, in batch order |
| Analyzer.UpdateMetricsSplit | analyzer.py:23-39 | processing a batch equals processing any split of it in two consecutive batches |
| Analyzer.BatchCountsAdd | analyzer.py:24-39 | the per-minute request counts, error counts and samples of a concatenated batch are those of the two parts combined |
| Analyzer.UpdateMetricsCommute | analyzer.py:23-39 | counts do not depend on the order in which two batches arrive, and each minute's samples are the same multiset |
| Analyzer.UpdateMetricsTotal | analyzer.py:29 | every record adds exactly one request: the total over all minutes grows by the batch length |
| Analyzer.GetCurrentMetrics | analyzer.py:41-70 | the summary reports exactly the minutes with requests that do not start before now minus the window, compared with sub-second precision; for each such minute it gives the request count, errors divided by requests, and the mean of the response times, or 0 when there are none |
| Analyzer.WindowBoundary | analyzer.py:44-55 | a minute that starts exactly one window before now is reported, and a quarter of a second later it no longer is |
| Analyzer.ErrorRateBounded | analyzer.py:57-60 | under the counter invariant every reported error rate lies between 0 and 1 |
| Analyzer.MeanBounded | analyzer.py:62-66 | a reported average lies between the smallest and largest response time of its minute |
| TextLines.Split | worker.py:93 | splitting at newlines yields at least one piece and no piece contains a newline |
| TextLines.JoinSplit | worker.py:93 | re-joining the pieces with newlines gives back the original text |
| TextLines.SplitJoin | worker.py:93 | splitting a newline-joined list of newline-free pieces gives back the list |
| TextLines.Strip | worker.py:98 | a stripped line is never longer than the line and neither starts nor ends with whitespace |
| TextLines.StripShape | worker.py:98 | stripping returns a contiguous slice of the line, and everything cut off on either side is whitespace |
| TextLines.StripEmptyIffBlank | worker.py:98 | a line strips to the empty string exactly when every character of it is whitespace |
| Worker.ChunkText | worker.py:87-92 | reading a range yields the text from the start offset, clipped to the end of the file, one character per position |
| Worker.Accept | worker.py:98-110 | a line contributes its parsed entry tagged with the file path when it is non-blank and the parser accepts it, and nothing otherwise |
| Worker.ParseLines | worker.py:96-110 | every record of a chunk carries the chunk's file path |
| Worker.ParseLinesSources | worker.py:96-110 | every record comes from a non-blank line the parser accepts, tagged with the file path; records keep line order, and no accepted line is skipped |
| Worker.ParseLinesAppend | worker.py:96-110 | parsing two consecutive groups of lines gives the concatenation of their records |
| Worker.ParseLinesBounded | worker.py:96-110 | there are never more records than non-blank lines |
| Worker.BlankLinesUnparsed | worker.py:98-100 | blank lines never reach the parser: parsers that agree on all non-blank lines give the same records |
| Worker.ProcessChunk | worker.py:79-122 | an unreadable file gives no records and leaves the analyzer as it was; otherwise the records are those parsed from the lines of the chunk's text, and the analyzer is updated once with exactly those records |
| LogRecords.Tag | worker.py:102-108 | a tagged record carries the given file path and untags back to the parsed entry |

## Left out

- HTTP and JSON plumbing: the web server, routes, request bodies, response statuses and the `print` calls. Each handler is a function of the decoded request fields.
- `send_chunk_to_worker` and `send_results` are network calls whose failures the source only logs. Dispatch is not modelled, and results arrive as a record list.
- Concurrency: handlers interleave at every `await`, and the analyzer's lock is not modelled. Each operation is atomic.
- The analyzer is represented by its state alone, so the lock does not appear.
- `LogEntry.parse` and its timestamp formats are abstract: logEntry.py is not part of this model. Entry timestamps are integer seconds: their minute key drops seconds and microseconds alike, so nothing the analyzer reports depends on the sub-second part. The metrics are reals.
- In the analyzer, `datetime.replace(second=0, microsecond=0)` is modelled as rounding integer seconds down to a multiple of 60. Time zones and leap seconds are not represented.
- Response times and averages are exact reals. IEEE-754 rounding is not modelled.
- Analyzer.GetCurrentMetrics: averages of non-numeric `response_time` values and the unused `error_rate` default dict are not modelled.
- Worker.ChunkText: the model takes one character per byte. In the source, `seek(start)` in text mode moves to a byte offset, while `read(size)` counts decoded characters and `os.path.getsize` counts bytes. On non-ASCII text, a chunk of `size` characters can run past `start + size` bytes and overlap the next chunk. A `start` inside a multi-byte character raises a decode error, which `process_chunk` catches, returning no records and leaving the analyzer unchanged. Neither the overlap nor that error path is modelled. Universal-newline translation, which turns `\r\n` and a lone `\r` into `\n`, is not modelled either.
- Worker.ProcessChunk: an exception raised inside `update_metrics`, for example from a timestamp without `replace`, would leave the returned records intact and the analyzer partly updated. The model assumes `update_metrics` completes.
- Coordinator.ReceiveResults: a JSON `null` in the `results` field would make `extend` raise after the results key was created. The model treats missing results as an empty list and does not model the partial update.
- Coordinator.RegisterWorker: non-string ids and ports are not modelled. A port is `Option<int>` and an id is a string.
- Failover.HeartbeatPass: only one pass of the loop is modelled. The 10-second sleep and the repeated passes are not.
- `process_test_logs`, the command-line entry points and the test vectors are not modelled. They are drivers and data, not core logic.

## Findings

| source | as written | input that shows it | evidently intended | confidence | as-written member | corrected member |
|---|---|---|---|---|---|---|
| coordinator.py:41-42 | only `/register` and `/results` are routed, so the heartbeats a worker posts every 10 seconds (worker.py:181) never reach the coordinator; `last_heartbeat` is set only at registration | worker `w1` registers at time 0, delivers results at any later time, and the pass at time 31 marks it failed anyway | a `/heartbeat` route that refreshes the sender's `last_heartbeat`, so a worker that keeps sending heartbeats is never treated as stale | high (not executed) | Failover.LiveWorkerFailedAsWritten | Failover.RecordHeartbeat, Failover.HeartbeatKeepsWorkerAlive |
