/**
 * The records that flow from the line parser to the metrics analyzer and
 * to the coordinator.
 *
 * A parsed line is an `Entry`: a timestamp (whole seconds), a level, a
 * message and a map of numeric metrics. The worker tags every accepted
 * entry with the path of the file it came from, giving a `Record`.
 */
module LogRecords {

  /** What the line parser yields for one accepted line. */
  datatype Entry = Entry(
    timestamp: int,
    level: string,
    message: string,
    metrics: map<string, real>)

  /** A parsed entry tagged with its source file. */
  datatype Record = Record(
    timestamp: int,
    level: string,
    message: string,
    metrics: map<string, real>,
    filepath: string)

  /** Copies every field of `e` and adds the file path. */
  function Tag(e: Entry, filepath: string): (r: Record)
    ensures r.filepath == filepath
    ensures Untag(r) == e
  {
    Record(e.timestamp, e.level, e.message, e.metrics, filepath)
  }

  /** Forgets the file path of a record. */
  function Untag(r: Record): Entry {
    Entry(r.timestamp, r.level, r.message, r.metrics)
  }
}
