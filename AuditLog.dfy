/** The append-only audit log "log.txt", as a sequence of records. Timestamps are
    not modelled. */
module AuditLog {
  import opened Store

  datatype LogRecord =
    | Executed(path: string)     // "Executed: <path>"
    | Error(message: string)     // "ERROR: <message>"
    | Skipped(job: Element)      // "Skipped invalid job: <job>, Reason: ..."
    | LoadFailed                 // "Failed to load jobs: ..."

  class Logger {
    var records: seq<LogRecord>

    constructor ()
      ensures records == []
    {
      records := [];
    }

    /** One line appended to the log file. */
    method Append(r: LogRecord)
      modifies this
      ensures records == old(records) + [r]
    {
      records := records + [r];
    }
  }
}
