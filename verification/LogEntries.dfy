/** One activity record. */
module LogEntries {
  datatype LogEntry = LogEntry(
    time: string, user: string, verb: string, host: string, path: string, status: int, outcome: string,
    bytesIn: int, bytesOut: int, durationMs: int, client: string,
    t: int  // Unix seconds parsed from time; 0 when not set
  )
}
