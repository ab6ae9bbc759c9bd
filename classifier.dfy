/** The per-entry policy of `handleFile`: the trace-event log is rewritten line by line,
    an oversized captured resource is dropped, everything else is copied. */
module Classifier {
  import opened Base

  /** The name of the trace-event log entry. */
  const TraceLogName: string := "trace.trace"

  /** The directory prefix of captured resources. */
  const ResourcePrefix: string := "resources/"

  datatype Kind = TraceLogEntry | DroppedResource | PassThrough

  /** Go's `strings.HasPrefix`. */
  predicate HasPrefix(s: string, prefix: string): (b: bool)
    ensures b <==> prefix <= s
  {
    |s| >= |prefix| && s[..|prefix|] == prefix
  }

  /** The classification of an entry by name and uncompressed size. The trace log is
      recognised by name alone, whatever its size; a resource is dropped only when it is
      strictly larger than the limit; nothing else is ever dropped or rewritten. */
  function Classify(cfg: Config, name: string, size: nat): (k: Kind)
    ensures k == TraceLogEntry <==> name == TraceLogName
    ensures k == DroppedResource <==>
              name != TraceLogName && ResourcePrefix <= name && size > cfg.maxResourceFileSize
    ensures k == PassThrough <==>
              name != TraceLogName && (!(ResourcePrefix <= name) || size <= cfg.maxResourceFileSize)
  {
    if name == TraceLogName then TraceLogEntry
    else if HasPrefix(name, ResourcePrefix) && size > cfg.maxResourceFileSize then DroppedResource
    else PassThrough
  }
}
