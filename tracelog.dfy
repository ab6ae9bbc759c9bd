/** The rewriting of the trace-event log entry: the `for scanner.Scan()` loop of
    `handleFile`, which writes every scanned line, shortened when it is too long. */
module TraceLog {
  import opened Base
  import opened Json
  import opened Shortener
  import opened Scanning

  /** The line to write in place of one scanned line, or the panic it causes. */
  datatype LineResult = Line(bytes: seq<byte>) | LinePanic(reason: PanicReason)

  /** One scanned line: kept when it is at most the threshold, otherwise replaced by the
      shortener's line whatever error comes with it. */
  function ProcessLine(cfg: Config, codec: Codec, line: seq<byte>): LineResult
  {
    if |line| > cfg.maxTraceLineLength then
      match ShortenTraceLine(cfg, codec, line)
      case Shortened(newLine, _) => Line(newLine)
      case Crash(why) => LinePanic(why)
    else Line(line)
  }

  /** The lines to write for all scanned lines, or the first line whose shortening panics. */
  datatype LinesResult = AllLines(out: seq<seq<byte>>) | PanicAt(index: nat, reason: PanicReason)

  /** Whether shortening `line` would panic (only lines over the threshold are shortened). */
  predicate Panics(cfg: Config, codec: Codec, line: seq<byte>)
  {
    ProcessLine(cfg, codec, line).LinePanic?
  }

  /** The loop's effect for any per-line step, defined line by line from the front of
      the log: the first line whose step panics stops everything. */
  function RewriteEach(step: seq<byte> -> LineResult, lines: seq<seq<byte>>): (r: LinesResult)
    ensures r.PanicAt? ==> r.index < |lines|
    decreases |lines|
  {
    if lines == [] then AllLines([])
    else
      var n := |lines| - 1;
      match RewriteEach(step, lines[..n])
      case PanicAt(k, why) => PanicAt(k, why)
      case AllLines(out) =>
        match step(lines[n])
        case LinePanic(why) => PanicAt(n, why)
        case Line(bytes) => AllLines(out + [bytes])
  }

  /** Every line is written exactly when no step panics. */
  lemma {:induction false} EachWrittenIff(step: seq<byte> -> LineResult, lines: seq<seq<byte>>)
    ensures RewriteEach(step, lines).AllLines? <==> forall i :: 0 <= i < |lines| ==> step(lines[i]).Line?
    decreases |lines|
  {
    if lines != [] {
      var n := |lines| - 1;
      assert forall i :: 0 <= i < n ==> lines[..n][i] == lines[i];
      EachWrittenIff(step, lines[..n]);
    }
  }

  /** When every line is written, the i-th written line is what the step made of the
      i-th scanned line: one output line per input line, none dropped or merged. */
  lemma {:induction false} EachRewritten(step: seq<byte> -> LineResult, lines: seq<seq<byte>>)
    requires RewriteEach(step, lines).AllLines?
    ensures var out := RewriteEach(step, lines).out;
            |out| == |lines| && forall i :: 0 <= i < |lines| ==> step(lines[i]) == Line(out[i])
    decreases |lines|
  {
    if lines != [] {
      var n := |lines| - 1;
      assert forall i :: 0 <= i < n ==> lines[..n][i] == lines[i];
      EachRewritten(step, lines[..n]);
    }
  }

  /** A log that panics does so at its first panicking line. */
  lemma {:induction false} EachFirstPanic(step: seq<byte> -> LineResult, lines: seq<seq<byte>>)
    requires RewriteEach(step, lines).PanicAt?
    ensures var r := RewriteEach(step, lines);
            step(lines[r.index]) == LinePanic(r.reason) &&
            forall i :: 0 <= i < r.index ==> step(lines[i]).Line?
    decreases |lines|
  {
    var n := |lines| - 1;
    assert forall i :: 0 <= i < n ==> lines[..n][i] == lines[i];
    if RewriteEach(step, lines[..n]).AllLines? {
      EachWrittenIff(step, lines[..n]);
    } else {
      EachFirstPanic(step, lines[..n]);
    }
  }

  /** One more line: its result extends the result of the lines before it. */
  lemma EachStep(step: seq<byte> -> LineResult, lines: seq<seq<byte>>, k: nat, out: seq<seq<byte>>)
    requires k < |lines| && RewriteEach(step, lines[..k]) == AllLines(out)
    ensures RewriteEach(step, lines[..k + 1]) ==
              match step(lines[k])
              case Line(bytes) => AllLines(out + [bytes])
              case LinePanic(why) => PanicAt(k, why)
  {
    assert lines[..k + 1][..k] == lines[..k];
  }

  /** A panic found in a prefix of the log is the panic of the whole log. */
  lemma {:induction false} EachPanicPersists(step: seq<byte> -> LineResult, lines: seq<seq<byte>>, k: nat)
    requires k <= |lines| && RewriteEach(step, lines[..k]).PanicAt?
    ensures RewriteEach(step, lines) == RewriteEach(step, lines[..k])
    decreases |lines| - k
  {
    if k < |lines| {
      assert lines[..k + 1][..k] == lines[..k];
      EachPanicPersists(step, lines, k + 1);
    } else {
      assert lines[..k] == lines;
    }
  }

  /** The per-line step of the trace-log loop. */
  function LineStepOf(cfg: Config, codec: Codec): seq<byte> -> LineResult
  {
    line => ProcessLine(cfg, codec, line)
  }

  /** The rewritten lines of the trace-event log. */
  function RewrittenLines(cfg: Config, codec: Codec, lines: seq<seq<byte>>): LinesResult
  {
    RewriteEach(LineStepOf(cfg, codec), lines)
  }

  /** Every line is written exactly when no line's shortening panics. */
  lemma LinesWrittenIff(cfg: Config, codec: Codec, lines: seq<seq<byte>>)
    ensures RewrittenLines(cfg, codec, lines).AllLines? <==>
              forall i :: 0 <= i < |lines| ==> !Panics(cfg, codec, lines[i])
  {
    EachWrittenIff(LineStepOf(cfg, codec), lines);
  }

  /** Line-count preservation and the per-line rule: one line is written per scanned line;
      a line of at most the threshold is written unchanged, a longer one is replaced by the
      shortener's line even when the shortener reports an error. */
  lemma LinesRewritten(cfg: Config, codec: Codec, lines: seq<seq<byte>>)
    requires RewrittenLines(cfg, codec, lines).AllLines?
    ensures var out := RewrittenLines(cfg, codec, lines).out;
            |out| == |lines| &&
            (forall i :: 0 <= i < |lines| && |lines[i]| <= cfg.maxTraceLineLength ==> out[i] == lines[i]) &&
            (forall i :: 0 <= i < |lines| && |lines[i]| > cfg.maxTraceLineLength ==>
               ShortenTraceLine(cfg, codec, lines[i]).Shortened? &&
               out[i] == ShortenTraceLine(cfg, codec, lines[i]).line)
  {
    EachRewritten(LineStepOf(cfg, codec), lines);
  }

  /** A log that panics does so at its first line whose shortening panics. */
  lemma FirstPanic(cfg: Config, codec: Codec, lines: seq<seq<byte>>)
    requires RewrittenLines(cfg, codec, lines).PanicAt?
    ensures var r := RewrittenLines(cfg, codec, lines);
            ShortenTraceLine(cfg, codec, lines[r.index]) == Crash(r.reason) &&
            Panics(cfg, codec, lines[r.index]) &&
            forall i :: 0 <= i < r.index ==> !Panics(cfg, codec, lines[i])
  {
    EachFirstPanic(LineStepOf(cfg, codec), lines);
  }

  /** What becomes of the trace-event log entry. */
  datatype TraceResult = TraceWritten(content: seq<byte>) | ScanFailed | TracePanic(line: nat, reason: PanicReason)

  /** The new content of the trace-event log: the rewritten lines, each followed by LF;
      a panic on a line happens before a scan error that follows it. */
  function RewrittenTrace(cfg: Config, codec: Codec, content: seq<byte>): TraceResult
  {
    var scan := ScanLines(content);
    match RewrittenLines(cfg, codec, scan.lines)
    case PanicAt(k, why) => TracePanic(k, why)
    case AllLines(out) => if scan.failed then ScanFailed else TraceWritten(Join(out))
  }

  /** The scanning loop: write each line, shortened when it is longer than the threshold,
      then LF; a panic stops at once and a scan error is reported after the loop. */
  method RewriteTraceLog(cfg: Config, codec: Codec, content: seq<byte>) returns (r: TraceResult)
    ensures r == RewrittenTrace(cfg, codec, content)
  {
    var scan := ScanLines(content);
    var lines := scan.lines;
    var written: seq<byte> := [];
    ghost var outLines: seq<seq<byte>> := [];
    var lineNum := 0;
    while lineNum < |lines|
      invariant 0 <= lineNum <= |lines|
      invariant RewrittenLines(cfg, codec, lines[..lineNum]) == AllLines(outLines)
      invariant written == Join(outLines)
    {
      var line := lines[lineNum];
      EachStep(LineStepOf(cfg, codec), lines, lineNum, outLines);
      if |line| > cfg.maxTraceLineLength {
        var shortening := ShortenTraceLine(cfg, codec, line);
        if shortening.Crash? {
          assert ProcessLine(cfg, codec, lines[lineNum]) == LinePanic(shortening.reason);
          EachPanicPersists(LineStepOf(cfg, codec), lines, lineNum + 1);
          return TracePanic(lineNum, shortening.reason);
        }
        line := shortening.line;
      }
      assert ProcessLine(cfg, codec, lines[lineNum]) == Line(line);
      JoinSnoc(outLines, line);
      written := written + line;
      written := written + [LF];
      outLines := outLines + [line];
      lineNum := lineNum + 1;
    }
    assert lines[..|lines|] == lines;
    if scan.failed {
      return ScanFailed;
    }
    return TraceWritten(written);
  }

  /** Line-count preservation: when the log is rewritten, the new content holds one LF
      per line the scanner read from the old content. */
  lemma LineCountPreserved(cfg: Config, codec: Codec, content: seq<byte>)
    requires SingleLine(codec)
    requires RewrittenTrace(cfg, codec, content).TraceWritten?
    ensures CountLF(RewrittenTrace(cfg, codec, content).content) == |ScanLines(content).lines|
  {
    var lines := ScanLines(content).lines;
    var out := RewrittenLines(cfg, codec, lines).out;
    LinesRewritten(cfg, codec, lines);
    forall i | 0 <= i < |out| ensures LF !in out[i] {
      if |lines[i]| > cfg.maxTraceLineLength {
        var sh := ShortenTraceLine(cfg, codec, lines[i]);
        if sh.err != Some(ParseFailed) && sh.err != Some(SerializeFailed) {
          ShortenOutcomes(cfg, codec, lines[i]);
          var record := EditByPath(DecodeRecord(codec, lines[i]).value).record;
          assert codec.encode(record) == Some(sh.line);
        }
      }
    }
    JoinCount(out);
  }

  /** A log whose lines are all within the threshold comes out byte for byte as it went
      in, when it is already in the form the loop writes (every line ends in LF, no line
      ends in CR, none reaches the scanner's limit). */
  lemma ShortLogUnchanged(cfg: Config, codec: Codec, lines: seq<seq<byte>>)
    requires forall i :: 0 <= i < |lines| ==> LF !in lines[i]
    requires forall i :: 0 <= i < |lines| ==> DropCR(lines[i]) == lines[i]
    requires forall i :: 0 <= i < |lines| ==> |lines[i]| < MaxScanTokenSize
    requires forall i :: 0 <= i < |lines| ==> |lines[i]| <= cfg.maxTraceLineLength
    ensures RewrittenTrace(cfg, codec, Join(lines)) == TraceWritten(Join(lines))
  {
    ScanJoin(lines);
    assert ScanLines(Join(lines)).lines == lines;
    LinesWrittenIff(cfg, codec, lines);
    assert forall i :: 0 <= i < |lines| ==> !Panics(cfg, codec, lines[i]);
    var r := RewrittenLines(cfg, codec, lines);
    LinesRewritten(cfg, codec, lines);
    assert r.out == lines;
  }
}
