/** `handleFile` and `cleanZipfile`: rewrite one archive entry by entry into a temporary
    archive next to it, and rename that over the original only when every step succeeded. */
module Cleaner {
  import opened Base
  import opened Json
  import opened Shortener
  import opened TraceLog
  import opened Classifier

  /** An archive entry: its name, the uncompressed size recorded in its header, its bytes. */
  datatype Entry = Entry(name: string, size: nat, content: seq<byte>)

  /** An archive: its comment and its entries in order. */
  datatype Archive = Archive(comment: string, entries: seq<Entry>)

  /** What `handleFile` does with one entry. */
  datatype EntryResult = Emit(entry: Entry) | Skip | ScanError | EntryPanic(reason: PanicReason)

  /** The effect of `handleFile` on one entry: the trace log is written anew with its
      rewritten content, a dropped resource writes nothing, anything else is copied.
      Only the trace log can fail, and only when its rewriting fails. */
  function HandledEntry(cfg: Config, codec: Codec, e: Entry): (r: EntryResult)
    ensures r.Skip? <==> Dropped(cfg, e)
    ensures r.Emit? ==> WrittenFor(cfg, codec, e, r.entry)
    ensures r.ScanError? <==> e.name == TraceLogName && RewrittenTrace(cfg, codec, e.content).ScanFailed?
    ensures r.EntryPanic? <==> e.name == TraceLogName && RewrittenTrace(cfg, codec, e.content).TracePanic?
  {
    match Classify(cfg, e.name, e.size)
    case TraceLogEntry =>
      (match RewrittenTrace(cfg, codec, e.content)
       case TraceWritten(content) => Emit(Entry(e.name, |content|, content))
       case ScanFailed => ScanError
       case TracePanic(_, why) => EntryPanic(why))
    case DroppedResource => Skip
    case PassThrough => Emit(e)
  }

  /** `handleFile`, in the source's order of tests. */
  method HandleFile(cfg: Config, codec: Codec, e: Entry) returns (r: EntryResult)
    ensures r == HandledEntry(cfg, codec, e)
  {
    if e.name == TraceLogName {
      var t := RewriteTraceLog(cfg, codec, e.content);
      match t {
        case TraceWritten(content) => return Emit(Entry(e.name, |content|, content));
        case ScanFailed => return ScanError;
        case TracePanic(_, why) => return EntryPanic(why);
      }
    }
    if HasPrefix(e.name, ResourcePrefix) && e.size > cfg.maxResourceFileSize {
      return Skip;
    }
    return Emit(e);
  }

  /** Whether an entry would be dropped. */
  predicate Dropped(cfg: Config, e: Entry)
  {
    Classify(cfg, e.name, e.size) == DroppedResource
  }

  /** How many entries would be dropped. */
  function DroppedCount(cfg: Config, es: seq<Entry>): nat
  {
    if es == [] then 0 else DroppedCount(cfg, es[..|es| - 1]) + (if Dropped(cfg, es[|es| - 1]) then 1 else 0)
  }

  /** The entries that are not dropped, in their original order. */
  function Retained(cfg: Config, es: seq<Entry>): (r: seq<Entry>)
    ensures |r| == |es| - DroppedCount(cfg, es)
    ensures forall i :: 0 <= i < |r| ==> r[i] in es && !Dropped(cfg, r[i])
    ensures forall i :: 0 <= i < |es| && !Dropped(cfg, es[i]) ==> es[i] in r
  {
    if es == [] then []
    else
      var n := |es| - 1;
      var front := Retained(cfg, es[..n]);
      assert forall i :: 0 <= i < n ==> es[..n][i] == es[i];
      if Dropped(cfg, es[n]) then front else front + [es[n]]
  }

  /** Filtering keeps order: the retained entries of two consecutive runs of entries are
      those of the first run followed by those of the second. */
  lemma {:induction false} RetainedAppend(cfg: Config, a: seq<Entry>, b: seq<Entry>)
    ensures Retained(cfg, a + b) == Retained(cfg, a) + Retained(cfg, b)
    decreases |b|
  {
    if b == [] {
      assert a + b == a;
    } else {
      var n := |b| - 1;
      assert (a + b)[..|a + b| - 1] == a + b[..n];
      assert (a + b)[|a + b| - 1] == b[n];
      RetainedAppend(cfg, a, b[..n]);
    }
  }

  /** Whether `handleFile` returns an error for an entry or panics on it. */
  predicate Fails(cfg: Config, codec: Codec, e: Entry)
  {
    Stops(HandledEntry(cfg, codec, e))
  }

  /** The entries written to the new archive, or the first entry that fails. */
  datatype EntriesResult = Written(out: seq<Entry>) | Aborted(index: nat) | Crashed(index: nat, reason: PanicReason)

  /** What the new archive holds in place of a retained entry: an entry under the same
      name that is either the same entry (copied) or the rewritten trace log. */
  predicate WrittenFor(cfg: Config, codec: Codec, kept: Entry, out: Entry)
  {
    out.name == kept.name &&
    (Classify(cfg, kept.name, kept.size) == PassThrough ==> out == kept) &&
    (Classify(cfg, kept.name, kept.size) == TraceLogEntry ==>
       RewrittenTrace(cfg, codec, kept.content) == TraceWritten(out.content))
  }

  /** The loop's effect for any per-entry step, defined entry by entry from the front
      of the archive: the first entry whose step fails stops everything. */
  function HandleEach(handle: Entry -> EntryResult, es: seq<Entry>): (r: EntriesResult)
    ensures r.Aborted? ==> r.index < |es|
    ensures r.Crashed? ==> r.index < |es|
    decreases |es|
  {
    if es == [] then Written([])
    else
      var n := |es| - 1;
      match HandleEach(handle, es[..n])
      case Aborted(k) => Aborted(k)
      case Crashed(k, why) => Crashed(k, why)
      case Written(out) =>
        match handle(es[n])
        case ScanError => Aborted(n)
        case EntryPanic(why) => Crashed(n, why)
        case Skip => Written(out)
        case Emit(e) => Written(out + [e])
  }

  /** What the step emits, entry by entry, skipping the entries it skips. */
  function Emitted(handle: Entry -> EntryResult, es: seq<Entry>): seq<Entry>
  {
    if es == [] then []
    else
      var n := |es| - 1;
      Emitted(handle, es[..n]) + (if handle(es[n]).Emit? then [handle(es[n]).entry] else [])
  }

  /** Whether a step's result stops the loop. */
  predicate Stops(r: EntryResult)
  {
    r.ScanError? || r.EntryPanic?
  }

  /** Every entry is handled exactly when no step stops the loop. */
  lemma {:induction false} EachWrittenIff(handle: Entry -> EntryResult, es: seq<Entry>)
    ensures HandleEach(handle, es).Written? <==> forall i :: 0 <= i < |es| ==> !Stops(handle(es[i]))
    decreases |es|
  {
    if es != [] {
      var n := |es| - 1;
      assert forall i :: 0 <= i < n ==> es[..n][i] == es[i];
      EachWrittenIff(handle, es[..n]);
    }
  }

  /** A completely handled archive is written with exactly what the steps emitted, in order. */
  lemma {:induction false} EachWrittenEmitted(handle: Entry -> EntryResult, es: seq<Entry>)
    requires HandleEach(handle, es).Written?
    ensures HandleEach(handle, es).out == Emitted(handle, es)
    decreases |es|
  {
    if es != [] {
      EachWrittenEmitted(handle, es[..|es| - 1]);
    }
  }

  /** An archive that is not handled completely stops at its first stopping entry. */
  lemma {:induction false} EachFirstFailure(handle: Entry -> EntryResult, es: seq<Entry>)
    requires !HandleEach(handle, es).Written?
    ensures var r := HandleEach(handle, es);
            (r.Aborted? ==> handle(es[r.index]).ScanError?) &&
            (r.Crashed? ==> handle(es[r.index]) == EntryPanic(r.reason)) &&
            forall i :: 0 <= i < r.index ==> !Stops(handle(es[i]))
    decreases |es|
  {
    var n := |es| - 1;
    assert forall i :: 0 <= i < n ==> es[..n][i] == es[i];
    if HandleEach(handle, es[..n]).Written? {
      EachWrittenIff(handle, es[..n]);
    } else {
      EachFirstFailure(handle, es[..n]);
    }
  }

  /** One more entry: its result extends the result of the entries before it. */
  lemma EachStep(handle: Entry -> EntryResult, es: seq<Entry>, k: nat, out: seq<Entry>)
    requires k < |es| && HandleEach(handle, es[..k]) == Written(out)
    ensures HandleEach(handle, es[..k + 1]) ==
              match handle(es[k])
              case ScanError => Aborted(k)
              case EntryPanic(why) => Crashed(k, why)
              case Skip => Written(out)
              case Emit(e) => Written(out + [e])
  {
    assert es[..k + 1][..k] == es[..k];
  }

  /** A failure found in a prefix of the entries is the failure of the whole archive. */
  lemma {:induction false} EachFailurePersists(handle: Entry -> EntryResult, es: seq<Entry>, k: nat)
    requires k <= |es| && !HandleEach(handle, es[..k]).Written?
    ensures HandleEach(handle, es) == HandleEach(handle, es[..k])
    decreases |es| - k
  {
    if k < |es| {
      assert es[..k + 1][..k] == es[..k];
      EachFailurePersists(handle, es, k + 1);
    } else {
      assert es[..k] == es;
    }
  }

  /** The per-entry step of `cleanZipfile`. */
  function HandlerOf(cfg: Config, codec: Codec): Entry -> EntryResult
  {
    e => HandledEntry(cfg, codec, e)
  }

  /** The entries written to the new archive, or the first entry that fails. */
  function RewrittenEntries(cfg: Config, codec: Codec, es: seq<Entry>): EntriesResult
  {
    HandleEach(HandlerOf(cfg, codec), es)
  }

  /** What `handleFile` emits across the archive matches the retained entries one for one,
      in order, when no entry fails. */
  lemma {:induction false} EmittedMatchesRetained(cfg: Config, codec: Codec, es: seq<Entry>)
    requires forall i :: 0 <= i < |es| ==> !Stops(HandledEntry(cfg, codec, es[i]))
    ensures var out := Emitted(HandlerOf(cfg, codec), es);
            |out| == |Retained(cfg, es)| &&
            forall i :: 0 <= i < |out| ==> WrittenFor(cfg, codec, Retained(cfg, es)[i], out[i])
    decreases |es|
  {
    if es != [] {
      var n := |es| - 1;
      var front := es[..n];
      assert forall i :: 0 <= i < n ==> front[i] == es[i];
      EmittedMatchesRetained(cfg, codec, front);
      var h := HandledEntry(cfg, codec, es[n]);
      assert !Stops(h);
      if h.Skip? {
        assert Emitted(HandlerOf(cfg, codec), es) == Emitted(HandlerOf(cfg, codec), front);
        assert Retained(cfg, es) == Retained(cfg, front);
      } else {
        assert Emitted(HandlerOf(cfg, codec), es) == Emitted(HandlerOf(cfg, codec), front) + [h.entry];
        assert Retained(cfg, es) == Retained(cfg, front) + [es[n]];
      }
    }
  }

  /** The archive is written completely exactly when no entry fails. */
  lemma EntriesWrittenIff(cfg: Config, codec: Codec, es: seq<Entry>)
    ensures RewrittenEntries(cfg, codec, es).Written? <==> forall i :: 0 <= i < |es| ==> !Fails(cfg, codec, es[i])
  {
    EachWrittenIff(HandlerOf(cfg, codec), es);
  }

  /** Entry-count invariant and pass-through fidelity: a completely written archive holds
      one entry per retained entry, in the original order, so N - M entries when M of N
      are dropped; copied entries are identical and the trace log is rewritten. */
  lemma EntriesInOrder(cfg: Config, codec: Codec, es: seq<Entry>)
    requires RewrittenEntries(cfg, codec, es).Written?
    ensures var out := RewrittenEntries(cfg, codec, es).out;
            |out| == |Retained(cfg, es)| == |es| - DroppedCount(cfg, es) &&
            forall i :: 0 <= i < |out| ==> WrittenFor(cfg, codec, Retained(cfg, es)[i], out[i])
  {
    EachWrittenIff(HandlerOf(cfg, codec), es);
    EachWrittenEmitted(HandlerOf(cfg, codec), es);
    EmittedMatchesRetained(cfg, codec, es);
  }

  /** An archive that is not written completely stops at its first failing entry. */
  lemma FirstFailure(cfg: Config, codec: Codec, es: seq<Entry>)
    requires !RewrittenEntries(cfg, codec, es).Written?
    ensures var r := RewrittenEntries(cfg, codec, es);
            (r.Aborted? ==> HandledEntry(cfg, codec, es[r.index]).ScanError?) &&
            (r.Crashed? ==> HandledEntry(cfg, codec, es[r.index]) == EntryPanic(r.reason)) &&
            forall i :: 0 <= i < r.index ==> !Fails(cfg, codec, es[i])
  {
    EachFirstFailure(HandlerOf(cfg, codec), es);
  }

  /** A file on disk: a finished archive, or one whose writing never completed. */
  datatype File = Zip(archive: Archive) | Unfinished

  /** The files on disk by path. */
  type Disk = map<string, File>

  /** Failures of the operating system and of finishing the archive, which the model
      cannot predict and takes as given. */
  datatype Faults = Faults(createFails: bool, writerCloseFails: bool, fileCloseFails: bool, renameFails: bool)

  /** The error `cleanZipfile` returns. */
  datatype CleanError = OpenFailed | CreateFailed | LineTooLong | WriterCloseFailed | FileCloseFailed | RenameFailed

  /** How a run of `cleanZipfile` ends: success, an error, or a panic that ends the process. */
  datatype Outcome = Cleaned | Failed(error: CleanError) | ProcessPanic(reason: PanicReason)

  /** The disk after a run, and how the run ended. */
  datatype Run = Run(disk: Disk, outcome: Outcome)

  /** The temporary archive is written next to the original. */
  function TempName(path: string): (t: string)
    ensures t != path
  {
    path + ".new"
  }

  /** The disk and outcome of `cleanZipfile(path)`. */
  function CleanedRun(cfg: Config, codec: Codec, faults: Faults, disk: Disk, path: string): Run
  {
    if path !in disk || !disk[path].Zip? then Run(disk, Failed(OpenFailed))
    else if faults.createFails then Run(disk, Failed(CreateFailed))
    else
      var src := disk[path].archive;
      var tmp := TempName(path);
      match RewrittenEntries(cfg, codec, src.entries)
      case Crashed(_, why) => Run(disk[tmp := Unfinished], ProcessPanic(why))
      case Aborted(_) => Run(disk - {tmp}, Failed(LineTooLong))
      case Written(out) =>
        if faults.writerCloseFails then Run(disk[tmp := Unfinished], Failed(WriterCloseFailed))
        else if faults.fileCloseFails then Run(disk[tmp := Unfinished], Failed(FileCloseFailed))
        else
          var made := Zip(Archive(src.comment, out));
          if faults.renameFails then Run(disk[tmp := made], Failed(RenameFailed))
          else Run((disk - {tmp})[path := made], Cleaned)
  }

  /** `cleanZipfile`: open the archive, create the temporary one with the same comment,
      hand every entry to `handleFile` and stop at the first error (removing the temporary
      file), then close both and rename the temporary archive over the original. */
  method CleanZipfile(cfg: Config, codec: Codec, faults: Faults, disk: Disk, path: string) returns (r: Run)
    ensures r == CleanedRun(cfg, codec, faults, disk, path)
  {
    if path !in disk || !disk[path].Zip? {
      return Run(disk, Failed(OpenFailed));
    }
    var reader := disk[path].archive;
    var outputFileName := TempName(path);
    if faults.createFails {
      return Run(disk, Failed(CreateFailed));
    }
    var files := disk[outputFileName := Unfinished];
    var comment := reader.comment;
    var written: seq<Entry> := [];
    var i := 0;
    while i < |reader.entries|
      invariant 0 <= i <= |reader.entries|
      invariant RewrittenEntries(cfg, codec, reader.entries[..i]) == Written(written)
    {
      EachStep(HandlerOf(cfg, codec), reader.entries, i, written);
      var handled := HandleFile(cfg, codec, reader.entries[i]);
      match handled {
        case ScanError =>
          EachFailurePersists(HandlerOf(cfg, codec), reader.entries, i + 1);
          return Run(files - {outputFileName}, Failed(LineTooLong));
        case EntryPanic(why) =>
          EachFailurePersists(HandlerOf(cfg, codec), reader.entries, i + 1);
          return Run(files, ProcessPanic(why));
        case Skip =>
        case Emit(e) =>
          written := written + [e];
      }
      i := i + 1;
    }
    assert reader.entries[..|reader.entries|] == reader.entries;
    if faults.writerCloseFails {
      return Run(files, Failed(WriterCloseFailed));
    }
    if faults.fileCloseFails {
      return Run(files, Failed(FileCloseFailed));
    }
    files := files[outputFileName := Zip(Archive(comment, written))];
    if faults.renameFails {
      return Run(files, Failed(RenameFailed));
    }
    files := (files - {outputFileName})[path := Zip(Archive(comment, written))];
    return Run(files, Cleaned);
  }

  /** Atomicity: a run that does not succeed leaves every file other than the temporary
      one exactly as it was, the original archive included. Failing to open or create
      changes nothing at all; an entry error removes the temporary file; a panic, a failed
      close or a failed rename leaves it behind. */
  lemma FailedRunLeavesOriginal(cfg: Config, codec: Codec, faults: Faults, disk: Disk, path: string)
    requires CleanedRun(cfg, codec, faults, disk, path).outcome != Cleaned
    ensures var r := CleanedRun(cfg, codec, faults, disk, path);
            forall p :: p != TempName(path) ==> (p in r.disk <==> p in disk) && (p in disk ==> r.disk[p] == disk[p])
    ensures var r := CleanedRun(cfg, codec, faults, disk, path);
            r.outcome in {Failed(OpenFailed), Failed(CreateFailed)} ==> r.disk == disk
    ensures var r := CleanedRun(cfg, codec, faults, disk, path);
            r.outcome == Failed(LineTooLong) ==> TempName(path) !in r.disk
    ensures var r := CleanedRun(cfg, codec, faults, disk, path);
            r.outcome.ProcessPanic? || r.outcome in {Failed(WriterCloseFailed), Failed(FileCloseFailed)} ==>
              TempName(path) in r.disk && r.disk[TempName(path)] == Unfinished
    ensures var r := CleanedRun(cfg, codec, faults, disk, path);
            r.outcome == Failed(RenameFailed) ==>
              path in disk && disk[path].Zip? &&
              var src := disk[path].archive;
              TempName(path) in r.disk && r.disk[TempName(path)].Zip? &&
              var made := r.disk[TempName(path)].archive;
              made.comment == src.comment &&
              |made.entries| == |Retained(cfg, src.entries)| &&
              forall i :: 0 <= i < |made.entries| ==> WrittenFor(cfg, codec, Retained(cfg, src.entries)[i], made.entries[i])
  {
    if CleanedRun(cfg, codec, faults, disk, path).outcome == Failed(RenameFailed) {
      EntriesInOrder(cfg, codec, disk[path].archive.entries);
    }
  }

  /** A run succeeds exactly when the archive opens, no operating-system step fails and no
      entry fails. */
  lemma CleanedIff(cfg: Config, codec: Codec, faults: Faults, disk: Disk, path: string)
    ensures CleanedRun(cfg, codec, faults, disk, path).outcome == Cleaned <==>
              path in disk && disk[path].Zip? &&
              faults == Faults(false, false, false, false) &&
              forall i :: 0 <= i < |disk[path].archive.entries| ==> !Fails(cfg, codec, disk[path].archive.entries[i])
  {
    if path in disk && disk[path].Zip? {
      EntriesWrittenIff(cfg, codec, disk[path].archive.entries);
    }
  }

  /** A successful run replaces the original by an archive with the same comment and one
      entry per retained entry, in order: copies of the copied entries and the rewritten
      trace log. The temporary file is gone and no other file changes. */
  lemma CleanedContents(cfg: Config, codec: Codec, faults: Faults, disk: Disk, path: string)
    requires CleanedRun(cfg, codec, faults, disk, path).outcome == Cleaned
    ensures path in disk && disk[path].Zip?
    ensures var r := CleanedRun(cfg, codec, faults, disk, path);
            var src := disk[path].archive;
            TempName(path) !in r.disk && path in r.disk && r.disk[path].Zip? &&
            var made := r.disk[path].archive;
            made.comment == src.comment &&
            |made.entries| == |Retained(cfg, src.entries)| == |src.entries| - DroppedCount(cfg, src.entries) &&
            (forall i :: 0 <= i < |made.entries| ==> WrittenFor(cfg, codec, Retained(cfg, src.entries)[i], made.entries[i])) &&
            (forall p :: p != path && p != TempName(path) ==> (p in r.disk <==> p in disk) && (p in disk ==> r.disk[p] == disk[p]))
  {
    EntriesInOrder(cfg, codec, disk[path].archive.entries);
  }
}
