# playwright-cleaner, modelled in Dafny

playwright-cleaner shrinks recorded Playwright trace archives (`.zip` files) in place.
It rewrites each archive entry by entry into `<archive>.new`:

- the trace-event log `trace.trace` is rewritten line by line;
- a captured resource under `resources/` larger than `-maxresource` bytes is dropped;
- every other entry is copied.

In the log, every line longer than `-maxline` bytes goes through the line shortener. The
shortener decodes the line as a JSON object and follows `metadata.params.arg.value`. It cuts the
string `s` found there down to its first 40 bytes, the marker `[...snip...]` and its last 40 bytes.
If that object has no `s`, it replaces it with `{}`. Then it encodes the record again. A line that
cannot be decoded or encoded is written unchanged. Only when every entry succeeded is the new
archive renamed over the original.

The model is split into modules:

- `Base`: bytes, `Option` and the two thresholds (`Config`).
- `Json`: the decoded JSON value, and addressing by a path of keys (`At`, `SetAt`). It also holds
  the `Codec`, which stands for `json.Unmarshal`/`json.Marshal` as two functions that may fail.
- `Shortener`: `shortenTraceLine` and `traverseObject`.
- `Scanning`: the line splitting of `bufio.Scanner` with `ScanLines`, and the writing of lines.
- `TraceLog`: the line loop of `handleFile`.
- `Classifier`: the entry policy of `handleFile`.
- `Cleaner`: `handleFile` and `cleanZipfile` over an in-memory disk, a map from paths to files.

Pure logic is written as functions with lemmas. The two loops of the source are methods, each
proved equal to a specification function: `TraceLog.RewriteTraceLog` (the `for scanner.Scan()`
loop) and `Cleaner.CleanZipfile` (the loop over `reader.File`). The nested in-place map
updates of `shortenTraceLine` are modelled in two ways. `Shortener.ApplyEdit` follows the
source's nesting step by step, rebuilding each object it writes into, and is what
`Shortener.ShortenTraceLine` applies. `Shortener.EditByPath` states the same edit over whole
paths. The two are proved equal, and the properties of the shortener are stated over paths.
The two loops are stated once for any per-line or per-entry step (`TraceLog.RewriteEach`,
`Cleaner.HandleEach`) and then for the source's own step.

In these places the source's behaviour is easy to misread; the model follows the source:

- When closing the new archive or renaming it fails, the source returns the error without
  removing the temporary file (main.go:80-87). Only an entry error removes it.
- A value `s` that is not a string, or that is shorter than 40 bytes, makes the source panic
  (main.go:153-154). The model returns an explicit `Crash` outcome there, so nothing is
  excluded by a precondition. The whole run then ends as `ProcessPanic`, and the temporary
  file stays on disk.
- For an `s` of 40 to 79 bytes, the kept head and tail overlap. The result is always 92 bytes,
  so it is shorter than `s` only when `s` is longer than 92 bytes (`Shortener.Truncate`).
- Errors carry no entry name: `cleanZipfile` returns the error of `handleFile` as it is.

## Model

| member | source | states |
|---|---|---|
| `Shortener.Truncate` | cmd/playwright-cleaner/main.go:153-154 | The new `s` is the first 40 bytes, then `[...snip...]`, then the last 40 bytes. It is always 92 bytes, and shorter than the old string exactly when that string is longer than 92 bytes. |
| `Shortener.TraverseObject` | cmd/playwright-cleaner/main.go:174-181 | Returns a value exactly when `key` is present and holds an object. That value is the object found at the one-key path `[key]`. |
| `Shortener.ApplyEditMatchesPaths` | cmd/playwright-cleaner/main.go:148-161 | The nested `traverseObject` walk with its in-place writes equals the path-based edit `EditByPath`. That edit truncates `s`, resets `value` to `{}` when `s` is absent, keeps the record when the path does not resolve, and panics on a non-string or short `s`. |
| `Shortener.DecodeRecord` | cmd/playwright-cleaner/main.go:143-146 | Decoding into a map accepts exactly an object or `null`. It fails for every other JSON value and for undecodable input. |
| `Shortener.EditRecordMatchesPaths` | cmd/playwright-cleaner/main.go:148-161 | A decoded `null` (a nil map) resolves no path and is kept. An object is edited as `EditByPath` says. |
| `Shortener.ShortenTraceLine` | cmd/playwright-cleaner/main.go:142-172 | A parse failure happens exactly when decoding into a map fails. A parse failure or a serialise failure returns the input line itself with that error. Otherwise `StillTooLong` is reported exactly when the new line exceeds `maxTraceLineLength`, and that line is still returned. |
| `Shortener.ShortenOutcomes` | cmd/playwright-cleaner/main.go:142-172 | A panic happens exactly when the edit of the decoded record panics, and for the same reason. A serialise failure happens exactly when the edited record cannot be encoded. Otherwise the returned line is the encoding of the edited record. |
| `Shortener.TruncationEdit` | cmd/playwright-cleaner/main.go:148-156 | With no codec involved: for a string `s` of at least 40 bytes at `metadata.params.arg.value.s`, the edit truncates `s` there. Every path apart from `s` is unchanged, and every object above `s` keeps its keys. |
| `Shortener.TruncationCorrect` | cmd/playwright-cleaner/main.go:148-171 | For a string `s` of at least 40 bytes at `metadata.params.arg.value.s`, when the truncated record survives encoding, the written line decodes to a record where `s` is truncated. Every path apart from `s` is unchanged, and every object above `s` keeps its keys. |
| `Shortener.ValueResetEdit` | cmd/playwright-cleaner/main.go:148-157 | With no codec involved: when `value` resolves without a key `s`, the edit makes `metadata.params.arg.value` the empty object. All paths apart from it are unchanged. |
| `Shortener.ValueResetCorrect` | cmd/playwright-cleaner/main.go:148-166 | When `value` resolves without a key `s` and the edited record survives encoding, the written line decodes to a record whose `metadata.params.arg.value` is `{}`. All paths apart from it are unchanged. |
| `Shortener.UnresolvedPathKeepsRecord` | cmd/playwright-cleaner/main.go:148-166 | When some step of `metadata.params.arg.value` is missing or is not an object, and the record survives encoding, the written line decodes to the record that was read. |
| `Json.SetAtHit` | cmd/playwright-cleaner/main.go:152-156 | After writing at a path that resolves, that path holds the written value. |
| `Json.SetAtMiss` | cmd/playwright-cleaner/main.go:148-151 | Writing at a path that does not resolve changes nothing. |
| `Json.SetAtElsewhere` | cmd/playwright-cleaner/main.go:152-156 | An in-place write at one path leaves every path unchanged when neither path is a prefix of the other. |
| `Json.SetAtAbove` | cmd/playwright-cleaner/main.go:152-156 | The objects on the way to the written path keep their key sets. |
| `Scanning.ScanLines` | cmd/playwright-cleaner/main.go:105-108 | Scanned lines hold no LF and are below the 1 GiB token limit. A scan that does not fail over data ending in LF yields one line per LF. |
| `Scanning.DropCR` | cmd/playwright-cleaner/main.go:105-109 | The scanner drops at most one byte from a line, and only a trailing CR. |
| `Scanning.JoinCount` | cmd/playwright-cleaner/main.go:117-123 | Writing each line followed by LF puts exactly one LF per line. |
| `Scanning.ScanJoin` | cmd/playwright-cleaner/main.go:105-124 | Scanning the written form of lines gives back exactly those lines, when none holds LF, ends in CR or reaches the limit. |
| `TraceLog.RewriteEach` | cmd/playwright-cleaner/main.go:108-124 | A line loop that stops on a panic stops at an index within the log. |
| `TraceLog.EachWrittenIff` | cmd/playwright-cleaner/main.go:108-124 | For any per-line step, every line is written exactly when no line's step panics. |
| `TraceLog.EachRewritten` | cmd/playwright-cleaner/main.go:108-124 | When every line is written, there is one output line per input line, and the i-th is what the step made of the i-th input line. |
| `TraceLog.EachFirstPanic` | cmd/playwright-cleaner/main.go:108-124 | A loop that panics stops at the panicking line, and no earlier line panics. |
| `TraceLog.LinesWrittenIff` | cmd/playwright-cleaner/main.go:108-124 | The trace log's lines are all written exactly when no line's shortening panics. |
| `TraceLog.LinesRewritten` | cmd/playwright-cleaner/main.go:108-124 | Without a panic there is one output line per input line. Lines of at most `maxTraceLineLength` bytes are unchanged. A longer line is replaced by the shortener's line, even when the shortener reports an error. |
| `TraceLog.FirstPanic` | cmd/playwright-cleaner/main.go:108-124 | A panicking log stops at the first line whose shortening panics, with that panic's reason. |
| `TraceLog.RewriteTraceLog` | cmd/playwright-cleaner/main.go:105-129 | The scanning loop writes each line, shortened when too long, followed by LF. It stops on a panic and reports a scan error after the loop, exactly as `RewrittenTrace` specifies. |
| `TraceLog.LineCountPreserved` | cmd/playwright-cleaner/main.go:108-124 | The rewritten log holds one LF per line scanned from the old log, so no line is dropped or merged. |
| `TraceLog.ShortLogUnchanged` | cmd/playwright-cleaner/main.go:110-122 | A log already in written form, with no line over the threshold, comes out byte for byte unchanged. |
| `Classifier.HasPrefix` | cmd/playwright-cleaner/main.go:132 | `strings.HasPrefix` holds exactly when the prefix is a sequence prefix of the name. |
| `Classifier.Classify` | cmd/playwright-cleaner/main.go:93-139 | `trace.trace` is the trace log whatever its size. A `resources/` entry is dropped exactly when its size is strictly greater than `maxResourceFileSize`, so a size equal to the limit is kept. Everything else passes through. |
| `Cleaner.HandleFile` | cmd/playwright-cleaner/main.go:90-140 | `handleFile`, with its conditions checked in the source's order, does what `HandledEntry` specifies. |
| `Cleaner.HandledEntry` | cmd/playwright-cleaner/main.go:90-140 | An entry is skipped exactly when it is dropped. What is written keeps the entry's name: a copy of a pass-through entry, or the rewritten trace log. Only `trace.trace` can fail: with a scan error exactly when its scan fails, with a panic exactly when a line panics. |
| `Cleaner.Retained` | cmd/playwright-cleaner/main.go:132-135 | The retained entries are the non-dropped entries, all of them and only them. There are N - M of them when M of N are dropped. |
| `Cleaner.RetainedAppend` | cmd/playwright-cleaner/main.go:70-78 | Dropping keeps order: the retained entries of two consecutive runs of entries are those of the first followed by those of the second. |
| `Cleaner.HandleEach` | cmd/playwright-cleaner/main.go:70-78 | An entry loop that aborts or panics stops at an index within the archive. |
| `Cleaner.EachWrittenIff` | cmd/playwright-cleaner/main.go:70-78 | For any per-entry step, every entry is handled exactly when no step returns an error or panics. |
| `Cleaner.EachWrittenEmitted` | cmd/playwright-cleaner/main.go:70-78 | A completely handled archive is written with exactly what the steps emitted, in order. |
| `Cleaner.EachFirstFailure` | cmd/playwright-cleaner/main.go:70-78 | A loop that stops does so at an entry whose step fails in that way, and no earlier step fails. |
| `Cleaner.EmittedMatchesRetained` | cmd/playwright-cleaner/main.go:70-78 | When no entry fails, `handleFile` emits one entry per retained entry, in order, each a copy or the rewritten trace log. |
| `Cleaner.EntriesWrittenIff` | cmd/playwright-cleaner/main.go:70-78 | Every entry is written exactly when no entry returns an error or panics. |
| `Cleaner.EntriesInOrder` | cmd/playwright-cleaner/main.go:70-78 | A completely written archive holds one entry per retained entry, in the original order: N - M entries. Pass-through entries are identical and the trace log is rewritten. |
| `Cleaner.FirstFailure` | cmd/playwright-cleaner/main.go:70-77 | An aborted loop stopped at its first failing entry. |
| `Cleaner.TempName` | cmd/playwright-cleaner/main.go:61 | The temporary archive's name differs from the original's. |
| `Cleaner.CleanZipfile` | cmd/playwright-cleaner/main.go:54-88 | Open, create, the entry loop that aborts and removes the temporary file, then close and rename. Proved equal to `CleanedRun`. |
| `Cleaner.FailedRunLeavesOriginal` | cmd/playwright-cleaner/main.go:54-88 | A run that does not succeed leaves every file except the temporary one unchanged, the original included. An open or create failure changes nothing. An entry error removes the temporary file. A panic or a failed close leaves it behind unfinished. A failed rename leaves it behind complete: the same comment and one entry per retained entry, in order. |
| `Cleaner.CleanedIff` | cmd/playwright-cleaner/main.go:54-88 | A run succeeds exactly when the archive opens, no operating-system step fails and no entry fails. |
| `Cleaner.CleanedContents` | cmd/playwright-cleaner/main.go:66-87 | On success the original path holds an archive with the same comment and N - M entries, in order. Each is a copy or the rewritten trace log. The temporary file is gone and no other file changed. |

## Left out

- `main`, flag parsing, globbing of `data/*.zip`, and error aggregation across archives
  (main.go:15-52) are left out. They are command-line glue. The thresholds are an explicit
  `Config` instead.
- `json.Unmarshal` and `json.Marshal` are not modelled. They are the two fields of `Codec`, and
  each may fail. Properties that depend on them assume `RoundTripsOn` for the one record they
  encode (its encoding decodes back to it) or `SingleLine` (an encoding holds no LF). JSON
  text syntax, float64 numbers and the replacement of invalid UTF-8 are not modelled.
- `Shortener.TruncationCorrect` does not cover a cut at byte 40 or at `len(s)-40` that splits a
  multi-byte UTF-8 character. The truncated string is then not valid UTF-8, `json.Marshal`
  writes U+FFFD in place of the broken bytes, and `RoundTripsOn` fails for the edited record.
  What the written line decodes to in that case is not modelled. `Shortener.TruncationEdit`
  still describes the edit of the record itself.
- The zip format is not modelled. That covers compression, header metadata other than name
  and size, CRC checks, and the metadata lost when `writer.Create` replaces the trace log's
  header. An archive is a comment plus a sequence of (name, size, bytes) entries.
- Per-entry I/O errors are not modelled: `f.Open`, `writer.Create`, and `fileWriter.Write`
  (main.go:94-103, 117-122). Neither are the errors of the cleanup calls on the abort path. The
  result of `writer.Copy`, which the source ignores (main.go:138), is not modelled either.
  Failures of `os.Create`, `writer.Close`, `outputFile.Close` and `os.Rename` are inputs, given
  as `Faults`. A failure of `zip.OpenReader` is modelled as a path that holds no finished archive.
- `Scanning.ScanLines`: the only scan error modelled is `bufio.ErrTooLong`, for a raw line of
  2^30 bytes or more. Read errors of the underlying entry reader are not modelled, nor is the
  reader-dependent case of a final unterminated line of exactly 2^30 bytes. The scanner's
  buffer growth is not modelled.
- Logging (main.go:91, 113) is left out, because it has no effect on the result.
- After a panic the model stops the run. The source then ends the whole process, so later
  archives are never attempted; that is outside this model.
