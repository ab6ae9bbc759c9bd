/** The line shortener of cmd/playwright-cleaner/main.go: decode one oversized trace
    record, truncate the string at `metadata.params.arg.value.s`, and encode it again. */
module Shortener {
  import opened Base
  import opened Json

  /** The bytes "[...snip...]" placed between the kept head and tail of the string. */
  const SnipMarker: seq<byte> := [91, 46, 46, 46, 115, 110, 105, 112, 46, 46, 46, 93]

  /** How many bytes of the string are kept at each end. */
  const Keep: nat := 40

  /** The path of the object whose `s` field is truncated. */
  const ValuePath: Path := ["metadata", "params", "arg", "value"]

  /** The path of the truncated string itself. */
  const StringPath: Path := ["metadata", "params", "arg", "value", "s"]

  /** The string that replaces `s`: its first 40 bytes, the marker, its last 40 bytes.
      For fewer than 80 bytes the two ends overlap; the result is 92 bytes regardless,
      so it is shorter than `s` exactly when `s` has more than 92 bytes. */
  function Truncate(s: seq<byte>): (t: seq<byte>)
    requires |s| >= Keep
    ensures |t| == 2 * Keep + |SnipMarker| == 92
    ensures |t| < |s| <==> |s| > 92
    ensures t[..Keep] == s[..Keep] && t[Keep..Keep + |SnipMarker|] == SnipMarker
    ensures t[Keep + |SnipMarker|..] == s[|s| - Keep..]
  {
    s[..Keep] + SnipMarker + s[|s| - Keep..]
  }

  /** Why the source's type assertion or slice expression would panic. */
  datatype PanicReason = NotAString | SliceOutOfRange

  /** Which of the source's branches the edit took. */
  datatype Edit = NoTarget | Truncated | ValueReset

  /** The record after the edit, or the panic that stops the edit. */
  datatype Mutation = Mutated(record: Json, edit: Edit) | Panicked(reason: PanicReason)

  /** The reference definition of the edit, stated over whole paths: truncate the string
      at `StringPath`; if the object at `ValuePath` has no `s`, make that object empty;
      if `ValuePath` does not lead to an object, keep the record. */
  function EditByPath(record: Json): Mutation
  {
    match At(record, ValuePath)
    case Some(JObj(value)) =>
      if "s" !in value then Mutated(SetAt(record, ValuePath, JObj(map[])), ValueReset)
      else (
        match value["s"]
        case JStr(s) =>
          if |s| < Keep then Panicked(SliceOutOfRange)
          else Mutated(SetAt(record, StringPath, JStr(Truncate(s))), Truncated)
        case _ => Panicked(NotAString))
    case _ => Mutated(record, NoTarget)
  }

  /** One step of the walk: the child object under `key`, when there is one. */
  function TraverseObject(obj: map<string, Json>, key: string): (r: Option<map<string, Json>>)
    ensures r.Some? <==> At(JObj(obj), [key]).Some? && At(JObj(obj), [key]).value.JObj?
    ensures r.Some? ==> At(JObj(obj), [key]) == Some(JObj(r.value))
  {
    assert [key][1..] == [];
    if key in obj then
      match obj[key]
      case JObj(child) => Some(child)
      case _ => None
    else None
  }

  /** The edit as the source performs it, one `traverseObject` per level, rebuilding
      the nested objects it writes into. It agrees with the path-based definition. */
  function ApplyEdit(obj: map<string, Json>): Mutation
  {
    match TraverseObject(obj, "metadata")
    case None => Mutated(JObj(obj), NoTarget)
    case Some(metadata) =>
      match TraverseObject(metadata, "params")
      case None => Mutated(JObj(obj), NoTarget)
      case Some(params) =>
        match TraverseObject(params, "arg")
        case None => Mutated(JObj(obj), NoTarget)
        case Some(arg) =>
          match TraverseObject(arg, "value")
          case None => Mutated(JObj(obj), NoTarget)
          case Some(value) =>
            if "s" in value then
              match value["s"]
              case JStr(s) =>
                if |s| < Keep then Panicked(SliceOutOfRange)
                else
                  var value' := value["s" := JStr(Truncate(s))];
                  Mutated(JObj(obj["metadata" := JObj(metadata["params" := JObj(params["arg" := JObj(arg["value" := JObj(value')])])])]), Truncated)
              case _ => Panicked(NotAString)
            else
              Mutated(JObj(obj["metadata" := JObj(metadata["params" := JObj(params["arg" := JObj(arg["value" := JObj(map[])])])])]), ValueReset)
  }

  /** The source's nested walk and the path-based definition agree on every object. */
  lemma ApplyEditMatchesPaths(obj: map<string, Json>)
    ensures ApplyEdit(obj) == EditByPath(JObj(obj))
  {
    PathSteps(obj);
  }

  /** The literal paths unfold one key at a time. */
  lemma PathSteps(obj: map<string, Json>)
    ensures ValuePath[0] == "metadata" && ValuePath[1..] == ["params", "arg", "value"]
    ensures ValuePath[1..][1..] == ["arg", "value"] && ValuePath[1..][1..][1..] == ["value"]
    ensures ValuePath[1..][1..][1..][1..] == []
    ensures StringPath[1..] == ["params", "arg", "value", "s"]
    ensures StringPath[1..][1..] == ["arg", "value", "s"] && StringPath[1..][1..][1..] == ["value", "s"]
    ensures StringPath[1..][1..][1..][1..] == ["s"] && ["s"][1..] == []
  {
  }

  /** `json.Unmarshal` into a `map[string]interface{}`: an object decodes to its fields,
      `null` leaves the map nil (kept here as JNull), and any other value is a type error. */
  function DecodeRecord(codec: Codec, line: seq<byte>): (r: Option<Json>)
    ensures r.Some? ==> r.value.JObj? || r.value.JNull?
    ensures r.Some? ==> codec.decode(line) == r
    ensures r.Some? <==> codec.decode(line).Some? && (codec.decode(line).value.JObj? || codec.decode(line).value.JNull?)
  {
    match codec.decode(line)
    case Some(JObj(fields)) => Some(JObj(fields))
    case Some(JNull) => Some(JNull)
    case _ => None
  }

  /** The edit applied to a decoded record, as the source performs it; a nil map has no
      keys, so nothing resolves. */
  function EditRecord(record: Json): Mutation
  {
    match record
    case JObj(fields) => ApplyEdit(fields)
    case _ => Mutated(record, NoTarget)
  }

  /** The error `shortenTraceLine` returns beside its line. */
  datatype ShortenError = ParseFailed | SerializeFailed | StillTooLong

  /** The line to write and the error to log, or the panic that ends the process. */
  datatype Shortening = Shortened(line: seq<byte>, err: Option<ShortenError>) | Crash(reason: PanicReason)

  /** `shortenTraceLine`: decoding or encoding failures hand back the input line itself;
      otherwise the edited record is encoded, and the new line is returned even when it is
      still longer than the threshold, with an error saying so. */
  function ShortenTraceLine(cfg: Config, codec: Codec, line: seq<byte>): (r: Shortening)
    ensures r.Shortened? && r.err == Some(ParseFailed) <==> DecodeRecord(codec, line).None?
    ensures r.Shortened? && (r.err == Some(ParseFailed) || r.err == Some(SerializeFailed)) ==> r.line == line
    ensures r.Shortened? && r.err != Some(ParseFailed) && r.err != Some(SerializeFailed) ==>
              (r.err == Some(StillTooLong) <==> |r.line| > cfg.maxTraceLineLength)
  {
    match DecodeRecord(codec, line)
    case None => Shortened(line, Some(ParseFailed))
    case Some(record) =>
      match EditRecord(record)
      case Panicked(why) => Crash(why)
      case Mutated(record', _) =>
        match codec.encode(record')
        case None => Shortened(line, Some(SerializeFailed))
        case Some(newLine) =>
          if |newLine| > cfg.maxTraceLineLength then Shortened(newLine, Some(StillTooLong))
          else Shortened(newLine, None)
  }

  /** Which line the shortener returns, in terms of the path-based edit: it panics
      exactly when the edit panics, it fails to serialise exactly when the edited record
      cannot be encoded, and otherwise it returns the encoding of the edited record. */
  lemma ShortenOutcomes(cfg: Config, codec: Codec, line: seq<byte>)
    ensures var r := ShortenTraceLine(cfg, codec, line);
            r.Crash? <==> DecodeRecord(codec, line).Some? && EditByPath(DecodeRecord(codec, line).value).Panicked?
    ensures var r := ShortenTraceLine(cfg, codec, line);
            r.Crash? ==> r.reason == EditByPath(DecodeRecord(codec, line).value).reason
    ensures var r := ShortenTraceLine(cfg, codec, line);
            r.Shortened? && r.err == Some(SerializeFailed) <==>
              DecodeRecord(codec, line).Some? && EditByPath(DecodeRecord(codec, line).value).Mutated? &&
              codec.encode(EditByPath(DecodeRecord(codec, line).value).record).None?
    ensures var r := ShortenTraceLine(cfg, codec, line);
            r.Shortened? && r.err != Some(ParseFailed) && r.err != Some(SerializeFailed) ==>
              codec.encode(EditByPath(DecodeRecord(codec, line).value).record) == Some(r.line)
  {
    match DecodeRecord(codec, line)
    case None =>
    case Some(record) =>
      EditRecordMatchesPaths(record);
  }

  /** A decoded `null` (a nil map) resolves no path and is kept; an object is edited as
      the path-based definition says. */
  lemma EditRecordMatchesPaths(record: Json)
    ensures EditRecord(record) == EditByPath(record)
    ensures record.JNull? ==> EditRecord(record) == Mutated(JNull, NoTarget)
  {
    if record.JObj? {
      ApplyEditMatchesPaths(record.fields);
    }
  }

  /** The edit on the known large-string shape, independent of any codec: a string of at
      least 40 bytes at `metadata.params.arg.value.s` is truncated in place, every path
      apart from it is unchanged, and every object above it keeps its keys. */
  lemma TruncationEdit(record: Json, s: seq<byte>)
    requires At(record, StringPath) == Some(JStr(s)) && |s| >= Keep
    ensures EditByPath(record) == Mutated(SetAt(record, StringPath, JStr(Truncate(s))), Truncated)
    ensures var edited := EditByPath(record).record;
            At(edited, StringPath) == Some(JStr(Truncate(s))) &&
            (forall q :: Apart(q, StringPath) ==> At(edited, q) == At(record, q)) &&
            (forall q :: q < StringPath ==> (At(edited, q).Some? <==> At(record, q).Some?))
  {
    assert StringPath == ValuePath + ["s"];
    AtExtend(record, ValuePath, "s");
    var edited := SetAt(record, StringPath, JStr(Truncate(s)));
    assert EditByPath(record) == Mutated(edited, Truncated);
    SetAtHit(record, StringPath, JStr(Truncate(s)));
    forall q | Apart(q, StringPath) ensures At(edited, q) == At(record, q) {
      SetAtElsewhere(record, StringPath, q, JStr(Truncate(s)));
    }
    forall q | q < StringPath ensures At(edited, q).Some? <==> At(record, q).Some? {
      SetAtAbove(record, StringPath, q, JStr(Truncate(s)));
    }
  }

  /** The known large-string shape end to end: when the truncated record survives
      encoding, the written line decodes to the record with that string truncated, every
      unrelated path unchanged, and every object above it keeping its keys. */
  lemma TruncationCorrect(cfg: Config, codec: Codec, line: seq<byte>, s: seq<byte>)
    requires codec.decode(line).Some? && At(codec.decode(line).value, StringPath) == Some(JStr(s))
    requires |s| >= Keep
    requires RoundTripsOn(codec, SetAt(codec.decode(line).value, StringPath, JStr(Truncate(s))))
    ensures ShortenTraceLine(cfg, codec, line).Shortened?
    ensures ShortenTraceLine(cfg, codec, line).err != Some(ParseFailed)
    ensures var r := ShortenTraceLine(cfg, codec, line);
            r.err != Some(SerializeFailed) ==>
              var record := codec.decode(line).value;
              codec.decode(r.line).Some? &&
              var written := codec.decode(r.line).value;
              At(written, StringPath) == Some(JStr(Truncate(s))) &&
              (forall q :: Apart(q, StringPath) ==> At(written, q) == At(record, q)) &&
              (forall q :: q < StringPath ==> (At(written, q).Some? <==> At(record, q).Some?))
  {
    var record := codec.decode(line).value;
    assert StringPath == ValuePath + ["s"];
    AtExtend(record, ValuePath, "s");
    assert record.JObj?;
    assert DecodeRecord(codec, line) == Some(record);
    TruncationEdit(record, s);
    ShortenOutcomes(cfg, codec, line);
  }

  /** The edit on a target object without an `s` key, independent of any codec:
      `arg.value` becomes the empty object and every path apart from it is unchanged. */
  lemma ValueResetEdit(record: Json, value: map<string, Json>)
    requires At(record, ValuePath) == Some(JObj(value)) && "s" !in value
    ensures EditByPath(record) == Mutated(SetAt(record, ValuePath, JObj(map[])), ValueReset)
    ensures var edited := EditByPath(record).record;
            At(edited, ValuePath) == Some(JObj(map[])) &&
            (forall q :: Apart(q, ValuePath) ==> At(edited, q) == At(record, q))
  {
    var edited := SetAt(record, ValuePath, JObj(map[]));
    SetAtHit(record, ValuePath, JObj(map[]));
    forall q | Apart(q, ValuePath) ensures At(edited, q) == At(record, q) {
      SetAtElsewhere(record, ValuePath, q, JObj(map[]));
    }
  }

  /** The target object without an `s` key end to end: when the edited record survives
      encoding, the written line decodes to the record with `arg.value` replaced by the
      empty object and every unrelated path unchanged. */
  lemma ValueResetCorrect(cfg: Config, codec: Codec, line: seq<byte>, value: map<string, Json>)
    requires codec.decode(line).Some? && At(codec.decode(line).value, ValuePath) == Some(JObj(value))
    requires "s" !in value
    requires RoundTripsOn(codec, SetAt(codec.decode(line).value, ValuePath, JObj(map[])))
    ensures ShortenTraceLine(cfg, codec, line).Shortened?
    ensures ShortenTraceLine(cfg, codec, line).err != Some(ParseFailed)
    ensures var r := ShortenTraceLine(cfg, codec, line);
            r.err != Some(SerializeFailed) ==>
              var record := codec.decode(line).value;
              codec.decode(r.line).Some? &&
              var written := codec.decode(r.line).value;
              At(written, ValuePath) == Some(JObj(map[])) &&
              (forall q :: Apart(q, ValuePath) ==> At(written, q) == At(record, q))
  {
    var record := codec.decode(line).value;
    assert record.JObj?;
    assert DecodeRecord(codec, line) == Some(record);
    ValueResetEdit(record, value);
    ShortenOutcomes(cfg, codec, line);
  }

  /** When `metadata.params.arg.value` is missing or is not an object at some step, the
      record is re-encoded unchanged: when it survives encoding, the written line decodes
      to the record that was read. */
  lemma UnresolvedPathKeepsRecord(cfg: Config, codec: Codec, line: seq<byte>)
    requires DecodeRecord(codec, line).Some?
    requires RoundTripsOn(codec, DecodeRecord(codec, line).value)
    requires !(At(DecodeRecord(codec, line).value, ValuePath).Some? &&
               At(DecodeRecord(codec, line).value, ValuePath).value.JObj?)
    ensures ShortenTraceLine(cfg, codec, line).Shortened?
    ensures var r := ShortenTraceLine(cfg, codec, line);
            r.err != Some(ParseFailed) && (r.err != Some(SerializeFailed) ==>
              codec.decode(r.line) == DecodeRecord(codec, line))
  {
    var record := DecodeRecord(codec, line).value;
    assert EditByPath(record) == Mutated(record, NoTarget);
    ShortenOutcomes(cfg, codec, line);
  }
}
