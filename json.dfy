/** The decoded form of one trace record: the values that Go's `encoding/json`
    produces when it decodes into `interface{}`, and addressing by a path of keys. */
module Json {
  import opened Base

  /** A decoded JSON value. Strings are kept as the bytes the source slices. */
  datatype Json =
    | JNull
    | JBool(b: bool)
    | JNum(n: real)
    | JStr(s: seq<byte>)
    | JArr(items: seq<Json>)
    | JObj(fields: map<string, Json>)

  /** A sequence of object keys leading from a record to a nested value. */
  type Path = seq<string>

  /** The value found by following `p` from `j`, or None when some step is missing
      or passes through something that is not an object. */
  function At(j: Json, p: Path): Option<Json>
    decreases |p|
  {
    if p == [] then Some(j)
    else if j.JObj? && p[0] in j.fields then At(j.fields[p[0]], p[1..])
    else None
  }

  /** `j` with the value at `p` replaced by `v`; `j` itself when `p` does not resolve.
      Only existing keys are overwritten, as the source only reassigns keys it found. */
  function SetAt(j: Json, p: Path, v: Json): Json
    decreases |p|
  {
    if p == [] then v
    else if j.JObj? && p[0] in j.fields then JObj(j.fields[p[0] := SetAt(j.fields[p[0]], p[1..], v)])
    else j
  }

  /** Neither path is a prefix of the other: they address unrelated parts of a record. */
  predicate Apart(p: Path, q: Path)
  {
    !(p <= q) && !(q <= p)
  }

  /** Following a path one key further: `p + [k]` resolves exactly when `p` resolves to an
      object holding `k`, and then it yields that key's value. */
  lemma {:induction false} AtExtend(j: Json, p: Path, k: string)
    ensures At(j, p + [k]).Some? <==>
              At(j, p).Some? && At(j, p).value.JObj? && k in At(j, p).value.fields
    ensures At(j, p + [k]).Some? ==> At(j, p + [k]).value == At(j, p).value.fields[k]
  {
    if p == [] {
      assert p + [k] == [k];
      assert [k][1..] == [];
    } else {
      assert (p + [k])[0] == p[0];
      assert (p + [k])[1..] == p[1..] + [k];
      if j.JObj? && p[0] in j.fields {
        AtExtend(j.fields[p[0]], p[1..], k);
      }
    }
  }

  /** After `SetAt`, the path that was set holds the new value, provided it resolved. */
  lemma {:induction false} SetAtHit(j: Json, p: Path, v: Json)
    requires At(j, p).Some?
    ensures At(SetAt(j, p, v), p) == Some(v)
  {
    if p != [] {
      SetAtHit(j.fields[p[0]], p[1..], v);
    }
  }

  /** `SetAt` on a path that does not resolve changes nothing. */
  lemma {:induction false} SetAtMiss(j: Json, p: Path, v: Json)
    requires At(j, p).None?
    ensures SetAt(j, p, v) == j
  {
    if p != [] && j.JObj? && p[0] in j.fields {
      SetAtMiss(j.fields[p[0]], p[1..], v);
    }
  }

  /** Every path apart from the one that was set still yields what it yielded before. */
  lemma {:induction false} SetAtElsewhere(j: Json, p: Path, q: Path, v: Json)
    requires Apart(p, q)
    ensures At(SetAt(j, p, v), q) == At(j, q)
  {
    assert p != [] && q != [];
    if j.JObj? && p[0] in j.fields {
      if p[0] == q[0] {
        assert p == [p[0]] + p[1..] && q == [q[0]] + q[1..];
        SetAtElsewhere(j.fields[p[0]], p[1..], q[1..], v);
      }
    }
  }

  /** Along the way to the path that was set, every object keeps exactly its keys:
      the edit adds and removes no key above the place it writes. */
  lemma {:induction false} SetAtAbove(j: Json, p: Path, q: Path, v: Json)
    requires q < p
    ensures At(SetAt(j, p, v), q).Some? <==> At(j, q).Some?
    ensures At(j, q).Some? && At(j, q).value.JObj? ==>
              At(SetAt(j, p, v), q).value.JObj? &&
              At(SetAt(j, p, v), q).value.fields.Keys == At(j, q).value.fields.Keys
  {
    if q != [] && j.JObj? && p[0] in j.fields {
      assert q[0] == p[0];
      SetAtAbove(j.fields[p[0]], p[1..], q[1..], v);
    }
  }

  /** The JSON codec of the Go standard library, which the model does not define:
      `decode` stands for `json.Unmarshal` into `interface{}` and `encode` for
      `json.Marshal`; either may fail. */
  datatype Codec = Codec(decode: seq<byte> -> Option<Json>, encode: Json -> Option<seq<byte>>)

  /** Whether the value `j` survives encoding: if it encodes, its encoding decodes back to
      `j`. `json.Marshal` does not promise this for every value: it writes a string that is
      not valid UTF-8 with U+FFFD in place of the invalid bytes, so such a string decodes
      back to different bytes. */
  predicate RoundTripsOn(c: Codec, j: Json)
  {
    c.encode(j).Some? ==> c.decode(c.encode(j).value) == Some(j)
  }

  /** What `json.Marshal` promises: its output is one line (newlines inside strings are escaped). */
  ghost predicate SingleLine(c: Codec)
  {
    forall j :: c.encode(j).Some? ==> LF !in c.encode(j).value
  }
}
