/** Values shared by every part of the model: bytes, optional values and the two
    size thresholds that the command line configures. */
module Base {

  /** One byte of an archive entry or of a trace line. */
  newtype byte = x: int | 0 <= x < 256

  /** The line separator of the trace-event log. */
  const LF: byte := 10

  /** The carriage return that the line scanner strips from the end of a line. */
  const CR: byte := 13

  datatype Option<+T> = None | Some(value: T)

  /** The two thresholds, passed explicitly instead of read from process-wide flags.
      Both are signed in the source (an int64 and an int), so no lower bound is imposed. */
  datatype Config = Config(maxResourceFileSize: int, maxTraceLineLength: int)

  /** The defaults of the `-maxresource` and `-maxline` flags: one million bytes each. */
  const DefaultConfig: Config := Config(1000000, 1000000)

  /** Number of line separators in `s`. */
  function CountLF(s: seq<byte>): nat
  {
    if s == [] then 0 else (if s[0] == LF then 1 else 0) + CountLF(s[1..])
  }

  lemma {:induction false} CountLFAppend(a: seq<byte>, b: seq<byte>)
    ensures CountLF(a + b) == CountLF(a) + CountLF(b)
  {
    if a == [] {
      assert a + b == b;
    } else {
      assert (a + b)[1..] == a[1..] + b;
      CountLFAppend(a[1..], b);
    }
  }

  lemma {:induction false} CountLFNone(s: seq<byte>)
    requires LF !in s
    ensures CountLF(s) == 0
  {
    if s != [] {
      assert LF !in s[1..];
      CountLFNone(s[1..]);
    }
  }
}
