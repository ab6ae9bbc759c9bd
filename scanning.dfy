/** The line splitting that `bufio.Scanner` with its default `ScanLines` split function
    performs on the trace-event log, and the inverse writing of lines. */
module Scanning {
  import opened Base

  /** The scanner's maximum token size as the source configures it (1 GiB): a line that
      does not fit in a buffer of this size stops the scan with an error. */
  const MaxScanTokenSize: nat := 0x4000_0000

  /** The lines scanned, and whether the scan stopped on an error after them. */
  datatype Scan = Scan(lines: seq<seq<byte>>, failed: bool)

  /** Position of the first line separator, or the length when there is none. */
  function IndexOfLF(data: seq<byte>): (i: nat)
    ensures i <= |data|
    ensures LF !in data[..i]
    ensures i < |data| ==> data[i] == LF
  {
    if data == [] || data[0] == LF then 0 else 1 + IndexOfLF(data[1..])
  }

  /** A line without its single trailing carriage return, if it has one. */
  function DropCR(line: seq<byte>): (r: seq<byte>)
    ensures r <= line && |line| - 1 <= |r|
    ensures r == line <==> |line| == 0 || line[|line| - 1] != CR
  {
    if |line| > 0 && line[|line| - 1] == CR then line[..|line| - 1] else line
  }

  /** The lines of `data`: cut at every LF, one trailing CR dropped from each, no empty
      line after a final LF; a line of `MaxScanTokenSize` bytes or more ends the scan
      with an error, after the lines before it. */
  function ScanLines(data: seq<byte>): (r: Scan)
    ensures forall i :: 0 <= i < |r.lines| ==> LF !in r.lines[i]
    ensures forall i :: 0 <= i < |r.lines| ==> |r.lines[i]| < MaxScanTokenSize
    ensures !r.failed && (data == [] || data[|data| - 1] == LF) ==> |r.lines| == CountLF(data)
    decreases |data|
  {
    if data == [] then Scan([], false)
    else
      var i := IndexOfLF(data);
      if i >= MaxScanTokenSize then Scan([], true)
      else
        var rest := if i < |data| then data[i + 1..] else [];
        var tail := ScanLines(rest);
        var line := DropCR(data[..i]);
        CountRest(data, i);
        assert LF !in line && |line| < MaxScanTokenSize;
        Scan([line] + tail.lines, tail.failed)
  }

  lemma CountRest(data: seq<byte>, i: nat)
    requires i == IndexOfLF(data) && data != []
    ensures i < |data| ==> CountLF(data) == 1 + CountLF(data[i + 1..])
    ensures i == |data| ==> data[|data| - 1] != LF
  {
    var head := data[..i];
    assert LF !in head;
    if i < |data| {
      var tail := data[i..];
      assert data == head + tail;
      CountLFAppend(head, tail);
      CountLFNone(head);
      assert tail[0] == LF && tail[1..] == data[i + 1..];
    } else {
      assert head == data;
      assert data[|data| - 1] in head;
    }
  }

  /** The bytes written for `lines`: each line followed by one LF. */
  function Join(lines: seq<seq<byte>>): seq<byte>
  {
    if lines == [] then [] else lines[0] + [LF] + Join(lines[1..])
  }

  lemma {:induction false} JoinSnoc(lines: seq<seq<byte>>, line: seq<byte>)
    ensures Join(lines + [line]) == Join(lines) + line + [LF]
  {
    if lines == [] {
      assert lines + [line] == [line];
      assert [line][1..] == [];
    } else {
      assert (lines + [line])[0] == lines[0];
      assert (lines + [line])[1..] == lines[1..] + [line];
      JoinSnoc(lines[1..], line);
    }
  }

  /** Line-count preservation: writing lines that hold no LF puts exactly one LF per line. */
  lemma {:induction false} JoinCount(lines: seq<seq<byte>>)
    requires forall i :: 0 <= i < |lines| ==> LF !in lines[i]
    ensures CountLF(Join(lines)) == |lines|
  {
    if lines != [] {
      CountLFAppend(lines[0] + [LF], Join(lines[1..]));
      CountLFAppend(lines[0], [LF]);
      CountLFNone(lines[0]);
      assert CountLF([LF]) == 1;
      JoinCount(lines[1..]);
    }
  }

  /** Scanning undoes writing: lines without LF, without a trailing CR and shorter than
      the scanner's limit come back exactly, and the scan does not fail. */
  lemma {:induction false} ScanJoin(lines: seq<seq<byte>>)
    requires forall i :: 0 <= i < |lines| ==> LF !in lines[i]
    requires forall i :: 0 <= i < |lines| ==> DropCR(lines[i]) == lines[i]
    requires forall i :: 0 <= i < |lines| ==> |lines[i]| < MaxScanTokenSize
    ensures ScanLines(Join(lines)) == Scan(lines, false)
  {
    if lines != [] {
      var data := Join(lines);
      var first := lines[0];
      assert data == first + ([LF] + Join(lines[1..]));
      FirstLF(first, Join(lines[1..]));
      assert data[..|first|] == first;
      assert data[|first| + 1..] == Join(lines[1..]);
      ScanJoin(lines[1..]);
      assert lines == [first] + lines[1..];
    }
  }

  lemma {:induction false} FirstLF(a: seq<byte>, b: seq<byte>)
    requires LF !in a
    ensures IndexOfLF(a + ([LF] + b)) == |a|
  {
    if a != [] {
      assert (a + ([LF] + b))[1..] == a[1..] + ([LF] + b);
      FirstLF(a[1..], b);
    }
  }
}
