/** `io.StringIO` as far as the requirements reader uses it: a text and a
    read position. `readlines()` returns the lines from the position on and
    leaves the position at the end, so a second `readlines()` on the same
    handle returns nothing. */
module Streams {

  import opened Wrappers
  import opened Text

  datatype Stream = Stream(text: string, pos: nat)

  /** `StringIO(text)`: a handle positioned at the start of `text`. */
  function Open(text: string): Stream {
    Stream(text, 0)
  }

  /** The text not yet read; nothing once the position is at or past the end. */
  function Remaining(fh: Stream): string {
    if fh.pos <= |fh.text| then fh.text[fh.pos..] else ""
  }

  /** `s.splitlines(keepends=True)` for '\n' line ends, which is how
      `readlines()` cuts a `StringIO` created with the default `newline`:
      each line up to and including its '\n', the last one without a '\n'
      when the text does not end with one. */
  function SplitLines(s: string): (lines: seq<string>)
    ensures s == "" <==> lines == []
    decreases |s|
  {
    if s == "" then []
    else
      match FirstOccurrence(s, "\n")
      case None => [s]
      case Some(i) => [s[..i + 1]] + SplitLines(s[i + 1..])
  }

  /** `"".join(lines)` */
  function Concat(lines: seq<string>): string {
    if |lines| == 0 then "" else lines[0] + Concat(lines[1..])
  }

  /** A line as `readlines()` returns it: not empty, a '\n' at most at its
      end, and one there unless it is the last line. */
  predicate IsLine(line: string, last: bool) {
    && |line| > 0
    && (forall j :: 0 <= j < |line| - 1 ==> line[j] != '\n')
    && (!last ==> line[|line| - 1] == '\n')
  }

  /** Cutting after the first '\n': that line, then the lines of the rest. */
  lemma SplitLinesCons(s: string, i: nat)
    requires s != "" && FirstOccurrence(s, "\n") == Some(i)
    ensures SplitLines(s) == [s[..i + 1]] + SplitLines(s[i + 1..])
  {
  }

  /** Cutting into lines loses and adds nothing. */
  lemma {:induction false} SplitLinesConcat(s: string)
    ensures Concat(SplitLines(s)) == s
    decreases |s|
  {
    if s != "" {
      match FirstOccurrence(s, "\n")
      case None =>
      case Some(i) =>
        var rest := s[i + 1..];
        SplitLinesCons(s, i);
        SplitLinesConcat(rest);
        ConcatCons(s[..i + 1], SplitLines(rest));
        assert s == s[..i + 1] + rest;
    }
  }

  lemma ConcatCons(line: string, lines: seq<string>)
    ensures Concat([line] + lines) == line + Concat(lines)
  {
    assert ([line] + lines)[1..] == lines;
  }

  /** The first line runs up to and including the first '\n', or is the
      whole text when it has none. */
  lemma FirstLine(s: string)
    requires s != ""
    ensures IsLine(SplitLines(s)[0], |SplitLines(s)| == 1)
  {
    match FirstOccurrence(s, "\n")
    case None =>
      assert SplitLines(s) == [s];
      forall j | 0 <= j < |s|
        ensures s[j] != '\n'
      {
        assert !OccursAt(s, "\n", j);
        assert s[j..j + 1] == [s[j]];
      }
    case Some(i) =>
      SplitLinesCons(s, i);
      var line := s[..i + 1];
      assert line[i] == '\n' by { assert s[i..i + 1] == "\n"; }
      forall j | 0 <= j < i
        ensures line[j] != '\n'
      {
        NoEarlierOccurrence(s, "\n", j);
        assert s[j..j + 1] == [s[j]];
      }
  }

  /** Every line is a line as `readlines()` returns it. */
  lemma {:induction false} SplitLinesShape(s: string, k: nat)
    requires k < |SplitLines(s)|
    ensures IsLine(SplitLines(s)[k], k == |SplitLines(s)| - 1)
    decreases |s|
  {
    match FirstOccurrence(s, "\n")
    case None =>
      FirstLine(s);
    case Some(i) =>
      var rest := s[i + 1..];
      SplitLinesCons(s, i);
      if k == 0 {
        FirstLine(s);
      } else {
        SplitLinesShape(rest, k - 1);
      }
  }

  /** Cutting into lines loses and adds nothing, and cuts exactly after each
      '\n'. */
  lemma SplitLinesMeaning(s: string)
    ensures var lines := SplitLines(s);
      && Concat(lines) == s
      && forall k :: 0 <= k < |lines| ==> IsLine(lines[k], k == |lines| - 1)
  {
    SplitLinesConcat(s);
    forall k | 0 <= k < |SplitLines(s)|
      ensures IsLine(SplitLines(s)[k], k == |SplitLines(s)| - 1)
    {
      SplitLinesShape(s, k);
    }
  }

  /** `fh.readlines()`: the remaining lines, and the handle moved to the end. */
  function ReadLines(fh: Stream): (seq<string>, Stream) {
    (SplitLines(Remaining(fh)), if fh.pos <= |fh.text| then fh.(pos := |fh.text|) else fh)
  }

  /** After `readlines()` nothing remains, so a further `readlines()` gives no
      line and leaves the handle as it is. */
  lemma ReadLinesExhausts(fh: Stream)
    ensures var fh' := ReadLines(fh).1;
      && fh'.text == fh.text
      && Remaining(fh') == ""
      && ReadLines(fh') == ([], fh')
  {
  }

  /** `iter_lines(fh, lineno)`: the lines `fh.readlines()` returns, from
      index `lineno` on (a slice past the end is empty), with the handle
      after the read. */
  function IterLines(fh: Stream, lineno: nat): (seq<string>, Stream) {
    var (lines, fh') := ReadLines(fh);
    (if lineno <= |lines| then lines[lineno..] else [], fh')
  }
}
