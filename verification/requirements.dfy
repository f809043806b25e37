/** Reading requirements out of a requirements-file text: `parse_line` and
    `read_requirements` of process.py. The requirement parser of
    `pkg_resources` is not part of this model; it is a parameter. */
module Requirements {

  import opened Wrappers
  import opened Text
  import opened Streams

  /** The operators a version specifier can carry. */
  datatype Op = Compatible | Equal | NotEqual | LessEq | GreaterEq | Less | Greater | Arbitrary {

    /** How the operator is written. */
    function Symbol(): (r: string)
      ensures |r| > 0
    {
      match this
      case Compatible => "~="
      case Equal => "=="
      case NotEqual => "!="
      case LessEq => "<="
      case GreaterEq => ">="
      case Less => "<"
      case Greater => ">"
      case Arbitrary => "==="
    }
  }

  /** One `(op, version)` pair of `Requirement.specs`. */
  datatype Spec = Spec(op: Op, version: string)

  /** A parsed requirement as far as it is read here: its `key` (the
      normalised project name) and its `specs`, in the order the parser
      gives them. */
  datatype Requirement = Requirement(key: string, specs: seq<Spec>)

  /** `pkg_resources.parse_requirements`: every requirement found in a text,
      or `None` when parsing raises `ValueError`. */
  type Parser = string -> Option<seq<Requirement>>

  /** Directive lines the reader skips. */
  const UnsupportedPrefixes: seq<string> := [
    "#", "-i", "--index-url", "--extra-index-url", "-f", "--find-links",
    "--no-index", "--allow-external", "--allow-unverified", "-Z", "--always-unzip"
  ]

  /** References to other requirement files, recognised but not followed. */
  const ReferencePrefixes: seq<string> := ["-r", "--requirement"]

  predicate StartsWithAny(s: string, prefixes: seq<string>) {
    exists p :: p in prefixes && StartsWith(s, p)
  }

  /** What the reader makes of a stripped line. */
  datatype LineKind = Blank | Unsupported | Reference | Candidate

  function Classify(line: string): (k: LineKind)
    ensures k == Blank <==> line == ""
    ensures k == Unsupported <==> line != "" && StartsWithAny(line, UnsupportedPrefixes)
    ensures k == Reference <==>
      line != "" && !StartsWithAny(line, UnsupportedPrefixes) && StartsWithAny(line, ReferencePrefixes)
  {
    if line == "" then Blank
    else if StartsWithAny(line, UnsupportedPrefixes) then Unsupported
    else if StartsWithAny(line, ReferencePrefixes) then Reference
    else Candidate
  }

  /** Editable and URL requirements, whose name follows `#egg=`. */
  predicate IsEggLine(line: string) {
    StartsWith(line, "-e") || StartsWith(line, "http://") || StartsWith(line, "https://")
  }

  /** The rewrite `parse_line` applies before parsing: an editable or URL
      line that names its egg is cut down to the text after the last
      `#egg=`; any other line is left as it is. */
  function EggTrim(line: string): (r: string)
    ensures |r| <= |line| && r == line[|line| - |r|..]
    ensures !(IsEggLine(line) && Contains(line, "#egg=")) ==> r == line
    ensures IsEggLine(line) && Contains(line, "#egg=") ==>
      && !Contains(r, "#egg=")
      && |line| >= 5 + |r|
      && line == line[..|line| - 5 - |r|] + "#egg=" + r
  {
    if IsEggLine(line) && Contains(line, "#egg=") then
      var r := Last(SplitOn(line, "#egg="));
      LastPiece(line, "#egg=");
      assert line[|line| - |r|..] == r by {
        SuffixOfJoin(line[..|line| - 5 - |r|] + "#egg=", r);
      }
      r
    else line
  }

  /** The right part of a concatenation is its suffix. */
  lemma SuffixOfJoin(a: string, b: string)
    ensures (a + b)[|a + b| - |b|..] == b
  {
  }

  /** `parse_line(line)` */
  function ParseLine(line: string, parse: Parser): Option<seq<Requirement>> {
    parse(EggTrim(line))
  }

  /** `req, = ...`: the single requirement when there is exactly one; no
      requirement when there are none, several, or parsing raised. */
  function Single(parsed: Option<seq<Requirement>>): (r: Option<Requirement>)
    ensures r.Some? <==> parsed.Some? && |parsed.value| == 1
    ensures r.Some? ==> parsed.value == [r.value]
  {
    if parsed.Some? && |parsed.value| == 1 then Some(parsed.value[0]) else None
  }

  /** The continuation loop: each following line is appended stripped and
      without backslashes, and the loop goes on only past a line that holds
      a backslash. */
  function Continue(acc: string, next: seq<string>): string
    decreases |next|
  {
    if |next| == 0 then acc
    else
      var acc' := acc + RemoveAll(Strip(next[0]), '\\');
      if '\\' in next[0] then Continue(acc', next[1..]) else acc'
  }

  /** The loop body of `read_requirements` for line number `num`, given the
      handle as it stands: what the line yields and the handle afterwards. */
  function ReadLine(raw: string, num: nat, fh: Stream, parse: Parser): (Option<Requirement>, Stream) {
    var line := Strip(raw);
    if Classify(line) != Candidate then (None, fh)
    else if '\\' in line then
      var (next, fh') := IterLines(fh, num + 1);
      (Single(ParseLine(Continue(RemoveAll(line, '\\'), next), parse)), fh')
    else (Single(ParseLine(line, parse)), fh)
  }

  /** The outer loop of `read_requirements` from line number `num` on. */
  function ReadFrom(lines: seq<string>, num: nat, fh: Stream, parse: Parser): seq<Requirement>
    requires num <= |lines|
    decreases |lines| - num
  {
    if num == |lines| then []
    else
      var (yielded, fh') := ReadLine(lines[num], num, fh, parse);
      (if yielded.Some? then [yielded.value] else []) + ReadFrom(lines, num + 1, fh', parse)
  }

  /** `read_requirements(fh)`: everything the generator yields. */
  function ReadRequirements(fh: Stream, parse: Parser): seq<Requirement> {
    var (lines, fh') := IterLines(fh, 0);
    ReadFrom(lines, 0, fh', parse)
  }

  /** The text a line hands to the requirement parser, once stripped, with
      backslashes removed and `#egg=` trimmed. No backslash reaches the
      parser; a line that is no egg line reaches it otherwise unchanged. */
  function ParserInput(raw: string): (r: string)
    ensures '\\' !in r
    ensures !IsEggLine(RemoveAll(Strip(raw), '\\')) ==> r == RemoveAll(Strip(raw), '\\')
  {
    var r := EggTrim(RemoveAll(Strip(raw), '\\'));
    assert forall i :: 0 <= i < |r| ==> r[i] in RemoveAll(Strip(raw), '\\');
    r
  }

  /** What one line yields when read on its own: nothing for blank,
      directive and reference lines, otherwise the single requirement the
      parser finds in it, if it finds exactly one. */
  function LineYield(raw: string, parse: Parser): Option<Requirement> {
    if Classify(Strip(raw)) == Candidate then Single(parse(ParserInput(raw))) else None
  }

  /** Everything a sequence of lines yields, line by line. */
  function Yields(lines: seq<string>, parse: Parser): seq<Requirement> {
    if |lines| == 0 then []
    else
      var y := LineYield(lines[0], parse);
      (if y.Some? then [y.value] else []) + Yields(lines[1..], parse)
  }

  /** The continuation loop only ever sees the lines of a second
      `readlines()`, and by then the outer loop's `readlines()` has read the
      handle to its end: whatever line number it starts from, it gets none. */
  lemma ContinuationSeesNoLines(fh: Stream, lineno: nat)
    ensures var fh' := ReadLines(fh).1;
      IterLines(fh', lineno) == ([], fh')
  {
    ReadLinesExhausts(fh);
  }

  /** On a handle read to its end, the loop body yields exactly what the
      line yields on its own, and leaves the handle as it is. */
  lemma ReadLineOnExhausted(raw: string, num: nat, fh: Stream, parse: Parser)
    requires Remaining(fh) == ""
    ensures ReadLine(raw, num, fh, parse) == (LineYield(raw, parse), fh)
  {
    var line := Strip(raw);
    if Classify(line) == Candidate && '\\' in line {
      assert fh.pos >= |fh.text|;
      assert SplitLines(Remaining(fh)) == [];
      assert IterLines(fh, num + 1) == ([], fh);
    }
  }

  /** The outer loop over a handle read to its end yields, line by line,
      what each line yields on its own. */
  lemma {:induction false} ReadFromOnExhausted(lines: seq<string>, num: nat, fh: Stream, parse: Parser)
    requires num <= |lines|
    requires Remaining(fh) == ""
    ensures ReadFrom(lines, num, fh, parse) == Yields(lines[num..], parse)
    decreases |lines| - num
  {
    if num < |lines| {
      ReadLineOnExhausted(lines[num], num, fh, parse);
      ReadFromOnExhausted(lines, num + 1, fh, parse);
      assert lines[num..][1..] == lines[num + 1..];
    }
  }

  /** `read_requirements` treats every line on its own: it yields, in order,
      what each line of the remaining text yields, and a line never borrows
      from the lines after it. */
  lemma ReadRequirementsPerLine(fh: Stream, parse: Parser)
    ensures ReadRequirements(fh, parse) == Yields(SplitLines(Remaining(fh)), parse)
  {
    var (lines, fh') := IterLines(fh, 0);
    ReadLinesExhausts(fh);
    ReadFromOnExhausted(lines, 0, fh', parse);
    assert lines[0..] == lines;
  }

  /** Each of the eleven directive prefixes is one the reader skips. */
  lemma DirectivePrefixes(line: string)
    requires
      || StartsWith(line, "#")
      || StartsWith(line, "-i")
      || StartsWith(line, "--index-url")
      || StartsWith(line, "--extra-index-url")
      || StartsWith(line, "-f")
      || StartsWith(line, "--find-links")
      || StartsWith(line, "--no-index")
      || StartsWith(line, "--allow-external")
      || StartsWith(line, "--allow-unverified")
      || StartsWith(line, "-Z")
      || StartsWith(line, "--always-unzip")
    ensures StartsWithAny(line, UnsupportedPrefixes)
  {
    if StartsWith(line, "#") {
      assert UnsupportedPrefixes[0] == "#";
    } else if StartsWith(line, "-i") {
      assert UnsupportedPrefixes[1] == "-i";
    } else if StartsWith(line, "--index-url") {
      assert UnsupportedPrefixes[2] == "--index-url";
    } else if StartsWith(line, "--extra-index-url") {
      assert UnsupportedPrefixes[3] == "--extra-index-url";
    } else if StartsWith(line, "-f") {
      assert UnsupportedPrefixes[4] == "-f";
    } else if StartsWith(line, "--find-links") {
      assert UnsupportedPrefixes[5] == "--find-links";
    } else if StartsWith(line, "--no-index") {
      assert UnsupportedPrefixes[6] == "--no-index";
    } else if StartsWith(line, "--allow-external") {
      assert UnsupportedPrefixes[7] == "--allow-external";
    } else if StartsWith(line, "--allow-unverified") {
      assert UnsupportedPrefixes[8] == "--allow-unverified";
    } else if StartsWith(line, "-Z") {
      assert UnsupportedPrefixes[9] == "-Z";
    } else {
      assert UnsupportedPrefixes[10] == "--always-unzip";
    }
  }

  /** Blank lines, the directive lines and references to other requirement
      files yield no requirement, whatever the parser would say. */
  lemma SkippedLinesYieldNothing(raw: string, parse: Parser)
    requires var line := Strip(raw);
      || line == ""
      || StartsWith(line, "#")
      || StartsWith(line, "-i")
      || StartsWith(line, "--index-url")
      || StartsWith(line, "--extra-index-url")
      || StartsWith(line, "-f")
      || StartsWith(line, "--find-links")
      || StartsWith(line, "--no-index")
      || StartsWith(line, "--allow-external")
      || StartsWith(line, "--allow-unverified")
      || StartsWith(line, "-Z")
      || StartsWith(line, "--always-unzip")
      || StartsWith(line, "-r")
      || StartsWith(line, "--requirement")
    ensures LineYield(raw, parse) == None
  {
    var line := Strip(raw);
    if line != "" {
      if StartsWith(line, "-r") {
        assert StartsWithAny(line, ReferencePrefixes) by { assert ReferencePrefixes[0] == "-r"; }
      } else if StartsWith(line, "--requirement") {
        assert StartsWithAny(line, ReferencePrefixes) by { assert ReferencePrefixes[1] == "--requirement"; }
      } else {
        DirectivePrefixes(line);
      }
    }
  }

  /** Any other line yields a requirement exactly when the parser, given the
      line stripped, without backslashes and trimmed to its egg, finds
      exactly one; it then yields that one. */
  lemma OtherLinesYieldTheSingleParse(raw: string, parse: Parser, req: Requirement)
    requires Classify(Strip(raw)) == Candidate
    ensures LineYield(raw, parse) == Some(req) <==> parse(ParserInput(raw)) == Some([req])
  {
  }
}
