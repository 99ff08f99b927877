/** Lines of a patch text: splitting at line boundaries, joining, and trimming. */
module PatchText {
  import opened Text

  /** The boundaries of Python's `str.splitlines`. */
  predicate IsLineBreak(c: char) {
    var n := c as int;
    0x0A <= n <= 0x0D || 0x1C <= n <= 0x1E || n == 0x85 || n == 0x2028 || n == 0x2029
  }

  ghost predicate OneLine(s: string) {
    forall i :: 0 <= i < |s| ==> !IsLineBreak(s[i])
  }

  ghost predicate AllOneLine(lines: seq<string>) {
    forall i :: 0 <= i < |lines| ==> OneLine(lines[i])
  }

  /** The characters before the first boundary. */
  function FirstLine(text: string): (line: string)
    ensures |line| <= |text| && line == text[..|line|]
    ensures |line| < |text| ==> IsLineBreak(text[|line|])
    ensures OneLine(line)
  {
    if text == "" || IsLineBreak(text[0]) then "" else [text[0]] + FirstLine(text[1..])
  }

  /** What follows the first boundary; a carriage return and line feed are one boundary. */
  function AfterFirstLine(text: string): (rest: string)
    ensures text != "" ==> |rest| < |text|
  {
    var n := |FirstLine(text)|;
    if n == |text| then ""
    else if text[n] == '\r' && n + 1 < |text| && text[n + 1] == '\n' then text[n + 2..]
    else text[n + 1..]
  }

  function SplitLines(text: string): seq<string>
    decreases |text|
  {
    if text == "" then [] else [FirstLine(text)] + SplitLines(AfterFirstLine(text))
  }

  function JoinLines(lines: seq<string>): string {
    if lines == [] then "" else lines[0] + "\n" + JoinLines(lines[1..])
  }

  lemma {:induction false} SplitGivesLines(text: string)
    ensures AllOneLine(SplitLines(text))
    decreases |text|
  {
    if text != "" {
      SplitGivesLines(AfterFirstLine(text));
    }
  }

  lemma {:induction false} FirstLineOf(line: string, rest: string)
    requires OneLine(line)
    ensures FirstLine(line + "\n" + rest) == line
  {
    var text := line + "\n" + rest;
    if line == "" {
      assert text[0] == '\n';
    } else {
      FirstLineOf(line[1..], rest);
      assert text[1..] == line[1..] + "\n" + rest;
    }
  }

  lemma {:induction false} SplitUndoesJoin(lines: seq<string>)
    requires AllOneLine(lines)
    ensures SplitLines(JoinLines(lines)) == lines
  {
    if lines != [] {
      var rest := JoinLines(lines[1..]);
      FirstLineOf(lines[0], rest);
      assert AfterFirstLine(lines[0] + "\n" + rest) == rest;
      SplitUndoesJoin(lines[1..]);
    }
  }

  /** Lines and what ended each of them, put together. */
  function Interleave(lines: seq<string>, ends: seq<string>): string
    requires |lines| == |ends|
  {
    if lines == [] then "" else lines[0] + ends[0] + Interleave(lines[1..], ends[1..])
  }

  /** A line ends in one boundary character, or in a carriage return and line feed together,
      or at the end of the text. */
  ghost predicate IsLineEnd(end: string, rest: string) {
    || end == "\r\n"
    || (|end| == 1 && IsLineBreak(end[0]) && !(end == "\r" && "\n" <= rest))
    || (end == "" && rest == "")
  }

  lemma FirstLineEnd(text: string) returns (end: string)
    requires text != ""
    ensures text == FirstLine(text) + end + AfterFirstLine(text) && IsLineEnd(end, AfterFirstLine(text))
    ensures FirstLine(text) + end != ""
  {
    var n := |FirstLine(text)|;
    if n == |text| {
      end := "";
    } else if text[n] == '\r' && n + 1 < |text| && text[n + 1] == '\n' {
      end := "\r\n";
      assert text == text[..n] + text[n..n + 2] + text[n + 2..];
      assert text[n..n + 2] == end;
    } else {
      end := [text[n]];
      assert text == text[..n] + [text[n]] + text[n + 1..];
    }
  }

  /** Splitting loses nothing but the line ends: the lines contain no boundary, and together
      with their ends they are the text. */
  lemma {:induction false} LinesAreTheText(text: string) returns (ends: seq<string>)
    ensures |ends| == |SplitLines(text)| && text == Interleave(SplitLines(text), ends)
    ensures AllOneLine(SplitLines(text))
    ensures forall i: nat :: i < |ends| ==>
              && IsLineEnd(ends[i], Interleave(SplitLines(text)[i + 1..], ends[i + 1..]))
              && SplitLines(text)[i] + ends[i] != ""
    decreases |text|
  {
    if text == "" {
      ends := [];
    } else {
      var rest := AfterFirstLine(text);
      var end := FirstLineEnd(text);
      var later := LinesAreTheText(rest);
      ends := [end] + later;
      var lines := SplitLines(text);
      assert lines[1..] == SplitLines(rest) && ends[1..] == later;
      forall i: nat | i < |ends|
        ensures IsLineEnd(ends[i], Interleave(lines[i + 1..], ends[i + 1..])) && lines[i] + ends[i] != ""
      {
        if i > 0 {
          assert lines[i + 1..] == SplitLines(rest)[i..] && ends[i + 1..] == later[i..];
        }
      }
    }
  }

  // --- Trimming ---

  lemma StripIsTrimmed(s: string)
    ensures Trimmed(Strip(s))
    ensures OneLine(s) ==> OneLine(Strip(s))
  {
    LStripFacts(s);
    RStripFacts(LStrip(s));
  }

  lemma StripOfTrimmed(s: string)
    requires Trimmed(s)
    ensures Strip(s) == s
  {
  }

  /** Trimming keeps a first character that is not whitespace. */
  lemma StripKeepsFirst(s: string)
    requires s != "" && !IsSpace(s[0])
    ensures Strip(s) != "" && Strip(s)[0] == s[0]
  {
    RStripFacts(s);
  }

  lemma StripDropsOneSpace(s: string)
    requires Trimmed(s)
    ensures Strip(" " + s) == s
  {
    assert (" " + s)[1..] == s;
    assert LStrip(" " + s) == LStrip(s) == s;
    assert RStrip(s) == s;
  }

  lemma RStripDropsOneSpace(s: string)
    requires Trimmed(s)
    ensures RStrip(s + " ") == s
  {
  }
}
