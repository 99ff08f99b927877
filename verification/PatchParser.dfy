/** The patch format: a lenient line parser, a printer, and the exact set of operation
    lists that parsing can produce. */
module PatchParser {
  import opened Results
  import opened Text
  import opened PatchText

  datatype Action = AddFile | DeleteFile | UpdateFile

  datatype Kind = Context | Removed | Added

  datatype HunkLine = HunkLine(kind: Kind, text: string)

  type Hunk = seq<HunkLine>

  datatype FileOp = FileOp(action: Action, path: string, moveTo: Option<string>, content: seq<string>, hunks: seq<Hunk>)

  const BEGIN := "*** Begin Patch"
  const END := "*** End Patch"
  const ADD := "*** Add File:"
  const DELETE := "*** Delete File:"
  const UPDATE := "*** Update File:"
  const MOVE := "*** Move to:"
  const END_OF_FILE := "*** End of File"
  const SECTION := "***"

  // --- Lines ---

  datatype Line =
    | EndPatch
    | Header(action: Action, path: string)
    | MoveTo(path: string)
    | EndOfFile
    | Section
    | Content(raw: string)

  /** The text after a tag, trimmed. */
  function Argument(s: string, tag: string): string
    requires StartsWith(s, tag)
  {
    Strip(s[|tag|..])
  }

  /** What a line is, decided on its trimmed form in the order of the parser's tests. */
  function Classify(raw: string): Line {
    var s := Strip(raw);
    if StartsWith(s, END) then EndPatch
    else if StartsWith(s, ADD) then Header(AddFile, Argument(s, ADD))
    else if StartsWith(s, DELETE) then Header(DeleteFile, Argument(s, DELETE))
    else if StartsWith(s, UPDATE) then Header(UpdateFile, Argument(s, UPDATE))
    else if StartsWith(s, MOVE) then MoveTo(Argument(s, MOVE))
    else if StartsWith(s, END_OF_FILE) then EndOfFile
    else if StartsWith(s, SECTION) then Section
    else Content(raw)
  }

  /** A content line of a hunk, by its leading marker. */
  function AsHunkLine(raw: string): HunkLine {
    if StartsWith(raw, "+") then HunkLine(Added, raw[1..])
    else if StartsWith(raw, "-") then HunkLine(Removed, raw[1..])
    else if StartsWith(raw, "@@") then HunkLine(Context, LStrip(raw[2..]))
    else HunkLine(Context, raw)
  }

  function WithoutPlus(raw: string): string {
    if StartsWith(raw, "+") then raw[1..] else raw
  }

  predicate Begins(raw: string) {
    "*** Begin Patch" <= Strip(raw)
  }

  predicate Ends(raw: string) {
    "*** End Patch" <= Strip(raw)
  }

  // --- The parser ---

  /** The operations so far, whether the last one is current, and the hunk being read
      (empty when there is none). */
  datatype Parser = Parser(ops: seq<FileOp>, open: bool, hunk: Hunk) {
    predicate Valid() {
      open ==> ops != []
    }
  }

  function Last(p: Parser): FileOp
    requires p.Valid() && p.open
  {
    p.ops[|p.ops| - 1]
  }

  function Revise(p: Parser, op: FileOp): Parser
    requires p.Valid() && p.open
  {
    p.(ops := p.ops[..|p.ops| - 1] + [op])
  }

  /** Close the hunk being read and attach it to the current operation. */
  function FlushHunk(p: Parser): (q: Parser)
    requires p.Valid()
    ensures q.Valid()
  {
    if p.open && p.hunk != [] then Revise(p, Last(p).(hunks := Last(p).hunks + [p.hunk])).(hunk := [])
    else p.(hunk := [])
  }

  /** One line; the end marker is never passed on and would change nothing. */
  function Read(p: Parser, line: Line): (q: Parser)
    requires p.Valid()
    ensures q.Valid()
  {
    match line
    case EndPatch => p
    case Header(action, path) =>
      Parser(FlushHunk(p).ops + [FileOp(action, path, None, [], [])], true, [])
    case MoveTo(path) =>
      if p.open then Revise(p, Last(p).(moveTo := Some(path))) else FlushHunk(p).(open := false)
    case EndOfFile => p
    case Section => FlushHunk(p).(open := false)
    case Content(raw) =>
      if !p.open then p
      else if Last(p).action == AddFile then Revise(p, Last(p).(content := Last(p).content + [WithoutPlus(raw)]))
      else p.(hunk := p.hunk + [AsHunkLine(raw)])
  }

  function ReadBody(p: Parser, lines: seq<string>): seq<FileOp>
    requires p.Valid()
    decreases |lines|
  {
    if lines == [] || Classify(lines[0]).EndPatch? then FlushHunk(p).ops
    else ReadBody(Read(p, Classify(lines[0])), lines[1..])
  }

  function AfterBegin(lines: seq<string>): seq<string> {
    if lines == [] then []
    else if StartsWith(Strip(lines[0]), BEGIN) then lines[1..]
    else AfterBegin(lines[1..])
  }

  function Parse(lines: seq<string>): seq<FileOp> {
    ReadBody(Parser([], false, []), AfterBegin(lines))
  }

  /** Skip leading prose up to and including the first line that is a begin marker, or the
      whole text when there is none. */
  method SkipToBegin(lines: seq<string>) returns (i: nat)
    ensures i <= |lines| && lines[i..] == AfterBegin(lines)
    ensures forall k :: 0 <= k < i - 1 ==> !Begins(lines[k])
    ensures if exists k :: 0 <= k < |lines| && Begins(lines[k]) then i > 0 && Begins(lines[i - 1]) else i == |lines|
  {
    i := 0;
    while i < |lines| && !StartsWith(Strip(lines[i]), BEGIN)
      invariant i <= |lines| && AfterBegin(lines[i..]) == AfterBegin(lines)
      invariant forall k :: 0 <= k < i ==> !Begins(lines[k])
    {
      assert lines[i..][1..] == lines[i + 1..];
      i := i + 1;
    }
    if i < |lines| {
      assert lines[i..][1..] == lines[i + 1..];
      i := i + 1;
    }
  }

  lemma ReadNext(p: Parser, lines: seq<string>, i: nat)
    requires p.Valid() && i < |lines| && !Classify(lines[i]).EndPatch?
    ensures ReadBody(p, lines[i..]) == ReadBody(Read(p, Classify(lines[i])), lines[i + 1..])
  {
    assert lines[i..][1..] == lines[i + 1..];
  }

  lemma ReadEnd(p: Parser, lines: seq<string>, i: nat)
    requires p.Valid() && i <= |lines| && (i < |lines| ==> Classify(lines[i]).EndPatch?)
    ensures ReadBody(p, lines[i..]) == FlushHunk(p).ops
  {
  }

  /** Read the lines from `start` up to the end marker or the end of the text. */
  method ReadOperations(lines: seq<string>, start: nat) returns (ops: seq<FileOp>)
    requires start <= |lines|
    ensures ops == ReadBody(Parser([], false, []), lines[start..])
  {
    var i := start;
    var parser := Parser([], false, []);
    while i < |lines| && !Classify(lines[i]).EndPatch?
      invariant i <= |lines| && parser.Valid()
      invariant ReadBody(parser, lines[i..]) == ReadBody(Parser([], false, []), lines[start..])
    {
      ReadNext(parser, lines, i);
      parser := Read(parser, Classify(lines[i]));
      i := i + 1;
    }
    ReadEnd(parser, lines, i);
    ops := FlushHunk(parser).ops;
  }

  method ParsePatch(text: string) returns (ops: seq<FileOp>)
    ensures ops == Parse(SplitLines(text))
  {
    var lines := SplitLines(text);
    var i := SkipToBegin(lines);
    ops := ReadOperations(lines, i);
  }

  // --- The printer ---

  /** A context line is printed as it is unless it would then be read as something else. */
  function ContextLine(text: string): string {
    if StartsWith(text, "+") || StartsWith(text, "-") || StartsWith(text, "@@") || StartsWith(Strip(text), SECTION)
    then "@@ " + text else text
  }

  function PrintHunkLine(line: HunkLine): string {
    match line.kind
    case Added => "+" + line.text
    case Removed => "-" + line.text
    case Context => ContextLine(line.text)
  }

  function Tag(action: Action): string {
    match action
    case AddFile => ADD
    case DeleteFile => DELETE
    case UpdateFile => UPDATE
  }

  function PrintContent(content: seq<string>): seq<string> {
    seq(|content|, i requires 0 <= i < |content| => "+" + content[i])
  }

  function PrintHunk(hunk: Hunk): seq<string> {
    seq(|hunk|, i requires 0 <= i < |hunk| => PrintHunkLine(hunk[i]))
  }

  function PrintHunks(hunks: seq<Hunk>): seq<string> {
    if hunks == [] then [] else PrintHunk(hunks[0]) + PrintHunks(hunks[1..])
  }

  function PrintMove(moveTo: Option<string>): seq<string> {
    match moveTo
    case None => []
    case Some(path) => [MOVE + " " + path]
  }

  function PrintOp(op: FileOp): seq<string> {
    [Tag(op.action) + " " + op.path] + PrintMove(op.moveTo) + PrintContent(op.content) + PrintHunks(op.hunks)
  }

  function PrintOps(ops: seq<FileOp>): seq<string> {
    if ops == [] then [] else PrintOp(ops[0]) + PrintOps(ops[1..])
  }

  function Print(ops: seq<FileOp>): seq<string> {
    [BEGIN] + PrintOps(ops) + [END]
  }

  // --- What can be parsed ---

  /** A context text that some patch line stands for: it does not start with whitespace
      and at the same time look like a section header once trimmed. */
  predicate Representable(text: string) {
    !(text != "" && IsSpace(text[0]) && StartsWith(Strip(text), SECTION))
  }

  ghost predicate GoodLine(line: HunkLine) {
    OneLine(line.text) && (line.kind == Context ==> Representable(line.text))
  }

  ghost predicate GoodHunk(hunk: Hunk) {
    forall i: nat :: i < |hunk| ==> GoodLine(hunk[i])
  }

  ghost predicate GoodPath(path: string) {
    Trimmed(path) && OneLine(path)
  }

  /** The shape of a parsed operation: trimmed paths, a body of added lines and no hunks
      for an added file, and otherwise at most one hunk, which is not empty. */
  ghost predicate Parsed(op: FileOp) {
    && GoodPath(op.path)
    && (op.moveTo.Some? ==> GoodPath(op.moveTo.value))
    && AllOneLine(op.content)
    && (op.action == AddFile ==> op.hunks == [])
    && (op.action != AddFile ==> op.content == [] && |op.hunks| <= 1)
    && (forall i: nat :: i < |op.hunks| ==> op.hunks[i] != [] && GoodHunk(op.hunks[i]))
  }

  ghost predicate AllParsed(ops: seq<FileOp>) {
    forall i: nat :: i < |ops| ==> Parsed(ops[i])
  }
}
