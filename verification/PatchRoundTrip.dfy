/** Parsing undoes printing on exactly the operation lists that parsing can produce. */
module PatchRoundTrip {
  import opened Results
  import opened Text
  import opened PatchText
  import opened PatchParser

  // --- How single lines are classified ---

  lemma SectionIsSharedPrefix(s: string)
    requires !StartsWith(s, SECTION)
    ensures !StartsWith(s, END) && !StartsWith(s, ADD) && !StartsWith(s, DELETE) && !StartsWith(s, UPDATE)
    ensures !StartsWith(s, MOVE) && !StartsWith(s, END_OF_FILE)
  {
  }

  lemma ContentLine(raw: string)
    requires !StartsWith(Strip(raw), SECTION)
    ensures Classify(raw) == Content(raw)
  {
    SectionIsSharedPrefix(Strip(raw));
  }

  /** A line whose first character is neither whitespace nor a star is content. */
  lemma MarkedLine(raw: string)
    requires raw != "" && !IsSpace(raw[0]) && raw[0] != '*'
    ensures Classify(raw) == Content(raw)
  {
    StripKeepsFirst(raw);
    ContentLine(raw);
  }

  /** Trimming a tag followed by a trimmed argument keeps both. */
  lemma TaggedLine(tag: string, argument: string)
    requires tag != "" && Trimmed(tag) && Trimmed(argument)
    ensures StartsWith(Strip(tag + " " + argument), tag)
    ensures Argument(Strip(tag + " " + argument), tag) == argument
  {
    var raw := tag + " " + argument;
    assert LStrip(raw) == raw;
    if argument == "" {
      assert raw == tag + " ";
      RStripDropsOneSpace(tag);
      assert tag[|tag|..] == "";
    } else {
      assert RStrip(raw) == raw;
      assert raw[|tag|..] == " " + argument;
      StripDropsOneSpace(argument);
    }
  }

  /** Two tags that differ at some character never start the same line. */
  lemma TagsDiffer(s: string, tag: string, other: string, k: nat)
    requires k < |tag| && k < |other| && tag[k] != other[k]
    ensures !(StartsWith(s, tag) && StartsWith(s, other))
  {
  }

  lemma HeaderLine(action: Action, path: string)
    requires Trimmed(path)
    ensures Classify(Tag(action) + " " + path) == Header(action, path)
  {
    var tag := Tag(action);
    TaggedLine(tag, path);
    var s := Strip(tag + " " + path);
    TagsDiffer(s, tag, END, 4);
    if action != AddFile {
      TagsDiffer(s, tag, ADD, 4);
    }
    if action == UpdateFile {
      TagsDiffer(s, tag, DELETE, 4);
    }
  }

  lemma MoveLine(path: string)
    requires Trimmed(path)
    ensures Classify(MOVE + " " + path) == MoveTo(path)
  {
    TaggedLine(MOVE, path);
    var s := Strip(MOVE + " " + path);
    TagsDiffer(s, MOVE, END, 4);
    TagsDiffer(s, MOVE, ADD, 4);
    TagsDiffer(s, MOVE, DELETE, 4);
    TagsDiffer(s, MOVE, UPDATE, 4);
  }

  /** A line that starts with the anchor is context, without leading whitespace. */
  lemma AnchorLine(text: string)
    ensures AsHunkLine("@@ " + text) == HunkLine(Context, LStrip(text))
  {
    var raw := "@@ " + text;
    assert raw[0] == '@' && raw[..2] == "@@" && raw[2..] == " " + text;
    assert (" " + text)[1..] == text;
    assert LStrip(" " + text) == LStrip(text);
  }

  /** A representable text that is not printed as it is does not start with whitespace. */
  lemma FirstIsNoSpace(text: string)
    requires Representable(text) && ContextLine(text) != text
    ensures LStrip(text) == text
  {
  }

  lemma ContextLineReads(text: string)
    requires Representable(text)
    ensures Classify(ContextLine(text)) == Content(ContextLine(text))
    ensures AsHunkLine(ContextLine(text)) == HunkLine(Context, text)
  {
    if ContextLine(text) == text {
      ContentLine(text);
    } else {
      MarkedLine("@@ " + text);
      AnchorLine(text);
      FirstIsNoSpace(text);
    }
  }

  lemma HunkLineReads(line: HunkLine)
    requires GoodLine(line)
    ensures Classify(PrintHunkLine(line)) == Content(PrintHunkLine(line))
    ensures AsHunkLine(PrintHunkLine(line)) == line
  {
    match line.kind
    case Added =>
      MarkedLine("+" + line.text);
      assert ("+" + line.text)[1..] == line.text;
    case Removed =>
      MarkedLine("-" + line.text);
      assert ("-" + line.text)[1..] == line.text;
    case Context =>
      ContextLineReads(line.text);
  }

  lemma PlusLineReads(text: string)
    ensures Classify("+" + text) == Content("+" + text) && WithoutPlus("+" + text) == text
  {
    MarkedLine("+" + text);
    assert ("+" + text)[1..] == text;
  }

  /** Some patch line is read as this context text exactly if it is representable. */
  lemma RepresentableIff(text: string)
    ensures Representable(text)
            <==> exists raw: string :: Classify(raw) == Content(raw) && AsHunkLine(raw) == HunkLine(Context, text)
  {
    if Representable(text) {
      ContextLineReads(text);
    }
    forall raw: string | Classify(raw) == Content(raw) && AsHunkLine(raw) == HunkLine(Context, text)
      ensures Representable(text)
    {
      ContentIsRepresentable(raw);
    }
  }

  lemma ContentIsRepresentable(raw: string)
    requires Classify(raw) == Content(raw) && AsHunkLine(raw).kind == Context
    ensures Representable(AsHunkLine(raw).text)
  {
    if StartsWith(raw, "@@") {
      LStripFacts(raw[2..]);
    } else {
      assert !StartsWith(Strip(raw), SECTION) by {
        assert Classify(raw).Content?;
      }
    }
  }

  // --- Everything parsed is of the parsed shape ---

  ghost predicate Good(p: Parser) {
    && p.Valid() && AllParsed(p.ops) && GoodHunk(p.hunk)
    && (p.open ==> Last(p).hunks == [])
    && (p.hunk != [] ==> p.open && Last(p).action != AddFile)
  }

  lemma ClassifiedPaths(raw: string)
    requires OneLine(raw)
    ensures Classify(raw).Header? || Classify(raw).MoveTo? ==> GoodPath(Classify(raw).path)
  {
    var s := Strip(raw);
    StripIsTrimmed(raw);
    if Classify(raw).Header? || Classify(raw).MoveTo? {
      var tag := if Classify(raw).MoveTo? then MOVE else Tag(Classify(raw).action);
      StripIsTrimmed(s[|tag|..]);
    }
  }

  lemma HunkLineIsGood(raw: string)
    requires OneLine(raw) && Classify(raw) == Content(raw)
    ensures GoodLine(AsHunkLine(raw))
  {
    if AsHunkLine(raw).kind == Context {
      ContentIsRepresentable(raw);
    }
    if |raw| >= 2 {
      LStripFacts(raw[2..]);
    }
  }

  lemma FlushKeepsGood(p: Parser)
    requires Good(p)
    ensures AllParsed(FlushHunk(p).ops) && FlushHunk(p).hunk == []
  {
    if p.open && p.hunk != [] {
      var op := Last(p).(hunks := Last(p).hunks + [p.hunk]);
      assert op.hunks == [p.hunk];
      assert Parsed(Last(p));
      assert Parsed(op);
    }
  }

  lemma ReviseKeepsGood(p: Parser, op: FileOp)
    requires Good(p) && p.open && Parsed(op) && op.hunks == [] && op.action == Last(p).action
    ensures Good(Revise(p, op))
  {
  }

  lemma ContentKeepsGood(p: Parser, raw: string)
    requires Good(p) && OneLine(raw) && Classify(raw) == Content(raw)
    ensures Good(Read(p, Content(raw)))
  {
    if p.open {
      assert Parsed(Last(p));
      if Last(p).action == AddFile {
        ReviseKeepsGood(p, Last(p).(content := Last(p).content + [WithoutPlus(raw)]));
      } else {
        HunkLineIsGood(raw);
      }
    }
  }

  lemma MoveKeepsGood(p: Parser, path: string)
    requires Good(p) && GoodPath(path)
    ensures Good(Read(p, MoveTo(path)))
  {
    FlushKeepsGood(p);
    if p.open {
      assert Parsed(Last(p));
      ReviseKeepsGood(p, Last(p).(moveTo := Some(path)));
    }
  }

  lemma HeaderKeepsGood(p: Parser, action: Action, path: string)
    requires Good(p) && GoodPath(path)
    ensures Good(Read(p, Header(action, path)))
  {
    FlushKeepsGood(p);
  }

  lemma ContentIsRaw(raw: string)
    ensures Classify(raw).Content? ==> Classify(raw) == Content(raw)
  {
  }

  lemma ReadKeepsGood(p: Parser, raw: string)
    requires Good(p) && OneLine(raw)
    ensures Good(Read(p, Classify(raw)))
  {
    ClassifiedPaths(raw);
    ContentIsRaw(raw);
    match Classify(raw)
    case Header(action, path) => HeaderKeepsGood(p, action, path);
    case MoveTo(path) => MoveKeepsGood(p, path);
    case Content(_) => ContentKeepsGood(p, raw);
    case _ => FlushKeepsGood(p);
  }

  lemma {:induction false} BodyIsParsed(p: Parser, lines: seq<string>)
    requires Good(p) && AllOneLine(lines)
    ensures AllParsed(ReadBody(p, lines))
    decreases |lines|
  {
    if lines == [] || Classify(lines[0]).EndPatch? {
      FlushKeepsGood(p);
    } else {
      ReadKeepsGood(p, lines[0]);
      BodyIsParsed(Read(p, Classify(lines[0])), lines[1..]);
    }
  }

  lemma {:induction false} AfterBeginIsOneLine(lines: seq<string>)
    requires AllOneLine(lines)
    ensures AllOneLine(AfterBegin(lines))
  {
    if lines != [] {
      AfterBeginIsOneLine(lines[1..]);
    }
  }

  /** Whatever the text, the parser only produces operations of the parsed shape. */
  lemma ParseGivesParsed(text: string)
    ensures AllParsed(Parse(SplitLines(text)))
  {
    SplitGivesLines(text);
    AfterBeginIsOneLine(SplitLines(text));
    BodyIsParsed(Parser([], false, []), AfterBegin(SplitLines(text)));
  }

  // --- Printed operations, as the lines they are read as ---

  function ClassifyAll(raws: seq<string>): seq<Line> {
    seq(|raws|, i requires 0 <= i < |raws| => Classify(raws[i]))
  }

  function MoveLines(moveTo: Option<string>): seq<Line> {
    match moveTo
    case None => []
    case Some(path) => [MoveTo(path)]
  }

  function ContentLines(content: seq<string>): seq<Line> {
    seq(|content|, i requires 0 <= i < |content| => Content("+" + content[i]))
  }

  function HunkLines(hunk: Hunk): seq<Line> {
    seq(|hunk|, i requires 0 <= i < |hunk| => Content(PrintHunkLine(hunk[i])))
  }

  /** The lines of a parsed operation, which has at most one hunk. */
  function OpLines(op: FileOp): seq<Line> {
    [Header(op.action, op.path)] + MoveLines(op.moveTo) + ContentLines(op.content)
    + (if op.hunks == [] then [] else HunkLines(op.hunks[0]))
  }

  function OpsLines(ops: seq<FileOp>): seq<Line> {
    if ops == [] then [] else OpLines(ops[0]) + OpsLines(ops[1..])
  }

  lemma ClassifyAppend(a: seq<string>, b: seq<string>)
    ensures ClassifyAll(a + b) == ClassifyAll(a) + ClassifyAll(b)
  {
  }

  lemma ContentIsRead(content: seq<string>)
    ensures ClassifyAll(PrintContent(content)) == ContentLines(content)
  {
    forall i | 0 <= i < |content|
      ensures Classify(PrintContent(content)[i]) == ContentLines(content)[i]
    {
      PlusLineReads(content[i]);
    }
  }

  lemma HunkIsRead(hunk: Hunk)
    requires GoodHunk(hunk)
    ensures ClassifyAll(PrintHunk(hunk)) == HunkLines(hunk)
  {
    forall i: nat | i < |hunk|
      ensures Classify(PrintHunk(hunk)[i]) == HunkLines(hunk)[i]
    {
      HunkLineReads(hunk[i]);
    }
  }

  lemma OneHunk(hunks: seq<Hunk>)
    requires |hunks| == 1
    ensures PrintHunks(hunks) == PrintHunk(hunks[0])
  {
  }

  lemma HeadIsRead(op: FileOp)
    requires Parsed(op)
    ensures ClassifyAll([Tag(op.action) + " " + op.path] + PrintMove(op.moveTo))
         == [Header(op.action, op.path)] + MoveLines(op.moveTo)
  {
    HeaderLine(op.action, op.path);
    if op.moveTo.Some? {
      MoveLine(op.moveTo.value);
    }
  }

  lemma OpIsRead(op: FileOp)
    requires Parsed(op)
    ensures ClassifyAll(PrintOp(op)) == OpLines(op)
  {
    var head := [Tag(op.action) + " " + op.path] + PrintMove(op.moveTo);
    var content, hunks := PrintContent(op.content), PrintHunks(op.hunks);
    HeadIsRead(op);
    ContentIsRead(op.content);
    if op.hunks != [] {
      OneHunk(op.hunks);
      HunkIsRead(op.hunks[0]);
    }
    ClassifyAppend(head, content);
    ClassifyAppend(head + content, hunks);
  }

  lemma {:induction false} OpsAreRead(ops: seq<FileOp>)
    requires AllParsed(ops)
    ensures ClassifyAll(PrintOps(ops)) == OpsLines(ops)
    decreases |ops|
  {
    if ops != [] {
      OpIsRead(ops[0]);
      OpsAreRead(ops[1..]);
      ClassifyAppend(PrintOp(ops[0]), PrintOps(ops[1..]));
    }
  }

  // --- Reading those lines back ---

  lemma MoveHead<T>(a: seq<T>, b: seq<T>)
    requires b != []
    ensures a + [b[0]] + b[1..] == a + b
  {
  }

  function ReadAll(p: Parser, lines: seq<Line>): (q: Parser)
    requires p.Valid()
    ensures q.Valid()
    decreases |lines|
  {
    if lines == [] then p else ReadAll(Read(p, lines[0]), lines[1..])
  }

  lemma {:induction false} ReadAllAppend(p: Parser, a: seq<Line>, b: seq<Line>)
    requires p.Valid()
    ensures ReadAll(p, a + b) == ReadAll(ReadAll(p, a), b)
    decreases |a|
  {
    if a == [] {
      assert a + b == b;
    } else {
      assert (a + b)[1..] == a[1..] + b;
      ReadAllAppend(Read(p, a[0]), a[1..], b);
    }
  }

  lemma ReadPlus(before: seq<FileOp>, op: FileOp, text: string)
    requires op.action == AddFile
    ensures Read(Parser(before + [op], true, []), Content("+" + text))
         == Parser(before + [op.(content := op.content + [text])], true, [])
  {
  }

  lemma {:induction false} ReadAllContent(before: seq<FileOp>, op: FileOp, content: seq<string>)
    requires op.action == AddFile
    ensures ReadAll(Parser(before + [op], true, []), ContentLines(content))
         == Parser(before + [op.(content := op.content + content)], true, [])
    decreases |content|
  {
    if content == [] {
      assert op.content + content == op.content;
    } else {
      ReadPlus(before, op, content[0]);
      var longer := op.(content := op.content + [content[0]]);
      assert ContentLines(content)[1..] == ContentLines(content[1..]);
      ReadAllContent(before, longer, content[1..]);
      MoveHead(op.content, content);
    }
  }

  lemma {:induction false} ReadAllHunk(p: Parser, hunk: Hunk)
    requires p.Valid() && p.open && Last(p).action != AddFile && GoodHunk(hunk)
    ensures ReadAll(p, HunkLines(hunk)) == p.(hunk := p.hunk + hunk)
    decreases |hunk|
  {
    if hunk == [] {
      assert p.hunk + hunk == p.hunk;
    } else {
      HunkLineReads(hunk[0]);
      var q := p.(hunk := p.hunk + [hunk[0]]);
      assert Read(p, Content(PrintHunkLine(hunk[0]))) == q;
      assert HunkLines(hunk)[1..] == HunkLines(hunk[1..]);
      ReadAllHunk(q, hunk[1..]);
      MoveHead(p.hunk, hunk);
    }
  }

  /** After the header and the move line the parser holds the bare operation. */
  lemma ReadAllHead(p: Parser, op: FileOp)
    requires p.Valid()
    ensures ReadAll(p, [Header(op.action, op.path)] + MoveLines(op.moveTo))
         == Parser(FlushHunk(p).ops + [op.(content := [], hunks := [])], true, [])
  {
    var header := [Header(op.action, op.path)];
    ReadAllAppend(p, header, MoveLines(op.moveTo));
    assert ReadAll(p, header) == Read(p, header[0]);
    if op.moveTo.Some? {
      var q := Read(p, header[0]);
      assert q.ops[..|q.ops| - 1] == FlushHunk(p).ops;
      assert ReadAll(q, MoveLines(op.moveTo)) == Read(q, MoveTo(op.moveTo.value));
    }
  }

  /** Its body then completes it. */
  lemma ReadAllBody(before: seq<FileOp>, op: FileOp)
    requires Parsed(op)
    ensures FlushHunk(ReadAll(Parser(before + [op.(content := [], hunks := [])], true, []),
                              ContentLines(op.content) + (if op.hunks == [] then [] else HunkLines(op.hunks[0])))).ops
         == before + [op]
  {
    var bare := op.(content := [], hunks := []);
    if op.action == AddFile {
      assert ContentLines(op.content) + [] == ContentLines(op.content);
      ReadAllContent(before, bare, op.content);
      assert [] + op.content == op.content;
    } else if op.hunks == [] {
      assert ContentLines(op.content) + [] == [];
    } else {
      var p, hunk := Parser(before + [bare], true, []), op.hunks[0];
      assert ContentLines(op.content) + HunkLines(hunk) == HunkLines(hunk);
      ReadAllHunk(p, hunk);
      assert [] + hunk == hunk;
      assert (before + [bare])[..|before|] == before;
      assert bare.hunks + [hunk] == op.hunks;
    }
  }

  lemma ReadAllOp(p: Parser, op: FileOp)
    requires p.Valid() && Parsed(op)
    ensures FlushHunk(ReadAll(p, OpLines(op))).ops == FlushHunk(p).ops + [op]
  {
    var head := [Header(op.action, op.path)] + MoveLines(op.moveTo);
    var body := ContentLines(op.content) + (if op.hunks == [] then [] else HunkLines(op.hunks[0]));
    assert OpLines(op) == head + body;
    ReadAllAppend(p, head, body);
    ReadAllHead(p, op);
    ReadAllBody(FlushHunk(p).ops, op);
  }

  lemma {:induction false} ReadAllOps(p: Parser, before: seq<FileOp>, ops: seq<FileOp>)
    requires p.Valid() && FlushHunk(p).ops == before && AllParsed(ops)
    ensures FlushHunk(ReadAll(p, OpsLines(ops))).ops == before + ops
    decreases |ops|
  {
    if ops == [] {
      assert before + ops == before;
    } else {
      ReadAllOp(p, ops[0]);
      ReadAllAppend(p, OpLines(ops[0]), OpsLines(ops[1..]));
      ReadAllOps(ReadAll(p, OpLines(ops[0])), before + [ops[0]], ops[1..]);
      MoveHead(before, ops);
    }
  }

  lemma {:induction false} BodyUpToEnd(p: Parser, raws: seq<string>)
    requires p.Valid() && forall i :: 0 <= i < |raws| ==> !ClassifyAll(raws)[i].EndPatch?
    ensures ReadBody(p, raws + [END]) == FlushHunk(ReadAll(p, ClassifyAll(raws))).ops
    decreases |raws|
  {
    if raws == [] {
      StripOfTrimmed(END);
      assert raws + [END] == [END];
      assert Classify(END).EndPatch?;
    } else {
      assert !ClassifyAll(raws)[0].EndPatch?;
      assert (raws + [END])[1..] == raws[1..] + [END];
      assert ClassifyAll(raws)[1..] == ClassifyAll(raws[1..]);
      BodyUpToEnd(Read(p, Classify(raws[0])), raws[1..]);
    }
  }

  lemma {:induction false} NoEndAmongOps(ops: seq<FileOp>)
    ensures forall i :: 0 <= i < |OpsLines(ops)| ==> !OpsLines(ops)[i].EndPatch?
    decreases |ops|
  {
    if ops != [] {
      NoEndAmongOps(ops[1..]);
    }
  }

  // --- Printed text splits into the printed lines ---

  lemma HunkPrintsLines(hunk: Hunk)
    requires GoodHunk(hunk)
    ensures AllOneLine(PrintHunk(hunk))
  {
    forall i: nat | i < |hunk|
      ensures OneLine(PrintHunkLine(hunk[i]))
    {
      assert GoodLine(hunk[i]);
    }
  }

  lemma OpPrintsLines(op: FileOp)
    requires Parsed(op)
    ensures AllOneLine(PrintOp(op))
  {
    var head := [Tag(op.action) + " " + op.path] + PrintMove(op.moveTo);
    HeadPrintsLines(op);
    ContentPrintsLines(op.content);
    LinesAppend(head, PrintContent(op.content));
    if op.hunks != [] {
      OneHunk(op.hunks);
      HunkPrintsLines(op.hunks[0]);
    }
    LinesAppend(head + PrintContent(op.content), PrintHunks(op.hunks));
  }

  lemma HeadPrintsLines(op: FileOp)
    requires Parsed(op)
    ensures AllOneLine([Tag(op.action) + " " + op.path] + PrintMove(op.moveTo))
  {
    OneLineTag(Tag(op.action), op.path);
    if op.moveTo.Some? {
      OneLineTag(MOVE, op.moveTo.value);
    }
  }

  lemma OneLineTag(tag: string, path: string)
    requires OneLine(tag) && OneLine(path)
    ensures OneLine(tag + " " + path)
  {
  }

  lemma ContentPrintsLines(content: seq<string>)
    requires AllOneLine(content)
    ensures AllOneLine(PrintContent(content))
  {
  }

  lemma {:induction false} OpsPrintLines(ops: seq<FileOp>)
    requires AllParsed(ops)
    ensures AllOneLine(PrintOps(ops))
    decreases |ops|
  {
    if ops != [] {
      OpPrintsLines(ops[0]);
      OpsPrintLines(ops[1..]);
    }
  }

  lemma AfterPrintedBegin(body: seq<string>)
    ensures AfterBegin([BEGIN] + body) == body
  {
    StripOfTrimmed(BEGIN);
    assert ([BEGIN] + body)[1..] == body;
  }

  lemma ParseOfPrint(ops: seq<FileOp>)
    requires AllParsed(ops)
    ensures Parse(Print(ops)) == ops
  {
    var start, lines := Parser([], false, []), PrintOps(ops);
    assert Print(ops) == [BEGIN] + (lines + [END]);
    AfterPrintedBegin(lines + [END]);
    OpsAreRead(ops);
    NoEndAmongOps(ops);
    BodyUpToEnd(start, lines);
    ReadAllOps(start, [], ops);
    assert [] + ops == ops;
  }

  lemma MarkersAreLines()
    ensures AllOneLine([BEGIN]) && AllOneLine([END])
  {
  }

  lemma LinesAppend(a: seq<string>, b: seq<string>)
    requires AllOneLine(a) && AllOneLine(b)
    ensures AllOneLine(a + b)
  {
  }

  lemma PrintIsLines(ops: seq<FileOp>)
    requires AllParsed(ops)
    ensures AllOneLine(Print(ops))
  {
    OpsPrintLines(ops);
    MarkersAreLines();
    LinesAppend([BEGIN], PrintOps(ops));
    LinesAppend([BEGIN] + PrintOps(ops), [END]);
  }

  /** Parsing the printed text gives the operations back, for exactly the lists of
      operations that the parser can produce. */
  lemma ParseUndoesPrintIff(ops: seq<FileOp>)
    ensures AllParsed(ops) <==> Parse(SplitLines(JoinLines(Print(ops)))) == ops
  {
    if AllParsed(ops) {
      PrintIsLines(ops);
      SplitUndoesJoin(Print(ops));
      ParseOfPrint(ops);
    }
    ParseGivesParsed(JoinLines(Print(ops)));
  }

  /** For every text: printing what was parsed and parsing it again changes nothing. */
  lemma PrintIsNormalForm(text: string)
    ensures Parse(SplitLines(JoinLines(Print(Parse(SplitLines(text)))))) == Parse(SplitLines(text))
  {
    ParseGivesParsed(text);
    ParseUndoesPrintIff(Parse(SplitLines(text)));
  }
}
