/** What a patch text says, read block by block, and that the line parser reads every text
    that way. */
module PatchBlocks {
  import opened Results
  import opened Text
  import opened PatchText
  import opened PatchParser
  import opened PatchRoundTrip

  // --- Lines ---

  /** What the trimmed line starts with decides what it is, and what follows the tag, trimmed,
      is the path. */
  lemma TagsDecide(raw: string, path: string)
    ensures var s := Strip(raw);
            && (Classify(raw) == EndPatch <==> "*** End Patch" <= s)
            && (Classify(raw) == Header(AddFile, path) <==> "*** Add File:" <= s && path == Strip(s[13..]))
            && (Classify(raw) == Header(DeleteFile, path) <==> "*** Delete File:" <= s && path == Strip(s[16..]))
            && (Classify(raw) == Header(UpdateFile, path) <==> "*** Update File:" <= s && path == Strip(s[16..]))
            && (Classify(raw) == MoveTo(path) <==> "*** Move to:" <= s && path == Strip(s[12..]))
            && (Classify(raw) == EndOfFile <==> "*** End of File" <= s)
            && (Classify(raw) == Content(raw) <==> !("***" <= s))
  {
    var s := Strip(raw);
    if !StartsWith(s, SECTION) {
      SectionIsSharedPrefix(s);
    }
    ExclusiveTags(s);
  }

  lemma ExclusiveTags(s: string)
    ensures StartsWith(s, END) ==> !StartsWith(s, ADD) && !StartsWith(s, DELETE) && !StartsWith(s, UPDATE)
                                   && !StartsWith(s, MOVE) && !StartsWith(s, END_OF_FILE)
    ensures StartsWith(s, END_OF_FILE) ==> !StartsWith(s, ADD) && !StartsWith(s, DELETE) && !StartsWith(s, UPDATE)
                                           && !StartsWith(s, MOVE)
    ensures StartsWith(s, ADD) ==> !StartsWith(s, DELETE) && !StartsWith(s, UPDATE) && !StartsWith(s, MOVE)
    ensures StartsWith(s, DELETE) ==> !StartsWith(s, UPDATE) && !StartsWith(s, MOVE)
    ensures StartsWith(s, UPDATE) ==> !StartsWith(s, MOVE)
  {
    TagsDiffer(s, END, ADD, 4);
    TagsDiffer(s, END, DELETE, 4);
    TagsDiffer(s, END, UPDATE, 4);
    TagsDiffer(s, END, MOVE, 4);
    TagsDiffer(s, END, END_OF_FILE, 8);
    TagsDiffer(s, END_OF_FILE, ADD, 4);
    TagsDiffer(s, END_OF_FILE, DELETE, 4);
    TagsDiffer(s, END_OF_FILE, UPDATE, 4);
    TagsDiffer(s, END_OF_FILE, MOVE, 4);
    TagsDiffer(s, ADD, DELETE, 4);
    TagsDiffer(s, ADD, UPDATE, 4);
    TagsDiffer(s, ADD, MOVE, 4);
    TagsDiffer(s, DELETE, UPDATE, 4);
    TagsDiffer(s, DELETE, MOVE, 4);
    TagsDiffer(s, UPDATE, MOVE, 4);
  }

  /** Any other line that starts with three stars once trimmed is an unknown section. */
  lemma OtherStarsAreSections(raw: string)
    ensures Classify(raw) == Section
            <==> var s := Strip(raw);
                 && "***" <= s && !("*** End Patch" <= s) && !("*** Add File:" <= s) && !("*** Delete File:" <= s)
                 && !("*** Update File:" <= s) && !("*** Move to:" <= s) && !("*** End of File" <= s)
  {
  }

  /** The first character of a content line of a hunk says what to do with the rest. */
  lemma MarkersDecide(raw: string, text: string)
    ensures AsHunkLine("+" + text) == HunkLine(Added, text)
    ensures AsHunkLine("-" + text) == HunkLine(Removed, text)
    ensures AsHunkLine("@@" + text) == HunkLine(Context, LStrip(text))
    ensures raw == "" || (raw[0] != '+' && raw[0] != '-' && !("@@" <= raw)) ==> AsHunkLine(raw) == HunkLine(Context, raw)
    ensures WithoutPlus("+" + text) == text
    ensures raw == "" || raw[0] != '+' ==> WithoutPlus(raw) == raw
  {
    assert ("+" + text)[0] == '+' && ("-" + text)[0] == '-' && ("@@" + text)[0] == '@';
    assert ("+" + text)[1..] == text && ("-" + text)[1..] == text && ("@@" + text)[2..] == text;
  }

  // --- Blocks ---

  /** The lines up to the next header or unknown section. */
  function Block(lines: seq<Line>): seq<Line> {
    if lines == [] || lines[0].Header? || lines[0].Section? then [] else [lines[0]] + Block(lines[1..])
  }

  /** The content lines of a block, in order. */
  function Raws(block: seq<Line>): seq<string> {
    if block == [] then []
    else if block[0].Content? then [block[0].raw] + Raws(block[1..])
    else Raws(block[1..])
  }

  /** The last move line of a block. */
  function LastMove(block: seq<Line>): Option<string> {
    if block == [] then None
    else if LastMove(block[1..]).Some? then LastMove(block[1..])
    else if block[0].MoveTo? then Some(block[0].path)
    else None
  }

  function Bodies(raws: seq<string>): seq<string> {
    seq(|raws|, i requires 0 <= i < |raws| => WithoutPlus(raws[i]))
  }

  function Edits(raws: seq<string>): Hunk {
    seq(|raws|, i requires 0 <= i < |raws| => AsHunkLine(raws[i]))
  }

  /** The operation that a header and its block describe: an added file with its body, or one
      hunk with all the edits of the block. */
  function Described(header: Line, block: seq<Line>): FileOp
    requires header.Header?
  {
    var raws := Raws(block);
    if header.action == AddFile
    then FileOp(AddFile, header.path, LastMove(block), Bodies(raws), [])
    else FileOp(header.action, header.path, LastMove(block), [], if raws == [] then [] else [Edits(raws)])
  }

  /** One operation for each header, in order. */
  function AllDescribed(lines: seq<Line>): seq<FileOp> {
    if lines == [] then []
    else if lines[0].Header? then [Described(lines[0], Block(lines[1..]))] + AllDescribed(lines[1..])
    else AllDescribed(lines[1..])
  }

  /** A block ends right before the first header or unknown section. */
  lemma {:induction false} BlockEndsAtBoundary(lines: seq<Line>)
    ensures Block(lines) <= lines
    ensures forall i: nat :: i < |Block(lines)| ==> !lines[i].Header? && !lines[i].Section?
    ensures var n := |Block(lines)|; n < |lines| ==> lines[n].Header? || lines[n].Section?
  {
    if lines != [] && !lines[0].Header? && !lines[0].Section? {
      BlockEndsAtBoundary(lines[1..]);
    }
  }

  lemma {:induction false} MoveIsLast(block: seq<Line>) returns (at: int)
    ensures LastMove(block).None? ==> forall i: nat :: i < |block| ==> !block[i].MoveTo?
    ensures LastMove(block).Some? ==>
              && 0 <= at < |block|
              && block[at] == MoveTo(LastMove(block).value)
              && forall i :: at < i < |block| ==> !block[i].MoveTo?
  {
    at := 0;
    if block != [] {
      var later := MoveIsLast(block[1..]);
      at := if LastMove(block[1..]).Some? then later + 1 else 0;
    }
  }

  lemma {:induction false} RawsAppend(a: seq<Line>, b: seq<Line>)
    ensures Raws(a + b) == Raws(a) + Raws(b)
  {
    if a == [] {
      assert a + b == b;
    } else {
      assert (a + b)[1..] == a[1..] + b;
      RawsAppend(a[1..], b);
    }
  }

  /** Each content line of a block counts where it stands, and no other line does. */
  lemma EachContentLineCounts(before: seq<Line>, line: Line, after: seq<Line>)
    ensures Raws(before + [line] + after)
         == if line.Content? then Raws(before) + [line.raw] + Raws(after) else Raws(before) + Raws(after)
  {
    RawsAppend(before + [line], after);
    RawsAppend(before, [line]);
    assert [line][1..] == [];
    assert Raws([line]) == if line.Content? then [line.raw] else [];
  }

  // --- The parser reads blocks ---

  /** An operation read so far, after the rest of its block. */
  function Continued(op: FileOp, hunk: Hunk, block: seq<Line>): FileOp {
    var raws := Raws(block);
    var moveTo := if LastMove(block).Some? then LastMove(block) else op.moveTo;
    if op.action == AddFile then op.(moveTo := moveTo, content := op.content + Bodies(raws))
    else op.(moveTo := moveTo, hunks := if hunk + Edits(raws) == [] then [] else [hunk + Edits(raws)])
  }

  lemma ContinuedByMove(op: FileOp, hunk: Hunk, path: string, block: seq<Line>)
    ensures Continued(op, hunk, [MoveTo(path)] + block) == Continued(op.(moveTo := Some(path)), hunk, block)
  {
    assert ([MoveTo(path)] + block)[1..] == block;
  }

  lemma ContinuedByOther(op: FileOp, hunk: Hunk, line: Line, block: seq<Line>)
    requires line.EndOfFile? || line.EndPatch?
    ensures Continued(op, hunk, [line] + block) == Continued(op, hunk, block)
  {
    assert ([line] + block)[1..] == block;
  }

  lemma ContinuedByBody(op: FileOp, raw: string, block: seq<Line>)
    requires op.action == AddFile
    ensures Continued(op, [], [Content(raw)] + block) == Continued(op.(content := op.content + [WithoutPlus(raw)]), [], block)
  {
    assert ([Content(raw)] + block)[1..] == block;
    assert op.content + Bodies([raw] + Raws(block)) == op.content + [WithoutPlus(raw)] + Bodies(Raws(block));
  }

  lemma ContinuedByEdit(op: FileOp, hunk: Hunk, raw: string, block: seq<Line>)
    requires op.action != AddFile
    ensures Continued(op, hunk, [Content(raw)] + block) == Continued(op, hunk + [AsHunkLine(raw)], block)
  {
    assert ([Content(raw)] + block)[1..] == block;
    assert hunk + Edits([raw] + Raws(block)) == hunk + [AsHunkLine(raw)] + Edits(Raws(block));
  }

  lemma ContinuedFromHeader(header: Line, block: seq<Line>)
    requires header.Header?
    ensures Continued(FileOp(header.action, header.path, None, [], []), [], block) == Described(header, block)
  {
    assert [] + Bodies(Raws(block)) == Bodies(Raws(block));
    assert [] + Edits(Raws(block)) == Edits(Raws(block));
  }

  /** The parser in the middle of a block. */
  ghost predicate Inside(p: Parser, before: seq<FileOp>, op: FileOp) {
    p.open && p.ops == before + [op] && op.hunks == [] && (op.action == AddFile ==> p.hunk == [])
  }

  lemma FlushInside(p: Parser, before: seq<FileOp>, op: FileOp)
    requires Inside(p, before, op)
    ensures FlushHunk(p) == Parser(before + [Continued(op, p.hunk, [])], true, [])
  {
    assert op.content + Bodies([]) == op.content;
    assert p.hunk + Edits([]) == p.hunk;
    assert (before + [op])[..|before|] == before;
    assert op.hunks + [p.hunk] == [p.hunk];
  }

  lemma {:induction false} InsideReadsBlock(p: Parser, before: seq<FileOp>, op: FileOp, lines: seq<Line>)
    requires Inside(p, before, op)
    ensures FlushHunk(ReadAll(p, lines)).ops == before + [Continued(op, p.hunk, Block(lines))] + AllDescribed(lines)
    decreases |lines|, 1
  {
    if lines == [] {
      FlushInside(p, before, op);
    } else {
      var line, rest := lines[0], lines[1..];
      assert (before + [op])[..|before|] == before;
      match line {
        case Header(action, path) =>
          FlushInside(p, before, op);
          HeaderReadsBlock(FlushHunk(p), line, rest);
        case Section =>
          FlushInside(p, before, op);
          ClosedReadsBlocks(Read(p, line), rest);
        case MoveTo(path) =>
          ContinuedByMove(op, p.hunk, path, Block(rest));
          InsideReadsBlock(Read(p, line), before, op.(moveTo := Some(path)), rest);
        case Content(raw) =>
          if op.action == AddFile {
            ContinuedByBody(op, raw, Block(rest));
            InsideReadsBlock(Read(p, line), before, op.(content := op.content + [WithoutPlus(raw)]), rest);
          } else {
            ContinuedByEdit(op, p.hunk, raw, Block(rest));
            InsideReadsBlock(Read(p, line), before, op, rest);
          }
        case _ =>
          ContinuedByOther(op, p.hunk, line, Block(rest));
          InsideReadsBlock(p, before, op, rest);
      }
    }
  }

  lemma {:induction false} HeaderReadsBlock(p: Parser, header: Line, rest: seq<Line>)
    requires p.Valid() && p.hunk == [] && header.Header?
    ensures FlushHunk(ReadAll(Read(p, header), rest)).ops
         == p.ops + ([Described(header, Block(rest))] + AllDescribed(rest))
    decreases |rest|, 2
  {
    var op := FileOp(header.action, header.path, None, [], []);
    InsideReadsBlock(Read(p, header), p.ops, op, rest);
    ContinuedFromHeader(header, Block(rest));
  }

  lemma {:induction false} ClosedReadsBlocks(p: Parser, lines: seq<Line>)
    requires !p.open && p.hunk == []
    ensures FlushHunk(ReadAll(p, lines)).ops == p.ops + AllDescribed(lines)
    decreases |lines|, 1
  {
    if lines == [] {
    } else if lines[0].Header? {
      HeaderReadsBlock(p, lines[0], lines[1..]);
    } else {
      ClosedReadsBlocks(p, lines[1..]);
    }
  }

  // --- Whole texts ---

  /** Leading prose is skipped. */
  lemma {:induction false} ProseIsSkipped(prose: seq<string>, marker: string, rest: seq<string>)
    requires (forall i :: 0 <= i < |prose| ==> !("*** Begin Patch" <= Strip(prose[i]))) && "*** Begin Patch" <= Strip(marker)
    ensures AfterBegin(prose + [marker] + rest) == rest
    ensures Parse(prose + [marker] + rest) == Parse([marker] + rest)
  {
    if prose == [] {
      assert [] + [marker] + rest == [marker] + rest;
      assert ([marker] + rest)[1..] == rest;
    } else {
      assert (prose + [marker] + rest)[1..] == prose[1..] + [marker] + rest;
      ProseIsSkipped(prose[1..], marker, rest);
    }
  }

  /** A text without a begin marker says nothing. */
  lemma {:induction false} NoMarkerNoOperations(lines: seq<string>)
    requires forall i :: 0 <= i < |lines| ==> !("*** Begin Patch" <= Strip(lines[i]))
    ensures AfterBegin(lines) == [] && Parse(lines) == []
  {
    if lines != [] {
      NoMarkerNoOperations(lines[1..]);
    }
  }

  lemma {:induction false} BodyUpToMarker(p: Parser, body: seq<string>, tail: seq<string>)
    requires p.Valid() && forall i :: 0 <= i < |body| ==> !Ends(body[i])
    requires tail == [] || Ends(tail[0])
    ensures ReadBody(p, body + tail) == FlushHunk(ReadAll(p, ClassifyAll(body))).ops
    decreases |body|
  {
    if body == [] {
      assert body + tail == tail;
    } else {
      assert (body + tail)[1..] == body[1..] + tail;
      assert ClassifyAll(body)[1..] == ClassifyAll(body[1..]);
      BodyUpToMarker(Read(p, Classify(body[0])), body[1..], tail);
    }
  }

  /** The operations of a text are those its blocks describe, between the first begin marker
      and the first end marker after it, or the end of the text. */
  lemma ParseReadsBlocks(prose: seq<string>, marker: string, body: seq<string>, tail: seq<string>)
    requires (forall i :: 0 <= i < |prose| ==> !Begins(prose[i])) && Begins(marker)
    requires (forall i :: 0 <= i < |body| ==> !Ends(body[i])) && (tail == [] || Ends(tail[0]))
    ensures Parse(prose + [marker] + (body + tail)) == AllDescribed(ClassifyAll(body))
  {
    var start := Parser([], false, []);
    ProseIsSkipped(prose, marker, body + tail);
    BodyUpToMarker(start, body, tail);
    ClosedReadsBlocks(start, ClassifyAll(body));
    assert [] + AllDescribed(ClassifyAll(body)) == AllDescribed(ClassifyAll(body));
  }

  lemma FirstWith(lines: seq<string>, from: nat, begin: bool) returns (i: nat)
    requires from <= |lines|
    ensures from <= i <= |lines| && forall k :: from <= k < i ==> !(if begin then Begins(lines[k]) else Ends(lines[k]))
    ensures i < |lines| ==> if begin then Begins(lines[i]) else Ends(lines[i])
    decreases |lines| - from
  {
    i := from;
    if i < |lines| && !(if begin then Begins(lines[i]) else Ends(lines[i])) {
      i := FirstWith(lines, from + 1, begin);
    }
  }

  /** Every text has this form or no begin marker. */
  lemma PartsOfText(lines: seq<string>)
      returns (prose: seq<string>, marker: string, body: seq<string>, tail: seq<string>)
    requires exists i :: 0 <= i < |lines| && Begins(lines[i])
    ensures lines == prose + [marker] + (body + tail)
    ensures (forall i :: 0 <= i < |prose| ==> !Begins(prose[i])) && Begins(marker)
    ensures (forall i :: 0 <= i < |body| ==> !Ends(body[i])) && (tail == [] || Ends(tail[0]))
  {
    var i := FirstWith(lines, 0, true);
    var j := FirstWith(lines, i + 1, false);
    prose, marker, body, tail := lines[..i], lines[i], lines[i + 1..j], lines[j..];
  }
}
