/** Applying parsed operations to an in-memory file map. */
module PatchApply {
  import opened Results
  import opened Text
  import opened PatchParser

  type Files = map<string, seq<string>>

  datatype PatchError = DeleteMissing(path: string) | UpdateMissing(path: string) | HunkNotFound(path: string)

  datatype Delta = Delta(path: string, action: Action)

  // --- One hunk ---

  function Texts(hunk: Hunk, kinds: set<Kind>): seq<string> {
    if hunk == [] then []
    else if hunk[0].kind in kinds then [hunk[0].text] + Texts(hunk[1..], kinds)
    else Texts(hunk[1..], kinds)
  }

  function Needle(hunk: Hunk): seq<string> {
    Texts(hunk, {Context, Removed})
  }

  function Replacement(hunk: Hunk): seq<string> {
    Texts(hunk, {Context, Added})
  }

  /** The block stands at line `i`, comparing lines without surrounding whitespace. */
  predicate MatchesAt(lines: seq<string>, needle: seq<string>, i: nat) {
    && i + |needle| <= |lines|
    && forall j :: 0 <= j < |needle| ==> Strip(lines[i + j]) == Strip(needle[j])
  }

  ghost predicate IsFirstMatch(lines: seq<string>, needle: seq<string>, i: nat) {
    MatchesAt(lines, needle, i) && forall k: nat :: k < i ==> !MatchesAt(lines, needle, k)
  }

  /** `result` is `lines` after the hunk: appended to when the hunk has no anchor, and
      otherwise with the first match of the block replaced. */
  ghost predicate Splices(lines: seq<string>, hunk: Hunk, result: seq<string>) {
    if Needle(hunk) == [] then result == lines + Texts(hunk, {Added})
    else exists i: nat :: IsFirstMatch(lines, Needle(hunk), i)
           && result == lines[..i] + Replacement(hunk) + lines[i + |Needle(hunk)|..]
  }

  ghost predicate Applies(lines: seq<string>, hunk: Hunk) {
    Needle(hunk) == [] || exists i: nat :: MatchesAt(lines, Needle(hunk), i)
  }

  method FindSubseq(haystack: seq<string>, needle: seq<string>) returns (start: int)
    ensures needle == [] ==> start == -1
    ensures needle != [] && start == -1 ==> forall i: nat :: !MatchesAt(haystack, needle, i)
    ensures start != -1 ==> start >= 0 && IsFirstMatch(haystack, needle, start)
  {
    if needle == [] {
      return -1;
    }
    var i: nat := 0;
    while i + |needle| <= |haystack|
      invariant forall k: nat :: k < i ==> !MatchesAt(haystack, needle, k)
    {
      if MatchesAt(haystack, needle, i) {
        return i;
      }
      i := i + 1;
    }
    return -1;
  }

  method ApplyHunk(lines: seq<string>, hunk: Hunk) returns (r: Option<seq<string>>)
    ensures r.None? <==> !Applies(lines, hunk)
    ensures r.Some? ==> Splices(lines, hunk, r.value)
  {
    var needle := Needle(hunk);
    if needle == [] {
      return Some(lines + Texts(hunk, {Added}));
    }
    var start := FindSubseq(lines, needle);
    if start == -1 {
      return None;
    }
    return Some(lines[..start] + Replacement(hunk) + lines[start + |needle|..]);
  }

  /** The first match is one place only, so a hunk has one result. */
  lemma SplicesUnique(lines: seq<string>, hunk: Hunk, a: seq<string>, b: seq<string>)
    requires Splices(lines, hunk, a) && Splices(lines, hunk, b)
    ensures a == b
  {
  }

  lemma {:induction false} CountTexts(hunk: Hunk)
    ensures |Replacement(hunk)| + |Texts(hunk, {Removed})| == |Needle(hunk)| + |Texts(hunk, {Added})|
  {
    if hunk != [] {
      CountTexts(hunk[1..]);
    }
  }

  /** A hunk changes the number of lines by the added minus the removed ones. */
  lemma SpliceLength(lines: seq<string>, hunk: Hunk, result: seq<string>)
    requires Splices(lines, hunk, result)
    ensures |result| + |Texts(hunk, {Removed})| == |lines| + |Texts(hunk, {Added})|
  {
    CountTexts(hunk);
    if Needle(hunk) == [] {
      NoAnchorRemovesNothing(hunk);
    }
  }

  lemma {:induction false} NoAnchorRemovesNothing(hunk: Hunk)
    requires Needle(hunk) == []
    ensures Texts(hunk, {Removed}) == []
  {
    if hunk != [] {
      NoAnchorRemovesNothing(hunk[1..]);
    }
  }

  // --- What a hunk does, line by line ---

  /** A context line is looked for and kept, a removed one looked for and dropped, an added
      one put in. */
  lemma OneLineHunk(line: HunkLine)
    ensures Needle([line]) == if line.kind == Added then [] else [line.text]
    ensures Replacement([line]) == if line.kind == Removed then [] else [line.text]
  {
    assert [line] == [line] + [];
    TextsCons(line, [], {Context, Removed});
    TextsCons(line, [], {Context, Added});
  }

  lemma {:induction false} TextsAppend(a: Hunk, b: Hunk, kinds: set<Kind>)
    ensures Texts(a + b, kinds) == Texts(a, kinds) + Texts(b, kinds)
  {
    if a == [] {
      assert a + b == b;
    } else {
      assert (a + b)[1..] == a[1..] + b;
      TextsAppend(a[1..], b, kinds);
    }
  }

  /** And in the order of the hunk. */
  lemma LinesInOrder(a: Hunk, b: Hunk)
    ensures Needle(a + b) == Needle(a) + Needle(b) && Replacement(a + b) == Replacement(a) + Replacement(b)
  {
    TextsAppend(a, b, {Context, Removed});
    TextsAppend(a, b, {Context, Added});
  }

  lemma {:induction false} AddedTexts(hunk: Hunk)
    requires forall i :: 0 <= i < |hunk| ==> hunk[i].kind == Added
    ensures Needle(hunk) == []
    ensures Texts(hunk, {Added}) == seq(|hunk|, i requires 0 <= i < |hunk| => hunk[i].text)
  {
    if hunk != [] {
      AddedTexts(hunk[1..]);
      assert seq(|hunk|, i requires 0 <= i < |hunk| => hunk[i].text)
          == [hunk[0].text] + seq(|hunk| - 1, i requires 0 <= i < |hunk| - 1 => hunk[1..][i].text);
    }
  }

  /** A hunk of added lines only goes to the end of the file. */
  lemma AddedLinesAreAppended(lines: seq<string>, hunk: Hunk, result: seq<string>)
    requires forall i :: 0 <= i < |hunk| ==> hunk[i].kind == Added
    ensures Splices(lines, hunk, result) <==> result == lines + seq(|hunk|, i requires 0 <= i < |hunk| => hunk[i].text)
  {
    AddedTexts(hunk);
  }

  /** Some line of the block differs, once trimmed, from the one in its place. */
  ghost predicate Differs(lines: seq<string>, block: seq<string>, at: nat)
    requires at + |block| <= |lines|
  {
    exists j :: 0 <= j < |block| && Strip(lines[at + j]) != Strip(block[j])
  }

  /** Any other hunk replaces the first place where all its context and removed lines stand,
      once trimmed. */
  lemma BlockIsReplacedAtFirstMatch(lines: seq<string>, hunk: Hunk, result: seq<string>) returns (at: nat)
    requires Needle(hunk) != [] && Splices(lines, hunk, result)
    ensures at + |Needle(hunk)| <= |lines|
    ensures forall j :: 0 <= j < |Needle(hunk)| ==> Strip(lines[at + j]) == Strip(Needle(hunk)[j])
    ensures forall k: nat :: k < at ==> Differs(lines, Needle(hunk), k)
    ensures result == lines[..at] + Replacement(hunk) + lines[at + |Needle(hunk)|..]
  {
    at :| IsFirstMatch(lines, Needle(hunk), at)
          && result == lines[..at] + Replacement(hunk) + lines[at + |Needle(hunk)|..];
    forall k: nat | k < at
      ensures Differs(lines, Needle(hunk), k)
    {
      assert !MatchesAt(lines, Needle(hunk), k);
    }
  }

  /** And it fails exactly when there is no such place. */
  lemma BlockIsNowhere(lines: seq<string>, hunk: Hunk)
    ensures Applies(lines, hunk)
            <==> Needle(hunk) == [] || exists at: nat :: at + |Needle(hunk)| <= |lines| && !Differs(lines, Needle(hunk), at)
  {
    if Applies(lines, hunk) && Needle(hunk) != [] {
      var at: nat :| MatchesAt(lines, Needle(hunk), at);
      assert !Differs(lines, Needle(hunk), at);
    }
    if at: nat :| at + |Needle(hunk)| <= |lines| && !Differs(lines, Needle(hunk), at) {
      assert MatchesAt(lines, Needle(hunk), at);
    }
  }

  // --- Context lines ---

  /** What the block would become if its context lines were left as they are in the file. */
  ghost function KeepingContext(matched: seq<string>, hunk: Hunk): seq<string>
    requires |matched| == |Needle(hunk)|
  {
    if hunk == [] then []
    else match hunk[0].kind
      case Context => [matched[0]] + KeepingContext(matched[1..], hunk[1..])
      case Removed => KeepingContext(matched[1..], hunk[1..])
      case Added => [hunk[0].text] + KeepingContext(matched, hunk[1..])
  }

  /** Each context line of the patch is spelled exactly as in the file. */
  ghost predicate ContextExact(matched: seq<string>, hunk: Hunk)
    requires |matched| == |Needle(hunk)|
  {
    hunk == []
    || match hunk[0].kind
       case Context => matched[0] == hunk[0].text && ContextExact(matched[1..], hunk[1..])
       case Removed => ContextExact(matched[1..], hunk[1..])
       case Added => ContextExact(matched, hunk[1..])
  }

  lemma {:induction false} KeepingContextIff(matched: seq<string>, hunk: Hunk)
    requires |matched| == |Needle(hunk)|
    ensures |KeepingContext(matched, hunk)| == |Replacement(hunk)|
    ensures KeepingContext(matched, hunk) == Replacement(hunk) <==> ContextExact(matched, hunk)
  {
    if hunk != [] {
      match hunk[0].kind
      case Context =>
        KeepingContextIff(matched[1..], hunk[1..]);
        HeadsAndTails(matched[0], KeepingContext(matched[1..], hunk[1..]), hunk[0].text, Replacement(hunk[1..]));
      case Removed =>
        KeepingContextIff(matched[1..], hunk[1..]);
      case Added =>
        KeepingContextIff(matched, hunk[1..]);
        HeadsAndTails(hunk[0].text, KeepingContext(matched, hunk[1..]), hunk[0].text, Replacement(hunk[1..]));
    }
  }

  lemma HeadsAndTails(a: string, s: seq<string>, b: string, t: seq<string>)
    ensures [a] + s == [b] + t <==> a == b && s == t
  {
    if [a] + s == [b] + t {
      assert ([a] + s)[0] == ([b] + t)[0];
      assert ([a] + s)[1..] == s && ([b] + t)[1..] == t;
    }
  }

  lemma SameFrame(before: seq<string>, a: seq<string>, b: seq<string>, after: seq<string>)
    requires |a| == |b|
    ensures before + a + after == before + b + after <==> a == b
  {
    if before + a + after == before + b + after {
      assert a == (before + a + after)[|before|..|before| + |a|];
      assert b == (before + b + after)[|before|..|before| + |b|];
    }
  }

  /** Matching ignores surrounding whitespace but splicing writes the patch's own text, so a
      hunk leaves its context lines alone exactly when they are spelled exactly. */
  lemma ContextUntouchedIff(lines: seq<string>, hunk: Hunk, i: nat)
    requires Needle(hunk) != [] && IsFirstMatch(lines, Needle(hunk), i)
    ensures Splices(lines, hunk, lines[..i] + KeepingContext(lines[i..i + |Needle(hunk)|], hunk) + lines[i + |Needle(hunk)|..])
            <==> ContextExact(lines[i..i + |Needle(hunk)|], hunk)
  {
    var n := |Needle(hunk)|;
    var matched := lines[i..i + n];
    var spliced := lines[..i] + Replacement(hunk) + lines[i + n..];
    var kept := lines[..i] + KeepingContext(matched, hunk) + lines[i + n..];
    KeepingContextIff(matched, hunk);
    SameFrame(lines[..i], KeepingContext(matched, hunk), Replacement(hunk), lines[i + n..]);
    assert Splices(lines, hunk, spliced);
    if Splices(lines, hunk, kept) {
      SplicesUnique(lines, hunk, kept, spliced);
    }
  }

  lemma AnchorDropsIndent(s: string)
    requires s != "" && !IsSpace(s[0])
    ensures AsHunkLine("@@   " + s) == HunkLine(Context, s)
    ensures Strip("  " + s) == Strip(s)
  {
    var raw := "@@   " + s;
    assert raw[0] == '@' && raw[..2] == "@@" && raw[2..] == "   " + s;
    assert ("   " + s)[1..] == "  " + s && ("  " + s)[1..] == " " + s && (" " + s)[1..] == s;
    assert LStrip(" " + s) == s && LStrip("  " + s) == LStrip(" " + s) && LStrip("   " + s) == LStrip("  " + s);
  }

  lemma TextsCons(head: HunkLine, tail: Hunk, kinds: set<Kind>)
    ensures Texts([head] + tail, kinds) == (if head.kind in kinds then [head.text] + Texts(tail, kinds) else Texts(tail, kinds))
  {
  }

  lemma AnchoredChange(anchor: string, before: string, after: string)
    ensures var hunk := [HunkLine(Context, anchor), HunkLine(Removed, before), HunkLine(Added, after)];
            Needle(hunk) == [anchor, before] && Replacement(hunk) == [anchor, after]
  {
    var c, r, a := HunkLine(Context, anchor), HunkLine(Removed, before), HunkLine(Added, after);
    assert [c, r, a] == [c] + ([r] + ([a] + []));
    forall kinds: set<Kind>
      ensures Texts([a] + [], kinds) == if Added in kinds then [after] else []
    {
      TextsCons(a, [], kinds);
    }
    TextsCons(r, [a] + [], {Context, Removed});
    TextsCons(r, [a] + [], {Context, Added});
    TextsCons(c, [r] + ([a] + []), {Context, Removed});
    TextsCons(c, [r] + ([a] + []), {Context, Added});
  }

  /** An anchor written after "@@" loses the indentation of the file line it stands for. */
  lemma IndentationCanBeLost(line: string, before: string, after: string)
    requires line != "" && !IsSpace(line[0])
    ensures Splices(["  " + line, before], [AsHunkLine("@@   " + line), HunkLine(Removed, before), HunkLine(Added, after)],
                    [line, after])
  {
    AnchorDropsIndent(line);
    AnchoredChange(line, before, after);
    var lines, hunk := ["  " + line, before], [HunkLine(Context, line), HunkLine(Removed, before), HunkLine(Added, after)];
    assert IsFirstMatch(lines, Needle(hunk), 0);
    assert lines[..0] + Replacement(hunk) + lines[0 + |Needle(hunk)|..] == [line, after];
  }

  // --- Undoing a hunk ---

  function Reversed(hunk: Hunk): Hunk {
    seq(|hunk|, i requires 0 <= i < |hunk| =>
      match hunk[i].kind
      case Context => hunk[i]
      case Removed => HunkLine(Added, hunk[i].text)
      case Added => HunkLine(Removed, hunk[i].text))
  }

  lemma {:induction false} ReversedSwaps(hunk: Hunk)
    ensures Needle(Reversed(hunk)) == Replacement(hunk) && Replacement(Reversed(hunk)) == Needle(hunk)
  {
    if hunk != [] {
      ReversedSwaps(hunk[1..]);
      assert Reversed(hunk)[1..] == Reversed(hunk[1..]);
    }
  }

  /** Applying the reversed hunk restores the file, when the block was spelled exactly and
      what replaced it does not also stand further up. */
  lemma ReversedHunkRestores(lines: seq<string>, hunk: Hunk, i: nat, result: seq<string>)
    requires Needle(hunk) != [] && Replacement(hunk) != [] && IsFirstMatch(lines, Needle(hunk), i)
    requires lines[i..i + |Needle(hunk)|] == Needle(hunk)
    requires result == lines[..i] + Replacement(hunk) + lines[i + |Needle(hunk)|..]
    requires forall k: nat :: k < i ==> !MatchesAt(result, Replacement(hunk), k)
    ensures Splices(result, Reversed(hunk), lines)
  {
    var n, m := |Needle(hunk)|, |Replacement(hunk)|;
    ReversedSwaps(hunk);
    assert forall j :: 0 <= j < m ==> result[i + j] == Replacement(hunk)[j];
    assert IsFirstMatch(result, Replacement(hunk), i);
    assert result[..i] == lines[..i] && result[i + m..] == lines[i + n..];
    assert lines == lines[..i] + Needle(hunk) + lines[i + n..];
  }

  // --- Whole operations ---

  /** The lines after all hunks of an update, applied one after the other. */
  ghost predicate SplicesAll(lines: seq<string>, hunks: seq<Hunk>, result: seq<string>) {
    if hunks == [] then result == lines
    else
      var n := |hunks| - 1;
      exists middle: seq<string> :: SplicesAll(lines, hunks[..n], middle) && Splices(middle, hunks[n], result)
  }

  ghost predicate AppliesAll(lines: seq<string>, hunks: seq<Hunk>) {
    exists result: seq<string> :: SplicesAll(lines, hunks, result)
  }

  /** The path an update writes to. */
  function Target(op: FileOp): string {
    if op.moveTo.Some? && op.moveTo.value != "" then op.moveTo.value else op.path
  }

  /** `after` is the file map after one operation that succeeds. */
  ghost predicate Performs(op: FileOp, before: Files, after: Files) {
    match op.action
    case AddFile => after == before[op.path := op.content]
    case DeleteFile => op.path in before && after == before - {op.path}
    case UpdateFile =>
      && op.path in before
      && exists result: seq<string> :: SplicesAll(before[op.path], op.hunks, result) && after == Moved(op, before, result)
  }

  function Moved(op: FileOp, before: Files, result: seq<string>): Files {
    var written := before[Target(op) := result];
    if Target(op) == op.path then written else written - {op.path}
  }

  /** Why an operation fails. */
  ghost predicate Fails(op: FileOp, before: Files, error: PatchError) {
    match op.action
    case AddFile => false
    case DeleteFile => op.path !in before && error == DeleteMissing(op.path)
    case UpdateFile =>
      if op.path !in before then error == UpdateMissing(op.path)
      else !AppliesAll(before[op.path], op.hunks) && error == HunkNotFound(op.path)
  }

  ghost predicate PerformsAll(ops: seq<FileOp>, before: Files, after: Files) {
    if ops == [] then after == before
    else
      var n := |ops| - 1;
      exists middle: Files :: PerformsAll(ops[..n], before, middle) && Performs(ops[n], middle, after)
  }

  lemma {:induction false} SplicesAllUnique(lines: seq<string>, hunks: seq<Hunk>, a: seq<string>, b: seq<string>)
    requires SplicesAll(lines, hunks, a) && SplicesAll(lines, hunks, b)
    ensures a == b
  {
    if hunks != [] {
      var n := |hunks| - 1;
      var x: seq<string> :| SplicesAll(lines, hunks[..n], x) && Splices(x, hunks[n], a);
      var y: seq<string> :| SplicesAll(lines, hunks[..n], y) && Splices(y, hunks[n], b);
      SplicesAllUnique(lines, hunks[..n], x, y);
      SplicesUnique(x, hunks[n], a, b);
    }
  }

  lemma {:induction false} StuckStaysStuck(lines: seq<string>, hunks: seq<Hunk>, n: nat, reached: seq<string>)
    requires n < |hunks| && SplicesAll(lines, hunks[..n], reached) && !Applies(reached, hunks[n])
    ensures !AppliesAll(lines, hunks)
  {
    var last := |hunks| - 1;
    if exists result: seq<string> :: SplicesAll(lines, hunks, result) {
      var result: seq<string> :| SplicesAll(lines, hunks, result);
      var middle: seq<string> :| SplicesAll(lines, hunks[..last], middle) && Splices(middle, hunks[last], result);
      if n == last {
        SplicesAllUnique(lines, hunks[..n], reached, middle);
        assert false;
      } else {
        assert hunks[..last][..n] == hunks[..n];
        StuckStaysStuck(lines, hunks[..last], n, reached);
        assert false;
      }
    }
  }

  lemma SomeResult(lines: seq<string>, hunk: Hunk) returns (result: seq<string>)
    requires Applies(lines, hunk)
    ensures Splices(lines, hunk, result)
  {
    if Needle(hunk) == [] {
      result := lines + Texts(hunk, {Added});
    } else {
      var at: nat :| MatchesAt(lines, Needle(hunk), at);
      var i: nat := 0;
      while !MatchesAt(lines, Needle(hunk), i)
        invariant i <= at && forall k: nat :: k < i ==> !MatchesAt(lines, Needle(hunk), k)
        decreases at - i
      {
        i := i + 1;
      }
      result := lines[..i] + Replacement(hunk) + lines[i + |Needle(hunk)|..];
    }
  }

  lemma OneMoreApplies(lines: seq<string>, hunks: seq<Hunk>, reached: seq<string>)
    requires hunks != [] && SplicesAll(lines, hunks[..|hunks| - 1], reached) && Applies(reached, hunks[|hunks| - 1])
    ensures AppliesAll(lines, hunks)
  {
    var result := SomeResult(reached, hunks[|hunks| - 1]);
    assert SplicesAll(lines, hunks, result);
  }

  /** A list of hunks fails at one of them, which stands nowhere in what those before it made. */
  lemma {:induction false} FailingHunk(lines: seq<string>, hunks: seq<Hunk>) returns (n: nat, reached: seq<string>)
    requires !AppliesAll(lines, hunks)
    ensures n < |hunks| && SplicesAll(lines, hunks[..n], reached) && !Applies(reached, hunks[n])
  {
    assert SplicesAll(lines, [], lines);
    var last := |hunks| - 1;
    if AppliesAll(lines, hunks[..last]) {
      reached :| SplicesAll(lines, hunks[..last], reached);
      n := last;
      if Applies(reached, hunks[last]) {
        OneMoreApplies(lines, hunks, reached);
        assert false;
      }
    } else {
      n, reached := FailingHunk(lines, hunks[..last]);
      assert hunks[..last][..n] == hunks[..n];
    }
  }

  method ApplyHunks(lines: seq<string>, hunks: seq<Hunk>) returns (r: Option<seq<string>>)
    ensures r.Some? ==> SplicesAll(lines, hunks, r.value)
    ensures r.None? ==> !AppliesAll(lines, hunks)
  {
    var source := lines;
    for i := 0 to |hunks|
      invariant SplicesAll(lines, hunks[..i], source)
    {
      var next := ApplyHunk(source, hunks[i]);
      if next.None? {
        StuckStaysStuck(lines, hunks, i, source);
        return None;
      }
      assert hunks[..i + 1][..i] == hunks[..i];
      source := next.value;
    }
    assert hunks[..|hunks|] == hunks;
    return Some(source);
  }

  class Workspace {
    var files: Files

    constructor (files: Files)
      ensures this.files == files
    {
      this.files := files;
    }

    method ApplyOp(op: FileOp) returns (r: Result<Delta, PatchError>)
      modifies this
      ensures r.Ok? ==> Performs(op, old(files), files)
      ensures r.Ok? ==> r.value.action == op.action
      ensures r.Ok? ==>
        r.value.path == if op.action == UpdateFile && op.moveTo.Some? && op.moveTo.value != ""
                        then op.moveTo.value else op.path
      ensures r.Err? ==> files == old(files) && Fails(op, files, r.error)
    {
      match op.action {
        case AddFile =>
          files := files[op.path := op.content];
          return Ok(Delta(op.path, AddFile));
        case DeleteFile =>
          if op.path !in files {
            return Err(DeleteMissing(op.path));
          }
          files := files - {op.path};
          return Ok(Delta(op.path, DeleteFile));
        case UpdateFile =>
          if op.path !in files {
            return Err(UpdateMissing(op.path));
          }
          var source := ApplyHunks(files[op.path], op.hunks);
          if source.None? {
            return Err(HunkNotFound(op.path));
          }
          files := Moved(op, files, source.value);
          return Ok(Delta(Target(op), UpdateFile));
      }
    }

    /** Atomic per operation: when operation `done` fails, the files are exactly those that
        the operations before it produce, and the error says why it failed. */
    method ApplyOps(ops: seq<FileOp>) returns (r: Result<seq<Delta>, PatchError>, ghost done: nat)
      modifies this
      ensures done <= |ops| && PerformsAll(ops[..done], old(files), files)
      ensures r.Ok? <==> done == |ops|
      ensures r.Ok? ==> |r.value| == |ops|
      ensures r.Ok? ==> forall i :: 0 <= i < |ops| ==>
        && r.value[i].action == ops[i].action
        && r.value[i].path == if ops[i].action == UpdateFile && ops[i].moveTo.Some? && ops[i].moveTo.value != ""
                              then ops[i].moveTo.value else ops[i].path
      ensures r.Err? ==> Fails(ops[done], files, r.error)
    {
      var deltas: seq<Delta> := [];
      done := 0;
      for i := 0 to |ops|
        invariant done == i && PerformsAll(ops[..i], old(files), files)
        invariant |deltas| == i
        invariant forall k :: 0 <= k < i ==>
          && deltas[k].action == ops[k].action
          && deltas[k].path == if ops[k].action == UpdateFile && ops[k].moveTo.Some? && ops[k].moveTo.value != ""
                               then ops[k].moveTo.value else ops[k].path
      {
        var delta := ApplyOp(ops[i]);
        if delta.Err? {
          return Err(delta.error), done;
        }
        assert ops[..i + 1][..i] == ops[..i];
        deltas := deltas + [delta.value];
        done := i + 1;
      }
      return Ok(deltas), done;
    }
  }

  // --- In the order given ---

  /** Each hunk takes the lines from one state to the next. */
  ghost predicate LineStates(states: seq<seq<string>>, hunks: seq<Hunk>) {
    |states| == |hunks| + 1 && forall i: nat :: i < |hunks| ==> Splices(states[i], hunks[i], states[i + 1])
  }

  lemma {:induction false} StatesOfLines(lines: seq<string>, hunks: seq<Hunk>, result: seq<string>)
      returns (states: seq<seq<string>>)
    requires SplicesAll(lines, hunks, result)
    ensures LineStates(states, hunks) && states[0] == lines && states[|hunks|] == result
  {
    if hunks == [] {
      states := [result];
    } else {
      var n := |hunks| - 1;
      var middle: seq<string> :| SplicesAll(lines, hunks[..n], middle) && Splices(middle, hunks[n], result);
      var earlier := StatesOfLines(lines, hunks[..n], middle);
      states := earlier + [result];
    }
  }

  lemma {:induction false} LinesOfStates(states: seq<seq<string>>, hunks: seq<Hunk>)
    requires LineStates(states, hunks)
    ensures SplicesAll(states[0], hunks, states[|hunks|])
  {
    if hunks != [] {
      var n := |hunks| - 1;
      LinesOfStates(states[..|hunks|], hunks[..n]);
      assert Splices(states[n], hunks[n], states[n + 1]);
    }
  }

  /** Applying hunks is applying the first one to the file, the next one to what that gives,
      and so on. */
  lemma HunksInOrder(lines: seq<string>, hunks: seq<Hunk>, result: seq<string>)
    ensures SplicesAll(lines, hunks, result)
            <==> exists states :: LineStates(states, hunks) && states[0] == lines && states[|hunks|] == result
  {
    if SplicesAll(lines, hunks, result) {
      var states := StatesOfLines(lines, hunks, result);
    }
    forall states | LineStates(states, hunks) && states[0] == lines && states[|hunks|] == result
      ensures SplicesAll(lines, hunks, result)
    {
      LinesOfStates(states, hunks);
    }
  }

  ghost predicate FileStates(states: seq<Files>, ops: seq<FileOp>) {
    |states| == |ops| + 1 && forall i: nat :: i < |ops| ==> Performs(ops[i], states[i], states[i + 1])
  }

  lemma {:induction false} StatesOfFiles(ops: seq<FileOp>, before: Files, after: Files) returns (states: seq<Files>)
    requires PerformsAll(ops, before, after)
    ensures FileStates(states, ops) && states[0] == before && states[|ops|] == after
  {
    if ops == [] {
      states := [after];
    } else {
      var n := |ops| - 1;
      var middle: Files :| PerformsAll(ops[..n], before, middle) && Performs(ops[n], middle, after);
      var earlier := StatesOfFiles(ops[..n], before, middle);
      states := earlier + [after];
    }
  }

  lemma {:induction false} FilesOfStates(states: seq<Files>, ops: seq<FileOp>)
    requires FileStates(states, ops)
    ensures PerformsAll(ops, states[0], states[|ops|])
  {
    if ops != [] {
      var n := |ops| - 1;
      FilesOfStates(states[..|ops|], ops[..n]);
      assert Performs(ops[n], states[n], states[n + 1]);
    }
  }

  /** And so are operations: each works on the files as the ones before it left them. */
  lemma OperationsInOrder(ops: seq<FileOp>, before: Files, after: Files)
    ensures PerformsAll(ops, before, after)
            <==> exists states :: FileStates(states, ops) && states[0] == before && states[|ops|] == after
  {
    if PerformsAll(ops, before, after) {
      var states := StatesOfFiles(ops, before, after);
    }
    forall states | FileStates(states, ops) && states[0] == before && states[|ops|] == after
      ensures PerformsAll(ops, before, after)
    {
      FilesOfStates(states, ops);
    }
  }

  // --- What operations do to the rest of the map ---

  /** An operation never both succeeds and fails. */
  lemma FailsMeansNoResult(op: FileOp, before: Files, after: Files, error: PatchError)
    requires Fails(op, before, error)
    ensures !Performs(op, before, after)
  {
  }

  lemma PerformsUnique(op: FileOp, before: Files, a: Files, b: Files)
    requires Performs(op, before, a) && Performs(op, before, b)
    ensures a == b
  {
    if op.action == UpdateFile {
      var x: seq<string> :| SplicesAll(before[op.path], op.hunks, x) && a == Moved(op, before, x);
      var y: seq<string> :| SplicesAll(before[op.path], op.hunks, y) && b == Moved(op, before, y);
      SplicesAllUnique(before[op.path], op.hunks, x, y);
    }
  }

  ghost predicate Names(op: FileOp, path: string) {
    path == op.path || (op.action == UpdateFile && path == Target(op))
  }

  /** Files that no operation names stay as they are. */
  lemma {:induction false} UnnamedFilesUntouched(ops: seq<FileOp>, before: Files, after: Files, path: string)
    requires PerformsAll(ops, before, after) && forall i :: 0 <= i < |ops| ==> !Names(ops[i], path)
    ensures path in after <==> path in before
    ensures path in before ==> after[path] == before[path]
  {
    if ops != [] {
      var n := |ops| - 1;
      var middle: Files :| PerformsAll(ops[..n], before, middle) && Performs(ops[n], middle, after);
      UnnamedFilesUntouched(ops[..n], before, middle, path);
      assert !Names(ops[n], path);
    }
  }

  /** A move takes the file along: its new text stands at the new path, the old path is gone
      unless it is the new one, and no other file changes; nothing else is such an operation. */
  lemma MoveRemovesOldPath(op: FileOp, before: Files, after: Files, p: string)
    requires op.action == UpdateFile && op.moveTo == Some(p) && p != ""
    ensures Performs(op, before, after) <==>
      && op.path in before
      && p in after
      && SplicesAll(before[op.path], op.hunks, after[p])
      && (op.path in after <==> p == op.path)
      && forall other :: other != p && other != op.path ==>
           (other in after <==> other in before) && (other in before ==> after[other] == before[other])
  {
    if op.path in before && p in after {
      var moved := before[p := after[p]];
      assert Moved(op, before, after[p]) == if p == op.path then moved else moved - {op.path};
    }
  }

  /** Without a new path the file is rewritten in place. */
  lemma UpdateInPlace(op: FileOp, before: Files, after: Files)
    requires op.action == UpdateFile && (op.moveTo == None || op.moveTo == Some(""))
    ensures Performs(op, before, after) <==>
      && op.path in before
      && op.path in after
      && SplicesAll(before[op.path], op.hunks, after[op.path])
      && after == before[op.path := after[op.path]]
  {
    if op.path in before && op.path in after {
      assert Moved(op, before, after[op.path]) == before[op.path := after[op.path]];
    }
  }

  /** Adding writes the body, replacing any file of that path; deleting removes the file. */
  lemma AddAndDelete(op: FileOp, before: Files, after: Files)
    requires op.action != UpdateFile
    ensures op.action == AddFile ==> (Performs(op, before, after) <==> after == before[op.path := op.content])
    ensures op.action == DeleteFile ==> (Performs(op, before, after) <==> op.path in before && after == before - {op.path})
  {
  }

  /** An operation fails when the file to delete or update is missing, or when one of its
      hunks, taken in order, cannot be placed. */
  lemma WhyItFails(op: FileOp, before: Files, error: PatchError)
    ensures op.action == AddFile ==> !Fails(op, before, error)
    ensures op.action == DeleteFile ==> (Fails(op, before, error) <==> op.path !in before && error == DeleteMissing(op.path))
    ensures op.action == UpdateFile && op.path !in before ==> (Fails(op, before, error) <==> error == UpdateMissing(op.path))
    ensures op.action == UpdateFile && op.path in before ==>
      (Fails(op, before, error) <==>
        && error == HunkNotFound(op.path)
        && exists n: nat, reached: seq<string> ::
             n < |op.hunks| && SplicesAll(before[op.path], op.hunks[..n], reached) && !Applies(reached, op.hunks[n]))
  {
    if op.action == UpdateFile && op.path in before {
      var lines := before[op.path];
      if AppliesAll(lines, op.hunks) {
        forall n: nat, reached: seq<string> | n < |op.hunks| && SplicesAll(lines, op.hunks[..n], reached)
          ensures Applies(reached, op.hunks[n])
        {
          if !Applies(reached, op.hunks[n]) {
            StuckStaysStuck(lines, op.hunks, n, reached);
          }
        }
      } else {
        var n, reached := FailingHunk(lines, op.hunks);
        assert SplicesAll(lines, op.hunks[..n], reached);
      }
    }
  }
}
