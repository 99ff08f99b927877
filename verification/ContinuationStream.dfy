/** The streaming form of overlap removal: only an overlap-sized prefix is held
    back, and the joined output does not depend on how the text is cut. */
module ContinuationStream {
  import opened Text
  import opened Continuation

  datatype BufferState = BufferState(existing: string, window: nat, prefix: string, resolved: bool) {
    ghost predicate Valid() {
      && window >= 1
      && |prefix| <= window
      && (!resolved ==> |prefix| < window)
    }
  }

  function Initial(existing: string, comparisonWindow: int): BufferState {
    BufferState(existing, Max(1, comparisonWindow), "", false)
  }

  /** The state after a chunk, and the text it releases. */
  ghost function Fed(s: BufferState, chunk: string): (BufferState, string)
    requires s.Valid()
  {
    var text := s.prefix + chunk;
    if s.resolved then (s, chunk)
    else if |text| < s.window then (s.(prefix := text), "")
    else (s.(prefix := text[..s.window], resolved := true),
          NovelText(s.existing, text[..s.window], s.window) + text[s.window..])
  }

  ghost function Flushed(s: BufferState): (BufferState, string) {
    if s.resolved then (s, "")
    else (s.(resolved := true), NovelText(s.existing, s.prefix, s.window))
  }

  class ContinuationBuffer {
    const existing: string
    const window: nat
    var prefix: string
    var resolved: bool

    ghost function State(): BufferState
      reads this
    {
      BufferState(existing, window, prefix, resolved)
    }

    ghost predicate Valid()
      reads this
    {
      State().Valid()
    }

    constructor (existing: string, comparisonWindow: int)
      ensures Valid() && State() == Initial(existing, comparisonWindow)
    {
      this.existing := existing;
      this.window := Max(1, comparisonWindow);
      this.prefix := "";
      this.resolved := false;
    }

    method Feed(chunk: string) returns (out: string)
      requires Valid()
      modifies this
      ensures Valid() && (State(), out) == Fed(old(State()), chunk)
    {
      if chunk == "" {
        assert prefix + chunk == prefix;
        return "";
      }
      if resolved {
        return chunk;
      }
      ghost var text := prefix + chunk;
      var needed := window - |prefix|;
      prefix := prefix + chunk[..Min(needed, |chunk|)];
      var remainder := chunk[Min(needed, |chunk|)..];
      if |prefix| < window {
        assert prefix == text;
        return "";
      }
      assert prefix == text[..window] && remainder == text[window..];
      resolved := true;
      var novel := ContinuationNovelText(existing, prefix, window);
      out := novel + remainder;
    }

    method Flush() returns (out: string)
      requires Valid()
      modifies this
      ensures Valid() && (State(), out) == Flushed(old(State()))
    {
      if resolved {
        return "";
      }
      resolved := true;
      out := ContinuationNovelText(existing, prefix, window);
    }
  }

  // --- Whole runs ---

  /** The joined output of feeding every chunk and then flushing. */
  ghost function Output(s: BufferState, chunks: seq<string>): string
    requires s.Valid()
    decreases |chunks|
  {
    if chunks == [] then Flushed(s).1
    else
      var (s', out) := Fed(s, chunks[0]);
      out + Output(s', chunks[1..])
  }

  /** The same text handled as one piece: overlap is looked for in the first window only. */
  ghost function Streamed(existing: string, text: string, window: nat): string
    requires window >= 1
  {
    var held := FirstChars(text, window);
    NovelText(existing, held, window) + text[|held|..]
  }

  lemma {:induction false} ResolvedPassesThrough(s: BufferState, chunks: seq<string>)
    requires s.Valid() && s.resolved
    ensures Output(s, chunks) == Concat(chunks)
    decreases |chunks|
  {
    if chunks != [] {
      ResolvedPassesThrough(s, chunks[1..]);
    }
  }

  /** Once a window is full, what follows it passes through. */
  lemma ReleasedIsStreamed(existing: string, text: string, rest: string, window: nat)
    requires window >= 1 && |text| >= window
    ensures NovelText(existing, text[..window], window) + text[window..] + rest == Streamed(existing, text + rest, window)
  {
    assert FirstChars(text + rest, window) == text[..window];
    assert (text + rest)[window..] == text[window..] + rest;
    Associate(NovelText(existing, text[..window], window), text[window..], rest);
  }

  lemma {:induction false} OutputFromHeld(s: BufferState, chunks: seq<string>)
    requires s.Valid() && !s.resolved
    ensures Output(s, chunks) == Streamed(s.existing, s.prefix + Concat(chunks), s.window)
    decreases |chunks|
  {
    if chunks == [] {
      assert s.prefix + Concat(chunks) == s.prefix;
      assert FirstChars(s.prefix, s.window) == s.prefix;
    } else {
      var text, rest := s.prefix + chunks[0], Concat(chunks[1..]);
      var (s', out) := Fed(s, chunks[0]);
      Associate(s.prefix, chunks[0], rest);
      if |text| < s.window {
        OutputFromHeld(s', chunks[1..]);
      } else {
        ResolvedPassesThrough(s', chunks[1..]);
        ReleasedIsStreamed(s.existing, text, rest, s.window);
      }
    }
  }

  /** Every way of cutting the text into chunks gives the same joined output. */
  lemma ChunkingIrrelevant(existing: string, comparisonWindow: int, chunks: seq<string>)
    ensures Initial(existing, comparisonWindow).Valid()
    ensures Output(Initial(existing, comparisonWindow), chunks)
         == Streamed(existing, Concat(chunks), Max(1, comparisonWindow))
  {
    OutputFromHeld(Initial(existing, comparisonWindow), chunks);
    assert "" + Concat(chunks) == Concat(chunks);
  }

  /** A repeated full window is cut entirely. */
  lemma WholeWindowRepeated(existing: string, held: string, window: nat)
    requires window >= 1 && |held| == window && EndsWith(existing, held)
    ensures Cut(LastChars(existing, window), held) == window
  {
    assert LastChars(existing, window) == held;
    RepeatedIsCut(held);
  }

  lemma RepeatedIsCut(held: string)
    ensures Cut(held, held) == |held|
  {
    OverlapIsEnding(held, held, |held|);
    assert held[..|held|] == held;
    CutInRange(held, held);
    CutIsGreatestRepetition(held, held, |held|);
  }

  /** Text that is neither empty nor a repetition is returned from the cut on. */
  lemma NovelTextFromCut(existing: string, text: string, window: nat, prefix: string) returns (cut: nat)
    requires window >= 1 && text != "" && existing != "" && !EndsWith(existing, text)
    requires prefix == FirstChars(text, window)
    ensures cut == Cut(LastChars(existing, window), prefix) && cut <= |prefix| <= |text|
    ensures NovelText(existing, text, window) == text[cut..]
  {
    assert Max(1, window) == window;
    CutInRange(LastChars(existing, window), prefix);
    cut := Cut(LastChars(existing, window), prefix);
  }

  lemma FirstOfHeld(held: string, window: nat)
    requires |held| <= window
    ensures FirstChars(held, window) == held
  {
  }

  /** A held window is returned from that same cut on, whether or not it is a repetition. */
  lemma HeldFromCut(existing: string, held: string, window: nat, cut: nat)
    requires window >= 1 && |held| == window && existing != ""
    requires cut == Cut(LastChars(existing, window), held) && cut <= |held|
    ensures NovelText(existing, held, window) == held[cut..]
  {
    if EndsWith(existing, held) {
      WholeWindowRepeated(existing, held, window);
      RepeatIsDropped(existing, held, window);
    } else {
      FirstOfHeld(held, window);
      var same := NovelTextFromCut(existing, held, window, held);
    }
  }

  lemma StreamedParts(existing: string, text: string, window: nat)
    requires window >= 1 && |text| >= window
    ensures Streamed(existing, text, window) == NovelText(existing, text[..window], window) + text[window..]
  {
  }

  lemma CutThenRest(text: string, n: nat, cut: nat)
    requires cut <= n <= |text|
    ensures text[..n][cut..] + text[n..] == text[cut..]
  {
  }

  /** The window argument counts as at least one. */
  lemma WindowAtLeastOne(existing: string, text: string, comparisonWindow: int)
    ensures NovelText(existing, text, comparisonWindow) == NovelText(existing, text, Max(1, comparisonWindow))
  {
    assert Max(1, Max(1, comparisonWindow)) == Max(1, comparisonWindow);
  }

  /** Text that fits the window is handled exactly as in one shot. */
  lemma ShortTextStreams(existing: string, text: string, comparisonWindow: int)
    requires |text| <= Max(1, comparisonWindow)
    ensures Streamed(existing, text, Max(1, comparisonWindow)) == NovelText(existing, text, comparisonWindow)
  {
    WindowAtLeastOne(existing, text, comparisonWindow);
    assert FirstChars(text, Max(1, comparisonWindow)) == text;
  }

  /** Longer text is handled as in one shot when the existing text does not end with it. */
  lemma LongTextStreams(existing: string, text: string, window: nat)
    requires window >= 1 && |text| > window && existing != "" && !EndsWith(existing, text)
    ensures Streamed(existing, text, window) == NovelText(existing, text, window)
  {
    var held := text[..window];
    var cut := NovelTextFromCut(existing, text, window, held);
    HeldFromCut(existing, held, window, cut);
    CutThenRest(text, window, cut);
    StreamedParts(existing, text, window);
  }

  /** What follows the first window is always released. */
  lemma RestIsReleased(existing: string, text: string, window: nat)
    requires window >= 1 && |text| > window
    ensures Streamed(existing, text, window) != ""
  {
  }

  lemma EmptyKeepsAll(text: string, window: nat)
    requires window >= 1 && |text| > window
    ensures Streamed("", text, window) == text == NovelText("", text, window)
  {
    assert text[..window] + text[window..] == text;
  }

  /** The streaming output is the one-shot result in every case but one: text longer
      than the window that the existing text already ends with is dropped by the
      one-shot form and not by the buffer. */
  lemma StreamingIsOneShot(existing: string, text: string, comparisonWindow: int)
    ensures Streamed(existing, text, Max(1, comparisonWindow)) == NovelText(existing, text, comparisonWindow)
            <==> !(|text| > Max(1, comparisonWindow) && EndsWith(existing, text))
  {
    var window: nat := Max(1, comparisonWindow);
    WindowAtLeastOne(existing, text, comparisonWindow);
    if |text| <= window {
      ShortTextStreams(existing, text, comparisonWindow);
    } else if EndsWith(existing, text) {
      RestIsReleased(existing, text, window);
      RepeatIsDropped(existing, text, window);
    } else if existing == "" {
      EmptyKeepsAll(text, window);
    } else {
      LongTextStreams(existing, text, window);
    }
  }

  lemma RepeatIsDropped(existing: string, text: string, window: nat)
    requires text != "" && EndsWith(existing, text)
    ensures NovelText(existing, text, window) == ""
  {
  }
}
