/** The streaming writer: bounded rounds of provider dispatches whose text is
    merged into one assistant message and emitted token by token. */
module StreamingWriter {
  import opened Results
  import opened Text
  import opened Whitespace
  import opened Continuation
  import opened ContinuationStream

  /** One provider chunk; `cancelled` says that a cancellation is seen when it arrives. */
  datatype Delta = Delta(cancelled: bool, content: string, finishReason: Option<string>)

  /** What happens on one dispatch: the chunks, then an exception from the stream
      or its guard (`raised`), or from the budget check that follows (`overBudget`). */
  datatype Script = Script(deltas: seq<Delta>, raised: bool, overBudget: bool)

  /** The outcomes between dispatches: the rounds at which a cancellation is seen or the
      checkpoint cannot be persisted, and whether persisting the last checkpoint fails. */
  datatype Control = Control(
    cancelAtTop: set<nat>,
    cancelBeforeFollowUp: set<nat>,
    persistFails: set<nat>,
    cancelAfterPersist: set<nat>,
    finalPersistFails: bool)

  datatype Outcome = Finished | Failed

  /** The provider's behaviour on its dispatch number `i`. */
  function At(provider: nat -> Script, i: nat): Script {
    provider(i)
  }

  /** One dispatch of the run: its round, which of the two tries it is, the text
      the provider gave and the reason it stopped. */
  datatype Attempt = Attempt(round: nat, try: nat, raw: string, finish: string)

  /** The non-empty contents received before a cancellation. */
  function Contents(deltas: seq<Delta>): seq<string> {
    if deltas == [] || deltas[0].cancelled then []
    else (if deltas[0].content != "" then [deltas[0].content] else []) + Contents(deltas[1..])
  }

  /** A non-empty reason on a chunk replaces the current one. */
  function ReasonAfter(delta: Delta, current: string): string {
    match delta.finishReason
    case Some(reason) => if reason != "" then reason else current
    case None => current
  }

  function FinishReason(deltas: seq<Delta>, current: string): string {
    if deltas == [] then current
    else if deltas[0].cancelled then "cancelled"
    else FinishReason(deltas[1..], ReasonAfter(deltas[0], current))
  }

  lemma NextDelta(deltas: seq<Delta>, i: nat, current: string)
    requires i < |deltas| && !deltas[i].cancelled
    ensures var rest := Contents(deltas[i + 1..]);
            && Contents(deltas[i..]) == (if deltas[i].content != "" then [deltas[i].content] + rest else rest)
            && Concat(Contents(deltas[i..])) == deltas[i].content + Concat(rest)
    ensures FinishReason(deltas[i..], current) == FinishReason(deltas[i + 1..], ReasonAfter(deltas[i], current))
  {
  }

  lemma NoMoreDeltas(deltas: seq<Delta>, i: nat, current: string)
    requires i <= |deltas| && (i < |deltas| ==> deltas[i].cancelled)
    ensures Contents(deltas[i..]) == []
    ensures FinishReason(deltas[i..], current) == if i < |deltas| then "cancelled" else current
  {
  }

  /** Without a cancellation among them, the contents are those of all chunks in order; a
      cancelled chunk and everything after it is dropped, and that is the reason. */
  lemma {:induction false} ContentsAreAll(deltas: seq<Delta>, n: nat, current: string)
    requires n <= |deltas| && (forall i :: 0 <= i < n ==> !deltas[i].cancelled) && (n < |deltas| ==> deltas[n].cancelled)
    ensures Concat(Contents(deltas)) == Concat(seq(n, i requires 0 <= i < n => deltas[i].content))
    ensures n < |deltas| ==> FinishReason(deltas, current) == "cancelled"
    decreases n
  {
    if n > 0 {
      ContentsAreAll(deltas[1..], n - 1, ReasonAfter(deltas[0], current));
      var all := seq(n, i requires 0 <= i < n => deltas[i].content);
      assert all[1..] == seq(n - 1, i requires 0 <= i < n - 1 => deltas[1..][i].content);
      NextDelta(deltas, 0, current);
      assert deltas[0..] == deltas;
    }
  }

  /** Without a cancellation, the reason is the last one given that is not empty. */
  lemma {:induction false} LastReasonCounts(deltas: seq<Delta>, k: nat, reason: string, current: string)
    requires forall i :: 0 <= i < |deltas| ==> !deltas[i].cancelled
    requires k < |deltas| && deltas[k].finishReason == Some(reason) && reason != ""
    requires forall i :: k < i < |deltas| ==> deltas[i].finishReason == None || deltas[i].finishReason == Some("")
    ensures FinishReason(deltas, current) == reason
    decreases |deltas|
  {
    if k == 0 {
      NoReasonKeeps(deltas[1..], reason);
    } else {
      LastReasonCounts(deltas[1..], k - 1, reason, ReasonAfter(deltas[0], current));
    }
  }

  /** And the one from before when there is none. */
  lemma {:induction false} NoReasonKeeps(deltas: seq<Delta>, current: string)
    requires forall i :: 0 <= i < |deltas| ==> !deltas[i].cancelled
    requires forall i :: 0 <= i < |deltas| ==> deltas[i].finishReason == None || deltas[i].finishReason == Some("")
    ensures FinishReason(deltas, current) == current
    decreases |deltas|
  {
    if deltas != [] {
      NoReasonKeeps(deltas[1..], current);
    }
  }

  predicate ShouldContinue(maxRounds: nat, finishReason: string, round: nat, pendingToolCalls: bool, cancelled: bool) {
    finishReason == "length" && round < maxRounds && !pendingToolCalls && !cancelled
  }

  /** The text one attempt adds: everything in the first round, and only what the
      buffer lets through in a follow-up round. */
  ghost function Contribution(full: string, attempt: Attempt, window: nat): string
    requires window >= 1
  {
    if attempt.round == 0 then attempt.raw else Streamed(full, attempt.raw, window)
  }

  /** The message after all attempts. */
  ghost function Folded(initial: string, attempts: seq<Attempt>, window: nat): string
    requires window >= 1
  {
    if attempts == [] then initial
    else
      var full := Folded(initial, attempts[..|attempts| - 1], window);
      full + Contribution(full, attempts[|attempts| - 1], window)
  }

  /** `attempt` is what the script makes of a dispatch in this round. */
  ghost predicate Records(attempt: Attempt, script: Script) {
    && attempt.raw == Concat(Contents(script.deltas))
    && attempt.finish == FinishReason(script.deltas, "stop")
  }

  ghost predicate Broke(script: Script) {
    script.raised || script.overBudget
  }

  ghost predicate LastBroke(attempts: seq<Attempt>, provider: nat -> Script) {
    attempts != [] && Broke(At(provider, |attempts| - 1))
  }

  /** A blank first try that was not cancelled is tried again. */
  ghost predicate RetryDue(last: Attempt) {
    last.try == 1 && last.raw == "" && last.finish != "cancelled"
  }

  /** Another round is decided on and its checkpoint persisted. */
  ghost predicate RoundPermitted(last: Attempt, control: Control, maxRounds: nat) {
    && !RetryDue(last) && last.finish == "length" && last.round < maxRounds
    && last.round !in control.cancelBeforeFollowUp
    && last.round + 1 !in control.persistFails && last.round + 1 !in control.cancelAfterPersist
  }

  ghost predicate RoundDue(last: Attempt, control: Control, maxRounds: nat) {
    RoundPermitted(last, control, maxRounds) && last.round + 1 !in control.cancelAtTop
  }

  /** `b` is dispatched right after `a`: a second try of a blank round, or the first try of
      the next round. */
  ghost predicate Follows(a: Attempt, b: Attempt, control: Control, maxRounds: nat) {
    if RetryDue(a) then b.round == a.round && b.try == 2
    else RoundDue(a, control, maxRounds) && b.round == a.round + 1 && b.try == 1
  }

  ghost predicate ValidTrace(attempts: seq<Attempt>, provider: nat -> Script, control: Control, maxRounds: nat) {
    && (attempts != [] ==> attempts[0].round == 0 && attempts[0].try == 1)
    && (forall i: nat :: i < |attempts| ==> Records(attempts[i], At(provider, i)))
    && (forall i: nat :: i < |attempts| - 1 ==>
          Follows(attempts[i], attempts[i + 1], control, maxRounds) && !Broke(At(provider, i)))
  }

  /** Nothing is due after the last attempt. */
  ghost predicate Complete(attempts: seq<Attempt>, provider: nat -> Script, control: Control, maxRounds: nat) {
    && attempts != []
    && var last := attempts[|attempts| - 1];
    Broke(At(provider, |attempts| - 1)) || (!RetryDue(last) && !RoundDue(last, control, maxRounds))
  }

  /** The run has come to the top of `round`. */
  ghost predicate AtTop(attempts: seq<Attempt>, provider: nat -> Script, control: Control, maxRounds: nat, round: nat) {
    if attempts == [] then round == 0
    else
      var last := attempts[|attempts| - 1];
      last.round + 1 == round && RoundPermitted(last, control, maxRounds) && !Broke(At(provider, |attempts| - 1))
  }

  /** A try may start: the first one at the top of a round that nothing cancels, the second
      after a blank first one. */
  ghost predicate ReadyToTry(attempts: seq<Attempt>, provider: nat -> Script, control: Control, maxRounds: nat,
                             round: nat, try: nat) {
    if try == 1 then AtTop(attempts, provider, control, maxRounds, round) && (round == 0 || round !in control.cancelAtTop)
    else try == 2 && ReadyForRetry(attempts, provider, round)
  }

  /** The round's first try came back blank. */
  ghost predicate ReadyForRetry(attempts: seq<Attempt>, provider: nat -> Script, round: nat) {
    && attempts != []
    && var last := attempts[|attempts| - 1];
    last.round == round && RetryDue(last) && !Broke(At(provider, |attempts| - 1))
  }

  lemma TraceAppend(attempts: seq<Attempt>, next: Attempt, provider: nat -> Script, control: Control, maxRounds: nat, round: nat)
    requires ValidTrace(attempts, provider, control, maxRounds) && round <= maxRounds
    requires Records(next, At(provider, |attempts|)) && next.round == round
    requires ReadyToTry(attempts, provider, control, maxRounds, round, next.try)
    ensures ValidTrace(attempts + [next], provider, control, maxRounds)
  {
    var longer := attempts + [next];
    if attempts != [] {
      ReadyFollows(attempts, next, provider, control, maxRounds, round);
    }
    forall i: nat | i < |longer| - 1
      ensures Follows(longer[i], longer[i + 1], control, maxRounds) && !Broke(At(provider, i))
    {
      if i < |attempts| - 1 {
        assert Follows(attempts[i], attempts[i + 1], control, maxRounds);
      } else {
        assert longer[i] == attempts[|attempts| - 1] && longer[i + 1] == next;
      }
    }
  }

  lemma ReadyFollows(attempts: seq<Attempt>, next: Attempt, provider: nat -> Script, control: Control, maxRounds: nat, round: nat)
    requires attempts != [] && next.round == round
    requires ReadyToTry(attempts, provider, control, maxRounds, round, next.try)
    ensures Follows(attempts[|attempts| - 1], next, control, maxRounds) && !Broke(At(provider, |attempts| - 1))
  {
  }

  lemma FoldedAppend(initial: string, attempts: seq<Attempt>, next: Attempt, window: nat)
    requires window >= 1
    ensures var full := Folded(initial, attempts, window);
            Folded(initial, attempts + [next], window) == full + Contribution(full, next, window)
  {
  }

  lemma TokensAssociate(tokens: seq<string>, token: string, rest: seq<string>)
    ensures tokens + [token] + rest == tokens + ([token] + rest)
  {
  }

  /** How a run ends after an unbroken last attempt, by that attempt's reason and round. */
  ghost predicate EndsAs(outcome: Outcome, reason: string, last: string, round: nat, control: Control, maxRounds: nat) {
    var followUp := last == "length" && round < maxRounds && round !in control.cancelBeforeFollowUp;
    var cancelled := last == "length" && round in control.cancelBeforeFollowUp;
    && (followUp && round + 1 in control.persistFails ==> outcome.Failed? && reason == "length")
    && (followUp && round + 1 !in control.persistFails ==>
          reason == "cancelled" && (outcome.Failed? <==> control.finalPersistFails))
    && (cancelled ==> reason == "cancelled" && (outcome.Failed? <==> control.finalPersistFails))
    && (!followUp && !cancelled ==> reason == last && (outcome.Failed? <==> round > 0 && control.finalPersistFails))
  }

  ghost predicate EndsAfter(outcome: Outcome, reason: string, attempts: seq<Attempt>, control: Control, maxRounds: nat) {
    && attempts != []
    && var last := attempts[|attempts| - 1];
    EndsAs(outcome, reason, last.finish, last.round, control, maxRounds)
  }

  lemma EndsAfterRound(outcome: Outcome, final: string, attempts: seq<Attempt>, provider: nat -> Script, control: Control,
                       maxRounds: nat, round: nat, reason: string)
    requires RoundDone(attempts, provider, round, reason) && EndsAs(outcome, final, reason, round, control, maxRounds)
    ensures EndsAfter(outcome, final, attempts, control, maxRounds)
  {
  }

  lemma TopIsReady(attempts: seq<Attempt>, provider: nat -> Script, control: Control, maxRounds: nat, round: nat)
    requires AtTop(attempts, provider, control, maxRounds, round) && (round == 0 || round !in control.cancelAtTop)
    ensures ReadyToTry(attempts, provider, control, maxRounds, round, 1)
  {
  }

  lemma CancelledAtTop(attempts: seq<Attempt>, provider: nat -> Script, control: Control, maxRounds: nat, round: nat,
                       outcome: Outcome)
    requires AtTop(attempts, provider, control, maxRounds, round) && round != 0 && round in control.cancelAtTop
    requires outcome == if control.finalPersistFails then Failed else Finished
    ensures Complete(attempts, provider, control, maxRounds) && !LastBroke(attempts, provider)
    ensures EndsAfter(outcome, "cancelled", attempts, control, maxRounds)
  {
  }

  /** The round is over: its last try failed on nothing and is not tried again. */
  ghost predicate RoundDone(attempts: seq<Attempt>, provider: nat -> Script, round: nat, reason: string) {
    && attempts != []
    && var last := attempts[|attempts| - 1];
    last.round == round && last.finish == reason && !RetryDue(last) && !Broke(At(provider, |attempts| - 1))
  }

  /** What one more try leads to. */
  lemma AfterTry(before: seq<Attempt>, attempt: Attempt, provider: nat -> Script)
    requires 1 <= attempt.try <= 2
    ensures var attempts, script := before + [attempt], At(provider, |before|);
      && (script.raised || script.overBudget ==> LastBroke(attempts, provider))
      && (!script.raised && !script.overBudget ==>
            if attempt.raw != "" || attempt.finish == "cancelled" || attempt.try == 2
            then RoundDone(attempts, provider, attempt.round, attempt.finish)
            else ReadyForRetry(attempts, provider, attempt.round))
  {
  }

  /** A round that is over leads to the top of the next one or to the end of the run. */
  lemma RoundEnded(attempts: seq<Attempt>, provider: nat -> Script, control: Control, maxRounds: nat, round: nat,
                   reason: string, more: bool)
    requires RoundDone(attempts, provider, round, reason)
    requires more <==> reason == "length" && round < maxRounds && round !in control.cancelBeforeFollowUp
                       && round + 1 !in control.persistFails && round + 1 !in control.cancelAfterPersist
    ensures !LastBroke(attempts, provider)
    ensures more ==> AtTop(attempts, provider, control, maxRounds, round + 1)
    ensures !more ==> Complete(attempts, provider, control, maxRounds)
  {
  }

  lemma BrokenIsComplete(attempts: seq<Attempt>, provider: nat -> Script, control: Control, maxRounds: nat)
    requires LastBroke(attempts, provider)
    ensures Complete(attempts, provider, control, maxRounds)
  {
  }

  class Writer {
    const maxRounds: nat
    const window: nat
    var full: string
    var content: string
    var tokens: seq<string>
    var round: nat
    var dispatches: nat
    var finishReason: string
    ghost const initial: string
    ghost var attempts: seq<Attempt>

    /** What the reader of the message sees at every point. */
    ghost predicate Consistent()
      reads this`full, this`content, this`tokens
    {
      && window >= 1
      && content == full
      && content == initial + Concat(tokens)
    }

    constructor (maxRounds: nat, window: nat, content: string)
      requires window >= 1
      ensures Consistent() && this.maxRounds == maxRounds && this.window == window && initial == content
      ensures round == 0 && dispatches == 0 && attempts == [] && full == content
    {
      this.maxRounds, this.window := maxRounds, window;
      this.full, this.content, this.initial := content, content, content;
      this.tokens, this.round, this.dispatches, this.finishReason := [], 0, 0, "stop";
      this.attempts := [];
      new;
      assert content + Concat([]) == content;
    }

    /** The trace so far and the message it makes. */
    ghost predicate Tracks(provider: nat -> Script, control: Control)
      reads this`attempts, this`full
    {
      && window >= 1 && ValidTrace(attempts, provider, control, maxRounds)
      && full == Folded(initial, attempts, window)
    }

    /** Append novel text to the message and emit it as a token. */
    method Emit(novel: string)
      requires Consistent()
      modifies this`full, this`content, this`tokens
      ensures Consistent() && full == old(full) + novel
      ensures tokens == if novel != "" then old(tokens) + [novel] else old(tokens)
    {
      if novel != "" {
        ConcatAppend(tokens, novel);
        full := full + novel;
        content := full;
        tokens := tokens + [novel];
      } else {
        assert full + novel == full;
      }
    }

    /** One provider dispatch, including the flush that every way out of it performs. */
    method Dispatch(script: Script) returns (raw: string)
      requires Consistent()
      modifies this`full, this`content, this`tokens, this`dispatches, this`finishReason
      ensures Consistent()
      ensures dispatches == old(dispatches) + 1
      ensures raw == Concat(Contents(script.deltas))
      ensures finishReason == FinishReason(script.deltas, "stop")
      ensures full == old(full) + (if round == 0 then raw else Streamed(old(full), raw, window))
    {
      dispatches := dispatches + 1;
      finishReason := "stop";
      if round == 0 {
        raw := DispatchDirect(script.deltas);
      } else {
        raw := DispatchBuffered(script.deltas);
      }
    }

    /** The chunk loop of the first round: every content chunk is novel. */
    method DispatchDirect(deltas: seq<Delta>) returns (raw: string)
      requires Consistent()
      modifies this`full, this`content, this`tokens, this`finishReason
      ensures Consistent()
      ensures raw == Concat(Contents(deltas))
      ensures finishReason == FinishReason(deltas, old(finishReason))
      ensures full == old(full) + raw
      ensures tokens == old(tokens) + Contents(deltas)
    {
      raw := "";
      ghost var emitted := tokens + Contents(deltas);
      assert deltas[0..] == deltas;
      ghost var all := Concat(Contents(deltas));
      ghost var result := full + all;
      var i := 0;
      while i < |deltas| && !deltas[i].cancelled
        invariant i <= |deltas| && Consistent()
        invariant full + Concat(Contents(deltas[i..])) == result
        invariant raw + Concat(Contents(deltas[i..])) == all
        invariant tokens + Contents(deltas[i..]) == emitted
        invariant FinishReason(deltas[i..], finishReason) == FinishReason(deltas, old(finishReason))
      {
        NextDelta(deltas, i, finishReason);
        Associate(full, deltas[i].content, Concat(Contents(deltas[i + 1..])));
        Associate(raw, deltas[i].content, Concat(Contents(deltas[i + 1..])));
        raw := raw + deltas[i].content;
        TokensAssociate(tokens, deltas[i].content, Contents(deltas[i + 1..]));
        Emit(deltas[i].content);
        finishReason := ReasonAfter(deltas[i], finishReason);
        i := i + 1;
      }
      NoMoreDeltas(deltas, i, finishReason);
      if i < |deltas| {
        finishReason := "cancelled";
      }
      assert raw + "" == raw && full + "" == full && tokens + [] == tokens;
    }

    /** A content chunk of a follow-up round passes through the overlap buffer: what is
        still to come, `all`, becomes `rest`. */
    method Receive(buffer: ContinuationBuffer, chunk: string, ghost all: seq<string>, ghost rest: seq<string>)
      requires Consistent() && buffer.Valid()
      requires all == if chunk != "" then [chunk] + rest else rest
      modifies this`full, this`content, this`tokens, buffer
      ensures Consistent() && buffer.Valid()
      ensures full + Output(buffer.State(), rest) == old(full + Output(buffer.State(), all))
    {
      if chunk != "" {
        OutputCons(full, buffer.State(), chunk, rest);
        var novel := buffer.Feed(chunk);
        Emit(novel);
      }
    }

    /** The chunk loop of a follow-up round: chunks go through a fresh overlap buffer. */
    method DispatchBuffered(deltas: seq<Delta>) returns (raw: string)
      requires Consistent()
      modifies this`full, this`content, this`tokens, this`finishReason
      ensures Consistent()
      ensures raw == Concat(Contents(deltas))
      ensures finishReason == FinishReason(deltas, old(finishReason))
      ensures full == old(full) + Streamed(old(full), raw, window)
    {
      raw := "";
      var buffer := new ContinuationBuffer(full, window);
      ChunkingIrrelevant(full, window, Contents(deltas));
      ghost var result := full + Streamed(full, Concat(Contents(deltas)), window);
      var i := 0;
      while i < |deltas| && !deltas[i].cancelled
        invariant i <= |deltas| && Consistent() && fresh(buffer) && buffer.Valid()
        invariant full + Output(buffer.State(), Contents(deltas[i..])) == result
        invariant raw + Concat(Contents(deltas[i..])) == Concat(Contents(deltas))
        invariant FinishReason(deltas[i..], finishReason) == FinishReason(deltas, old(finishReason))
      {
        NextDelta(deltas, i, finishReason);
        Associate(raw, deltas[i].content, Concat(Contents(deltas[i + 1..])));
        raw := raw + deltas[i].content;
        Receive(buffer, deltas[i].content, Contents(deltas[i..]), Contents(deltas[i + 1..]));
        finishReason := ReasonAfter(deltas[i], finishReason);
        i := i + 1;
      }
      NoMoreDeltas(deltas, i, finishReason);
      if i < |deltas| {
        finishReason := "cancelled";
      }
      assert raw + "" == raw;
      var buffered := buffer.Flush();
      Emit(buffered);
    }

    /** The whole loop, for any provider and any cancellation or persistence outcome. */
    method Stream(provider: nat -> Script, control: Control) returns (outcome: Outcome)
      requires Consistent() && round == 0 && dispatches == 0 && attempts == [] && full == initial
      modifies this
      ensures Consistent()
      ensures ValidTrace(attempts, provider, control, maxRounds) && |attempts| == dispatches
      ensures Complete(attempts, provider, control, maxRounds)
      ensures content == Folded(initial, attempts, window)
      ensures outcome.Finished? ==> finishReason != "length" || round == maxRounds
      ensures outcome.Failed? ==> control.finalPersistFails || round in control.persistFails || LastBroke(attempts, provider)
      ensures LastBroke(attempts, provider) ==> outcome.Failed?
      ensures !LastBroke(attempts, provider) ==> EndsAfter(outcome, finishReason, attempts, control, maxRounds)
    {
      while true
        invariant round <= maxRounds && Consistent() && |attempts| == dispatches && Tracks(provider, control)
        invariant AtTop(attempts, provider, control, maxRounds, round)
        decreases maxRounds - round
      {
        var ended := Turn(provider, control);
        if ended.Some? {
          return ended.value;
        }
      }
    }

    /** One turn of the loop: a round and what follows it, unless a cancellation is seen first. */
    method Turn(provider: nat -> Script, control: Control) returns (ended: Option<Outcome>)
      requires round <= maxRounds && Consistent() && |attempts| == dispatches && Tracks(provider, control)
      requires AtTop(attempts, provider, control, maxRounds, round)
      modifies this`full, this`content, this`tokens, this`round, this`dispatches, this`finishReason, this`attempts
      ensures Consistent() && |attempts| == dispatches && Tracks(provider, control)
      ensures ended.None? ==> round == old(round) + 1 <= maxRounds && AtTop(attempts, provider, control, maxRounds, round)
      ensures ended.Some? ==> Complete(attempts, provider, control, maxRounds)
      ensures ended == Some(Finished) ==> finishReason != "length" || round == maxRounds
      ensures ended == Some(Failed) ==>
        control.finalPersistFails || round in control.persistFails || LastBroke(attempts, provider)
      ensures ended.Some? && LastBroke(attempts, provider) ==> ended.value.Failed?
      ensures ended.Some? && !LastBroke(attempts, provider) ==>
        EndsAfter(ended.value, finishReason, attempts, control, maxRounds)
    {
      if round != 0 && round in control.cancelAtTop {
        finishReason := "cancelled";
        var outcome := if control.finalPersistFails then Failed else Finished;
        CancelledAtTop(attempts, provider, control, maxRounds, round, outcome);
        return Some(outcome);
      }
      TopIsReady(attempts, provider, control, maxRounds, round);
      var failed := RunRound(provider, control);
      if failed {
        BrokenIsComplete(attempts, provider, control, maxRounds);
        return Some(Failed);
      }
      ended := FollowRound(provider, control);
    }

    method FollowRound(ghost provider: nat -> Script, control: Control) returns (ended: Option<Outcome>)
      requires round <= maxRounds && RoundDone(attempts, provider, round, finishReason)
      modifies this`round, this`finishReason
      ensures ended.None? ==> round == old(round) + 1 <= maxRounds && AtTop(attempts, provider, control, maxRounds, round)
      ensures ended.Some? ==> Complete(attempts, provider, control, maxRounds) && !LastBroke(attempts, provider)
      ensures ended.Some? ==> EndsAfter(ended.value, finishReason, attempts, control, maxRounds)
      ensures ended == Some(Finished) ==> finishReason != "length" || round == maxRounds
      ensures ended == Some(Failed) ==> control.finalPersistFails || round in control.persistFails
    {
      ghost var done, reason := round, finishReason;
      ended := EndRound(control);
      RoundEnded(attempts, provider, control, maxRounds, done, reason, ended.None?);
      if ended.Some? {
        EndsAfterRound(ended.value, finishReason, attempts, provider, control, maxRounds, done, reason);
      }
    }

    /** What follows a round: one more round, or the end of the run. The checkpoint is
        persisted before another round and, if there was a follow-up or a cancellation
        of one, at the end. */
    method EndRound(control: Control) returns (ended: Option<Outcome>)
      requires round <= maxRounds
      modifies this`round, this`finishReason
      ensures ended.None? <==>
        && old(finishReason) == "length" && old(round) < maxRounds && old(round) !in control.cancelBeforeFollowUp
        && old(round) + 1 !in control.persistFails && old(round) + 1 !in control.cancelAfterPersist
      ensures ended.None? ==> round == old(round) + 1 && finishReason == "length"
      ensures ended.Some? ==> EndsAs(ended.value, finishReason, old(finishReason), old(round), control, maxRounds)
      ensures ended == Some(Finished) ==> finishReason != "length" || round == maxRounds
      ensures ended == Some(Failed) ==> control.finalPersistFails || round in control.persistFails
    {
      var cancelledBeforeFollowUp := finishReason == "length" && round in control.cancelBeforeFollowUp;
      if cancelledBeforeFollowUp {
        finishReason := "cancelled";
      }
      if !ShouldContinue(maxRounds, finishReason, round, false, finishReason == "cancelled") {
        return Some(if (round != 0 || cancelledBeforeFollowUp) && control.finalPersistFails then Failed else Finished);
      }
      round := round + 1;
      if round in control.persistFails {
        return Some(Failed);
      }
      if round in control.cancelAfterPersist {
        finishReason := "cancelled";
        return Some(if control.finalPersistFails then Failed else Finished);
      }
      return None;
    }

    /** One logical round: a dispatch and, when it comes back blank, one retry. */
    method RunRound(provider: nat -> Script, control: Control) returns (failed: bool)
      requires round <= maxRounds && Consistent() && |attempts| == dispatches && Tracks(provider, control)
      requires ReadyToTry(attempts, provider, control, maxRounds, round, 1)
      modifies this`full, this`content, this`tokens, this`dispatches, this`finishReason, this`attempts
      ensures Consistent() && |attempts| == dispatches && Tracks(provider, control) && attempts != []
      ensures failed ==> LastBroke(attempts, provider)
      ensures !failed ==> RoundDone(attempts, provider, round, finishReason)
    {
      var try := 1;
      while true
        invariant 1 <= try <= 2 && Consistent() && |attempts| == dispatches && Tracks(provider, control)
        invariant ReadyToTry(attempts, provider, control, maxRounds, round, try)
        decreases 2 - try
      {
        var script := At(provider, dispatches);
        ghost var before := attempts;
        var raw := Try(provider, control, try);
        AfterTry(before, Attempt(round, try, raw, finishReason), provider);
        if script.raised || script.overBudget {
          return true;
        }
        if raw != "" || finishReason == "cancelled" || try == 2 {
          return false;
        }
        try := try + 1;
      }
    }

    /** One dispatch, recorded in the trace. */
    method Try(provider: nat -> Script, control: Control, try: nat) returns (raw: string)
      requires round <= maxRounds && 1 <= try <= 2 && Consistent() && |attempts| == dispatches && Tracks(provider, control)
      requires ReadyToTry(attempts, provider, control, maxRounds, round, try)
      modifies this`full, this`content, this`tokens, this`dispatches, this`finishReason, this`attempts
      ensures Consistent() && |attempts| == dispatches && Tracks(provider, control)
      ensures dispatches == old(dispatches) + 1
      ensures attempts == old(attempts) + [Attempt(round, try, raw, finishReason)]
    {
      raw := Dispatch(At(provider, dispatches));
      ghost var attempt := Attempt(round, try, raw, finishReason);
      TraceAppend(attempts, attempt, provider, control, maxRounds, round);
      FoldedAppend(initial, attempts, attempt, window);
      attempts := attempts + [attempt];
    }
  }

  lemma OutputCons(full: string, s: BufferState, first: string, rest: seq<string>)
    requires s.Valid()
    ensures Fed(s, first).0.Valid()
    ensures full + Output(s, [first] + rest) == full + Fed(s, first).1 + Output(Fed(s, first).0, rest)
  {
  }

  // --- What a trace guarantees ---

  /** Attempt `i` of a valid trace is at most the second try of its round. */
  lemma {:induction false} AttemptPosition(attempts: seq<Attempt>, provider: nat -> Script, control: Control, maxRounds: nat, i: nat)
    requires ValidTrace(attempts, provider, control, maxRounds) && i < |attempts|
    ensures 1 <= attempts[i].try <= 2 && attempts[i].round <= maxRounds
    ensures i < 2 * attempts[i].round + attempts[i].try
  {
    if i > 0 {
      AttemptPosition(attempts, provider, control, maxRounds, i - 1);
      assert Follows(attempts[i - 1], attempts[i - 1 + 1], control, maxRounds);
    }
  }

  /** No provider behaviour makes the loop dispatch more than twice per permitted round. */
  lemma DispatchesBounded(attempts: seq<Attempt>, provider: nat -> Script, control: Control, maxRounds: nat)
    requires ValidTrace(attempts, provider, control, maxRounds)
    ensures |attempts| <= 2 * (maxRounds + 1)
  {
    if attempts != [] {
      AttemptPosition(attempts, provider, control, maxRounds, |attempts| - 1);
    }
  }

  lemma {:induction false} ConcatHolds(parts: seq<string>, m: nat)
    requires m < |parts|
    ensures |Concat(parts)| >= |parts[m]|
  {
    if m > 0 {
      ConcatHolds(parts[1..], m - 1);
    }
  }

  /** What the chunks of an attempt make of it, when none is cancelled: some content and a
      last given reason "length" are a round that stopped for length. */
  lemma LengthStop(attempt: Attempt, script: Script, m: nat, k: nat)
    requires Records(attempt, script) && forall j :: 0 <= j < |script.deltas| ==> !script.deltas[j].cancelled
    requires m < |script.deltas| && script.deltas[m].content != ""
    requires k < |script.deltas| && script.deltas[k].finishReason == Some("length")
    requires forall j :: k < j < |script.deltas| ==>
               script.deltas[j].finishReason == None || script.deltas[j].finishReason == Some("")
    ensures attempt.raw != "" && attempt.finish == "length"
  {
    var deltas := script.deltas;
    LastReasonCounts(deltas, k, "length", "stop");
    ContentsAreAll(deltas, |deltas|, "stop");
    ConcatHolds(seq(|deltas|, j requires 0 <= j < |deltas| => deltas[j].content), m);
  }

  /** A length stop is followed up: in a whole run, after an attempt with some content whose
      last given reason is "length", below the round limit and with no failure or
      cancellation in between, the first try of the next round follows. */
  lemma LengthStopIsFollowedUp(attempts: seq<Attempt>, provider: nat -> Script, control: Control, maxRounds: nat,
                               i: nat, m: nat, k: nat)
    requires ValidTrace(attempts, provider, control, maxRounds) && Complete(attempts, provider, control, maxRounds)
    requires i < |attempts| && attempts[i].round < maxRounds
    requires !At(provider, i).raised && !At(provider, i).overBudget
    requires forall j :: 0 <= j < |At(provider, i).deltas| ==> !At(provider, i).deltas[j].cancelled
    requires m < |At(provider, i).deltas| && At(provider, i).deltas[m].content != ""
    requires k < |At(provider, i).deltas| && At(provider, i).deltas[k].finishReason == Some("length")
    requires forall j :: k < j < |At(provider, i).deltas| ==>
               At(provider, i).deltas[j].finishReason == None || At(provider, i).deltas[j].finishReason == Some("")
    requires attempts[i].round !in control.cancelBeforeFollowUp && attempts[i].round + 1 !in control.persistFails
    requires attempts[i].round + 1 !in control.cancelAfterPersist && attempts[i].round + 1 !in control.cancelAtTop
    ensures i + 1 < |attempts| && attempts[i + 1].round == attempts[i].round + 1 && attempts[i + 1].try == 1
  {
    LengthStop(attempts[i], At(provider, i), m, k);
    assert i < |attempts| - 1 ==> Follows(attempts[i], attempts[i + 1], control, maxRounds);
  }

  /** Nothing else is: a further dispatch is the second try of a blank, uncancelled first one,
      or a new round after a length stop that nothing cancelled and whose checkpoint was persisted. */
  lemma OnlyTheseFollow(attempts: seq<Attempt>, provider: nat -> Script, control: Control, maxRounds: nat, i: nat)
    requires ValidTrace(attempts, provider, control, maxRounds) && i + 1 < |attempts|
    ensures !At(provider, i).raised && !At(provider, i).overBudget
    ensures var a, b := attempts[i], attempts[i + 1];
      || (a.raw == "" && a.finish != "cancelled" && a.try == 1 && b.round == a.round && b.try == 2)
      || (&& (a.raw != "" || a.try == 2) && a.finish == "length" && a.round < maxRounds
          && a.round !in control.cancelBeforeFollowUp && a.round + 1 !in control.persistFails
          && a.round + 1 !in control.cancelAfterPersist && a.round + 1 !in control.cancelAtTop
          && b.round == a.round + 1 && b.try == 1)
  {
    AttemptPosition(attempts, provider, control, maxRounds, i);
    assert Follows(attempts[i], attempts[i + 1], control, maxRounds);
  }

  /** How a run ends after a last attempt that failed on nothing: a cancelled follow-up is
      reported as cancelled, a checkpoint that cannot be persisted fails the run, and any
      other stop keeps its own reason. */
  lemma HowRunsEnd(attempts: seq<Attempt>, provider: nat -> Script, control: Control, maxRounds: nat, outcome: Outcome,
                   reason: string)
    requires Complete(attempts, provider, control, maxRounds) && !LastBroke(attempts, provider)
    requires EndsAfter(outcome, reason, attempts, control, maxRounds)
    ensures var last := attempts[|attempts| - 1];
            var persists := last.round < maxRounds && last.round !in control.cancelBeforeFollowUp;
      && (last.finish == "length" && persists && last.round + 1 in control.persistFails ==>
            outcome == Failed && reason == "length")
      && (last.finish == "length" && persists && last.round + 1 !in control.persistFails ==>
            && (last.round + 1 in control.cancelAfterPersist || last.round + 1 in control.cancelAtTop)
            && reason == "cancelled" && outcome == if control.finalPersistFails then Failed else Finished)
      && (last.finish == "length" && last.round in control.cancelBeforeFollowUp ==>
            reason == "cancelled" && outcome == if control.finalPersistFails then Failed else Finished)
      && (last.finish != "length" || (last.round >= maxRounds && last.round !in control.cancelBeforeFollowUp) ==>
            reason == last.finish && outcome == if control.finalPersistFails && last.round > 0 then Failed else Finished)
  {
  }

  lemma {:induction false} TracesAgree(a: seq<Attempt>, b: seq<Attempt>, provider: nat -> Script, control: Control,
                                       maxRounds: nat, k: nat)
    requires ValidTrace(a, provider, control, maxRounds) && ValidTrace(b, provider, control, maxRounds)
    requires k < |a| && k < |b|
    ensures a[k] == b[k]
  {
    assert Records(a[k], At(provider, k)) && Records(b[k], At(provider, k));
    if k > 0 {
      TracesAgree(a, b, provider, control, maxRounds, k - 1);
      assert Follows(a[k - 1], a[k - 1 + 1], control, maxRounds);
      assert Follows(b[k - 1], b[k - 1 + 1], control, maxRounds);
    }
  }

  /** The provider and the outcomes between dispatches determine the whole run. */
  lemma RunIsDetermined(a: seq<Attempt>, b: seq<Attempt>, provider: nat -> Script, control: Control, maxRounds: nat)
    requires ValidTrace(a, provider, control, maxRounds) && ValidTrace(b, provider, control, maxRounds)
    requires Complete(a, provider, control, maxRounds) && Complete(b, provider, control, maxRounds)
    ensures a == b
  {
    LongerIsNotComplete(a, b, provider, control, maxRounds);
    LongerIsNotComplete(b, a, provider, control, maxRounds);
    forall k: nat | k < |a| && k < |b|
      ensures a[k] == b[k]
    {
      TracesAgree(a, b, provider, control, maxRounds, k);
    }
  }

  lemma LongerIsNotComplete(a: seq<Attempt>, b: seq<Attempt>, provider: nat -> Script, control: Control, maxRounds: nat)
    requires ValidTrace(a, provider, control, maxRounds) && ValidTrace(b, provider, control, maxRounds)
    requires Complete(a, provider, control, maxRounds)
    ensures |b| <= |a|
  {
    var n := |a| - 1;
    if n < |b| {
      TracesAgree(a, b, provider, control, maxRounds, n);
      assert n < |b| - 1 ==> Follows(b[n], b[n + 1], control, maxRounds);
    }
  }

  /** The same for text that passed through the buffer. */
  lemma StreamedLosesNothing(full: string, raw: string, window: nat)
    requires window >= 1
    ensures EndsWith(Collapse(full + Streamed(full, raw, window)), Collapse(raw))
  {
    var held := FirstChars(raw, window);
    var rest := raw[|held|..];
    MergeKeepsBoth(full, held, window);
    if held != "" {
      AppendKeepsEnding(Merge(full, held, window), held, rest);
      assert held + rest == raw;
      Associate(full, NovelText(full, held, window), rest);
    } else {
      assert Collapse(raw) == "";
    }
  }

  /** An attempt never rewrites earlier text, and the message then ends, up to
      whitespace layout, with everything the provider said in it. */
  lemma AttemptLosesNothing(full: string, attempt: Attempt, window: nat)
    requires window >= 1
    ensures var after := full + Contribution(full, attempt, window);
            full <= after && EndsWith(Collapse(after), Collapse(attempt.raw))
  {
    CollapseOfSuffix(full, attempt.raw);
    StreamedLosesNothing(full, attempt.raw, window);
  }

  /** Earlier messages are prefixes of later ones. */
  lemma {:induction false} FoldedGrows(initial: string, attempts: seq<Attempt>, window: nat, k: nat)
    requires window >= 1 && k <= |attempts|
    ensures Folded(initial, attempts[..k], window) <= Folded(initial, attempts, window)
  {
    if k == |attempts| {
      assert attempts[..k] == attempts;
    } else {
      var shorter := attempts[..|attempts| - 1];
      FoldedGrows(initial, shorter, window, k);
      assert shorter[..k] == attempts[..k];
      PrefixTransitive(Folded(initial, attempts[..k], window), Folded(initial, shorter, window),
                       Folded(initial, attempts, window));
    }
  }

  /** Whatever follows, the text of attempt `i` stays in the message where it was put. */
  lemma EveryAttemptSurvives(initial: string, attempts: seq<Attempt>, window: nat, i: nat)
    requires window >= 1 && i < |attempts|
    ensures var after := Folded(initial, attempts[..i + 1], window);
            && after <= Folded(initial, attempts, window)
            && EndsWith(Collapse(after), Collapse(attempts[i].raw))
  {
    FoldedGrows(initial, attempts, window, i + 1);
    LastAttemptEnds(initial, attempts[..i + 1], window);
  }

  lemma LastAttemptEnds(initial: string, attempts: seq<Attempt>, window: nat)
    requires window >= 1 && attempts != []
    ensures EndsWith(Collapse(Folded(initial, attempts, window)), Collapse(attempts[|attempts| - 1].raw))
  {
    var n := |attempts| - 1;
    AttemptLosesNothing(Folded(initial, attempts[..n], window), attempts[n], window);
  }

  lemma PrefixTransitive(a: string, b: string, c: string)
    requires a <= b <= c
    ensures a <= c
  {
  }

  /** A follow-up round is exactly a one-shot merge unless the message already ended
      with a round text longer than the comparison window. */
  lemma FollowUpIsMerge(full: string, attempt: Attempt, window: nat)
    requires window >= 1 && attempt.round > 0
    ensures full + Contribution(full, attempt, window) == Merge(full, attempt.raw, window)
            <==> !(|attempt.raw| > window && EndsWith(full, attempt.raw))
  {
    StreamingIsOneShot(full, attempt.raw, window);
    assert Max(1, window) == window;
    var a, b := Contribution(full, attempt, window), NovelText(full, attempt.raw, window);
    assert (full + a)[|full|..] == a && (full + b)[|full|..] == b;
  }
}
