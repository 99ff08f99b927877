/** Exactly when compaction keeps a transcript valid, for every transcript, protected block
    and budget. Pairs that straddle the end of the protected block are not joined, and only
    the last caller of a call id is. */
module CompactionExactness {
  import opened Compaction
  import opened CompactionProperties

  /** Every message costs one token. */
  function Unit(m: Message): nat {
    1
  }

  lemma {:induction false} UnitCost(body: seq<Message>, start: nat)
    requires start <= |body|
    ensures Cost(body, Unit, start) == |body| - start
    decreases |body| - start
  {
    if start < |body| {
      UnitCost(body, start + 1);
    }
  }

  /** Any index can be made the start of the tail by a suitable budget. */
  lemma BudgetStartsAt(body: seq<Message>, start: nat)
    requires start < |body|
    ensures TailStart(body, Unit, |body| - start) == start
  {
    forall j: nat | j <= |body|
      ensures Cost(body, Unit, j) == |body| - j
    {
      UnitCost(body, j);
    }
    TailStartUnique(body, Unit, |body| - start, start, TailStart(body, Unit, |body| - start));
  }

  /** The messages in front of `r` that issue its call. */
  ghost predicate EarlierCaller(body: seq<Message>, r: nat, id: string, j: nat) {
    j < r < |body| && Calls(body[j], id)
  }

  // --- What must be kept ---

  ghost predicate KeepsCaller(body: seq<Message>, kept: set<nat>, r: nat, id: string) {
    exists j :: j in kept && EarlierCaller(body, r, id, j)
  }

  ghost predicate AnswersAmong(body: seq<Message>, kept: set<nat>, id: string) {
    exists i :: i in kept && i < |body| && Answers(body[i], id)
  }

  /** Every call left open in the leading block is answered by a kept message. */
  ghost predicate OpenCallsAnswered(front: seq<Message>, body: seq<Message>, kept: set<nat>) {
    forall id :: Called(front, id) && !Answered(front, id) ==> AnswersAmong(body, kept, id)
  }

  /** Each kept result has a call in the leading block or a kept one in front of it. */
  ghost predicate CallsInFront(front: seq<Message>, body: seq<Message>, kept: set<nat>) {
    forall r, id :: r in kept && r < |body| && Answers(body[r], id) ==> HasCall(front, body, kept, r, id)
  }

  ghost predicate HasCall(front: seq<Message>, body: seq<Message>, kept: set<nat>, r: nat, id: string) {
    Called(front, id) || KeepsCaller(body, kept, r, id)
  }

  ghost predicate KeepsPairs(front: seq<Message>, body: seq<Message>, kept: set<nat>) {
    CallsInFront(front, body, kept) && OpenCallsAnswered(front, body, kept)
  }

  /** A kept message's place in the result: the earlier kept messages come before it. */
  lemma {:induction false} ChosenPlace(body: seq<Message>, n: nat, kept: set<nat>, i: nat) returns (a: nat)
    requires i < n <= |body| && i in kept
    ensures a < |ChosenUpTo(body, n, kept)| && ChosenUpTo(body, n, kept)[a] == body[i]
    ensures ChosenUpTo(body, n, kept)[..a] == ChosenUpTo(body, i, kept)
  {
    if i == n - 1 {
      a := |ChosenUpTo(body, i, kept)|;
    } else {
      a := ChosenPlace(body, n - 1, kept, i);
      assert ChosenUpTo(body, n, kept)[..a] == ChosenUpTo(body, n - 1, kept)[..a];
    }
  }

  lemma CalledInParts(front: seq<Message>, summary: Message, back: seq<Message>, id: string)
    requires summary.role == System
    ensures Called(front + [summary] + back, id) <==> Called(front, id) || Called(back, id)
    ensures Answered(front + [summary] + back, id) <==> Answered(front, id) || Answered(back, id)
  {
  }

  lemma CalledInTwo(front: seq<Message>, body: seq<Message>, id: string)
    ensures Called(front + body, id) <==> Called(front, id) || Called(body, id)
    ensures Answered(front + body, id) <==> Answered(front, id) || Answered(body, id)
  {
  }

  lemma AnsweredAmong(body: seq<Message>, kept: set<nat>, id: string)
    ensures Answered(Chosen(body, kept), id) <==> AnswersAmong(body, kept, id)
  {
    var back := Chosen(body, kept);
    if Answered(back, id) {
      var m :| m in back && Answers(m, id);
      var a: nat :| a < |back| && back[a] == m;
      var i := ChosenSource(body, |body|, kept, a);
    }
    if AnswersAmong(body, kept, id) {
      var i :| i in kept && i < |body| && Answers(body[i], id);
      ChosenHolds(body, |body|, kept, i);
    }
  }

  /** A kept call is answered in the leading block or by a kept result. */
  lemma KeptCallIsAnswered(front: seq<Message>, body: seq<Message>, kept: set<nat>, id: string)
    requires PairsComplete(front + body) && Closed(body, kept)
    requires Called(Chosen(body, kept), id)
    ensures Answered(front, id) || AnswersAmong(body, kept, id)
  {
    var back := Chosen(body, kept);
    var m :| m in back && Calls(m, id);
    var a: nat :| a < |back| && back[a] == m;
    var k := ChosenSource(body, |body|, kept, a);
    assert Called(body, id);
    CalledInTwo(front, body, id);
    if !Answered(front, id) {
      var result :| result in body && Answers(result, id);
      var r: nat :| r < |body| && body[r] == result;
      assert Mentions(body[k], id) && InUnit(body, id, r);
    }
  }

  ghost function Joined(front: seq<Message>, body: seq<Message>, kept: set<nat>, summary: Message): seq<Message> {
    front + [summary] + Chosen(body, kept)
  }

  lemma HasCallIff(front: seq<Message>, body: seq<Message>, kept: set<nat>, r: nat, id: string)
    requires r < |body|
    ensures HasCall(front, body, kept, r, id) <==> Called(front, id) || Called(ChosenUpTo(body, r, kept), id)
  {
    if KeepsCaller(body, kept, r, id) {
      var j :| j in kept && EarlierCaller(body, r, id, j);
      ChosenHolds(body, r, kept, j);
    }
    if Called(ChosenUpTo(body, r, kept), id) {
      var m :| m in ChosenUpTo(body, r, kept) && Calls(m, id);
      var b: nat :| b < |ChosenUpTo(body, r, kept)| && ChosenUpTo(body, r, kept)[b] == m;
      var j := ChosenSource(body, r, kept, b);
      assert EarlierCaller(body, r, id, j);
    }
  }

  /** The rebuilt list has its results in order exactly when each kept one has a call. */
  lemma JoinedFollowsIff(front: seq<Message>, body: seq<Message>, kept: set<nat>, summary: Message)
    requires ResultsFollowCalls(front + body) && summary.role == System
    ensures ResultsFollowCalls(Joined(front, body, kept, summary)) <==> CallsInFront(front, body, kept)
  {
    if CallsInFront(front, body, kept) {
      CallsMakeItFollow(front, body, kept, summary);
    } else {
      var r, id :| r in kept && r < |body| && Answers(body[r], id) && !HasCall(front, body, kept, r, id);
      MissingCallBreaksIt(front, body, kept, summary, r, id);
    }
  }

  lemma MissingCallBreaksIt(front: seq<Message>, body: seq<Message>, kept: set<nat>, summary: Message, r: nat, id: string)
    requires summary.role == System && r in kept && r < |body| && Answers(body[r], id)
    requires !HasCall(front, body, kept, r, id)
    ensures !ResultsFollowCalls(Joined(front, body, kept, summary))
  {
    var out := Joined(front, body, kept, summary);
    var a := ChosenPlace(body, |body|, kept, r);
    var k := |front| + 1 + a;
    HasCallIff(front, body, kept, r, id);
    CalledInParts(front, summary, ChosenUpTo(body, r, kept), id);
    assert out[..k] == front + [summary] + ChosenUpTo(body, r, kept);
    assert Answers(out[k], id);
  }

  lemma CallsMakeItFollow(front: seq<Message>, body: seq<Message>, kept: set<nat>, summary: Message)
    requires ResultsFollowCalls(front + body) && summary.role == System && CallsInFront(front, body, kept)
    ensures ResultsFollowCalls(Joined(front, body, kept, summary))
  {
    var out := Joined(front, body, kept, summary);
    forall k: nat, id | k < |out| && Answers(out[k], id)
      ensures Called(out[..k], id)
    {
      if k < |front| {
        assert (front + body)[..k] == out[..k];
        assert Answers((front + body)[k], id);
      } else {
        var a := k - |front| - 1;
        var r := ChosenSource(body, |body|, kept, a);
        HasCallIff(front, body, kept, r, id);
        CalledInParts(front, summary, ChosenUpTo(body, r, kept), id);
        assert out[..k] == front + [summary] + ChosenUpTo(body, r, kept);
      }
    }
  }

  /** What is answered is called, in any list whose results follow their calls. */
  lemma AnsweredIsCalled(ms: seq<Message>, id: string)
    requires ResultsFollowCalls(ms) && Answered(ms, id)
    ensures Called(ms, id)
  {
    var m :| m in ms && Answers(m, id);
    var k: nat :| k < |ms| && ms[k] == m;
    assert Called(ms[..k], id);
    var call :| call in ms[..k] && Calls(call, id);
    assert call in ms;
  }

  /** And, its results being in order, it halves no pair exactly when open calls are answered. */
  lemma JoinedPairsIff(front: seq<Message>, body: seq<Message>, kept: set<nat>, summary: Message)
    requires ValidTranscript(front + body) && Closed(body, kept) && summary.role == System
    requires ResultsFollowCalls(Joined(front, body, kept, summary))
    ensures PairsComplete(Joined(front, body, kept, summary)) <==> OpenCallsAnswered(front, body, kept)
  {
    var out := Joined(front, body, kept, summary);
    forall id
      ensures (Called(out, id) <==> Answered(out, id))
              <==> (Called(front, id) && !Answered(front, id) ==> AnswersAmong(body, kept, id))
    {
      JoinedPairIff(front, body, kept, summary, id);
    }
  }

  lemma JoinedPairIff(front: seq<Message>, body: seq<Message>, kept: set<nat>, summary: Message, id: string)
    requires ValidTranscript(front + body) && Closed(body, kept) && summary.role == System
    requires ResultsFollowCalls(Joined(front, body, kept, summary))
    ensures var out := Joined(front, body, kept, summary);
            (Called(out, id) <==> Answered(out, id))
            <==> (Called(front, id) && !Answered(front, id) ==> AnswersAmong(body, kept, id))
  {
    var out := Joined(front, body, kept, summary);
    CalledInParts(front, summary, Chosen(body, kept), id);
    AnsweredAmong(body, kept, id);
    if Called(Chosen(body, kept), id) {
      KeptCallIsAnswered(front, body, kept, id);
    }
    if Answered(out, id) {
      AnsweredIsCalled(out, id);
    }
  }

  lemma RebuiltIsValidExactly(front: seq<Message>, body: seq<Message>, kept: set<nat>, summary: Message)
    requires ValidTranscript(front + body) && Closed(body, kept) && summary.role == System
    ensures ValidTranscript(Joined(front, body, kept, summary)) <==> KeepsPairs(front, body, kept)
  {
    JoinedFollowsIff(front, body, kept, summary);
    if CallsInFront(front, body, kept) {
      JoinedPairsIff(front, body, kept, summary);
    }
  }

  /** Keeping everything keeps all pairs. */
  lemma AllKeepsPairs(front: seq<Message>, body: seq<Message>, kept: set<nat>)
    requires ValidTranscript(front + body) && Indexes(|body|) <= kept
    ensures KeepsPairs(front, body, kept)
  {
    forall r, id | r in kept && r < |body| && Answers(body[r], id)
      ensures HasCall(front, body, kept, r, id)
    {
      AllHasCall(front, body, kept, r, id);
    }
    forall id | Called(front, id) && !Answered(front, id)
      ensures AnswersAmong(body, kept, id)
    {
      AllAnswers(front, body, kept, id);
    }
  }

  /** A result of the body has a call in the leading block or in front of it in the body. */
  lemma CallOfResult(front: seq<Message>, body: seq<Message>, r: nat, id: string) returns (j: nat)
    requires ResultsFollowCalls(front + body) && r < |body| && Answers(body[r], id)
    ensures Called(front, id) || EarlierCaller(body, r, id, j)
  {
    var ms, k := front + body, |front| + r;
    assert Answers(ms[k], id);
    var m :| m in ms[..k] && Calls(m, id);
    var c: nat :| c < k && ms[c] == m;
    if c < |front| {
      assert front[c] in front;
      j := 0;
    } else {
      j := c - |front|;
    }
  }

  lemma AllHasCall(front: seq<Message>, body: seq<Message>, kept: set<nat>, r: nat, id: string)
    requires ResultsFollowCalls(front + body) && Indexes(|body|) <= kept
    requires r < |body| && Answers(body[r], id)
    ensures HasCall(front, body, kept, r, id)
  {
    var j := CallOfResult(front, body, r, id);
    assert EarlierCaller(body, r, id, j) ==> j in Indexes(|body|);
  }

  lemma AllAnswers(front: seq<Message>, body: seq<Message>, kept: set<nat>, id: string)
    requires PairsComplete(front + body) && Indexes(|body|) <= kept && Called(front, id) && !Answered(front, id)
    ensures AnswersAmong(body, kept, id)
  {
    CalledInTwo(front, body, id);
    var m :| m in body && Answers(m, id);
    var i: nat :| i < |body| && body[i] == m;
    assert i in Indexes(|body|);
  }

  // --- One budget ---

  /** Compaction in terms of the split at the end of the protected block. */
  lemma CompactedSplit(messages: seq<Message>, cost: Message -> nat, keep: int, protectedCount: int,
                       summarize: seq<Message> -> string, header: string -> string, lead: nat)
    returns (summary: Message)
    requires lead == Lead(messages, protectedCount)
    ensures summary.role == System
    ensures Compacted(messages, cost, keep, true, protectedCount, summarize, header)
         == var kept := Kept(messages[lead..], cost, keep, true);
            if Indexes(|messages[lead..]|) <= kept then messages
            else Joined(messages[..lead], messages[lead..], kept, summary)
  {
    var body := messages[lead..];
    summary := SummaryMessage(header, summarize(Chosen(body, Indexes(|body|) - Kept(body, cost, keep, true))));
  }

  lemma SplitRejoins(messages: seq<Message>, lead: nat)
    requires lead <= |messages|
    ensures messages[..lead] + messages[lead..] == messages
  {
  }

  /** One compaction, for any valid transcript, protected block, cost and budget: its result
      is valid exactly when what it keeps keeps pairs. */
  lemma CompactionIsValidIff(messages: seq<Message>, cost: Message -> nat, keep: int, protectedCount: int,
                             summarize: seq<Message> -> string, header: string -> string, lead: nat)
    requires lead == Lead(messages, protectedCount) && ValidTranscript(messages)
    ensures ValidTranscript(Compacted(messages, cost, keep, true, protectedCount, summarize, header))
            <==> KeepsPairs(messages[..lead], messages[lead..], Kept(messages[lead..], cost, keep, true))
  {
    SplitRejoins(messages, lead);
    KeptIsClosed(messages[lead..], cost, keep);
    var summary := CompactedSplit(messages, cost, keep, protectedCount, summarize, header, lead);
    if Indexes(|messages[lead..]|) <= Kept(messages[lead..], cost, keep, true) {
      AllKeepsPairs(messages[..lead], messages[lead..], Kept(messages[lead..], cost, keep, true));
    } else {
      RebuiltIsValidExactly(messages[..lead], messages[lead..], Kept(messages[lead..], cost, keep, true), summary);
    }
  }

  // --- Every budget ---

  /** Compaction keeps the transcript valid whatever the cost estimate and the budget. */
  ghost predicate SafeUnderEveryBudget(messages: seq<Message>, protectedCount: int, summarize: seq<Message> -> string,
                                       header: string -> string) {
    forall cost: Message -> nat, keep: int ::
      ValidTranscript(Compacted(messages, cost, keep, true, protectedCount, summarize, header))
  }

  lemma SomeBudgetIsUnsafe(messages: seq<Message>, keep: int, protectedCount: int, summarize: seq<Message> -> string,
                           header: string -> string)
    requires !ValidTranscript(Compacted(messages, Unit, keep, true, protectedCount, summarize, header))
    ensures !SafeUnderEveryBudget(messages, protectedCount, summarize, header)
  {
  }

  /** Wherever the tail starts, its closure keeps pairs. */
  ghost predicate PairsSurvive(front: seq<Message>, body: seq<Message>) {
    forall start: nat :: start < |body| ==> KeepsPairs(front, body, Closure(body, From(start, |body|)))
  }

  lemma SurvivingPairsAreKept(front: seq<Message>, body: seq<Message>, cost: Message -> nat, keep: int)
    requires ValidTranscript(front + body) && PairsSurvive(front, body)
    ensures KeepsPairs(front, body, Kept(body, cost, keep, true))
  {
    if body == [] {
      AllKeepsPairs(front, body, Kept(body, cost, keep, true));
    }
  }

  lemma SomePairIsLost(front: seq<Message>, body: seq<Message>) returns (keep: int)
    requires !PairsSurvive(front, body)
    ensures !KeepsPairs(front, body, Kept(body, Unit, keep, true))
  {
    var start: nat :| start < |body| && !KeepsPairs(front, body, Closure(body, From(start, |body|)));
    keep := |body| - start;
    BudgetStartsAt(body, start);
  }

  /** A valid transcript stays valid under every budget, with a protected block of any length,
      exactly when pairs survive wherever the tail starts. */
  lemma TranscriptIsSafeIff(messages: seq<Message>, protectedCount: int, lead: nat,
                            summarize: seq<Message> -> string, header: string -> string)
    requires lead == Lead(messages, protectedCount) && ValidTranscript(messages)
    ensures PairsSurvive(messages[..lead], messages[lead..])
            <==> SafeUnderEveryBudget(messages, protectedCount, summarize, header)
  {
    SplitRejoins(messages, lead);
    if PairsSurvive(messages[..lead], messages[lead..]) {
      forall cost: Message -> nat, keep: int
        ensures ValidTranscript(Compacted(messages, cost, keep, true, protectedCount, summarize, header))
      {
        SurvivingPairsAreKept(messages[..lead], messages[lead..], cost, keep);
        CompactionIsValidIff(messages, cost, keep, protectedCount, summarize, header, lead);
      }
    } else {
      var keep := SomePairIsLost(messages[..lead], messages[lead..]);
      CompactionIsValidIff(messages, Unit, keep, protectedCount, summarize, header, lead);
      SomeBudgetIsUnsafe(messages, keep, protectedCount, summarize, header);
    }
  }
}
