/** What compaction promises about the transcript: nothing is lost or reordered, and
    tool calls stay together with their results. */
module CompactionProperties {
  import opened Compaction

  // --- Conservation ---

  lemma {:induction false} ChosenConserves(body: seq<Message>, n: nat, kept: set<nat>)
    requires n <= |body|
    ensures multiset(ChosenUpTo(body, n, kept)) + multiset(ChosenUpTo(body, n, Indexes(|body|) - kept)) == multiset(body[..n])
  {
    if n > 0 {
      var rest := Indexes(|body|) - kept;
      ChosenConserves(body, n - 1, kept);
      assert body[..n] == body[..n - 1] + [body[n - 1]];
      OneMore(ChosenUpTo(body, n - 1, kept), ChosenUpTo(body, n - 1, rest), body[..n - 1], body[n - 1]);
    }
  }

  lemma OneMore(a: seq<Message>, b: seq<Message>, whole: seq<Message>, m: Message)
    requires multiset(a) + multiset(b) == multiset(whole)
    ensures multiset(a + [m]) + multiset(b) == multiset(whole + [m]) == multiset(a) + multiset(b + [m])
  {
  }

  /** The split loses and invents nothing: tail and older part together are the body,
      disjoint by index and each in original order. */
  lemma SplitPartitionsBody(body: seq<Message>, kept: set<nat>)
    ensures multiset(Chosen(body, kept)) + multiset(Chosen(body, Indexes(|body|) - kept)) == multiset(body)
    ensures forall i: nat :: i < |body| ==>
              (i in Select(|body|, kept) <==> i !in Select(|body|, Indexes(|body|) - kept))
    ensures forall a: nat, b: nat :: a < b < |Select(|body|, kept)| ==> Select(|body|, kept)[a] < Select(|body|, kept)[b]
  {
    SelectMembers(|body|, kept);
    SelectMembers(|body|, Indexes(|body|) - kept);
    ChosenConserves(body, |body|, kept);
    assert body[..|body|] == body;
  }

  /** The leading blocks: all leading system messages, and then as many messages as are
      protected and there. */
  lemma LeadIs(messages: seq<Message>, protectedCount: int)
    ensures var system := LeadingSystem(messages);
      && (protectedCount <= 0 ==> Lead(messages, protectedCount) == system)
      && (0 < protectedCount <= |messages| - system ==> Lead(messages, protectedCount) == system + protectedCount)
      && (protectedCount > |messages| - system ==> Lead(messages, protectedCount) == |messages|)
  {
  }

  /** Without pair preservation just the budgeted suffix is kept, and otherwise its closure. */
  lemma KeptIs(body: seq<Message>, cost: Message -> nat, keep: int)
    ensures forall i: nat :: i in Kept(body, cost, keep, false) <==> TailStart(body, cost, keep) <= i < |body|
    ensures Kept(body, cost, keep, true) == Closure(body, Kept(body, cost, keep, false))
  {
  }

  /** The cost of a suffix is what its messages cost together. */
  lemma CostIsSum(body: seq<Message>, cost: Message -> nat, start: nat)
    ensures start < |body| ==> Cost(body, cost, start) == cost(body[start]) + Cost(body, cost, start + 1)
    ensures start >= |body| ==> Cost(body, cost, start) == 0
  {
  }

  /** The indexes of `s`, in order. */
  ghost predicate Lists(indexes: seq<nat>, n: nat, s: set<nat>) {
    && (forall i: nat :: i in indexes <==> i < n && i in s)
    && (forall a, b :: 0 <= a < b < |indexes| ==> indexes[a] < indexes[b])
    && (forall k :: 0 <= k < |indexes| ==> indexes[k] < n)
  }

  lemma SelectLists(body: seq<Message>, kept: set<nat>)
    ensures Lists(Select(|body|, kept), |body|, kept)
    ensures forall k: nat :: k < |Select(|body|, kept)| ==> Select(|body|, kept)[k] < |body|
    ensures Chosen(body, kept) == Pick(body, Select(|body|, kept))
  {
    SelectMembers(|body|, kept);
    PickIsChosen(body, |body|, kept);
    forall a, b | 0 <= a < b < |Select(|body|, kept)|
      ensures Select(|body|, kept)[a] < Select(|body|, kept)[b]
    {
    }
  }

  /** What compaction returns when something is older: the untouched leading blocks, one
      system message with the header and the summary of everything not kept, in order, and
      then everything kept, in order. The returned summary is that same text. */
  lemma CompactedCarriesSummary(messages: seq<Message>, cost: Message -> nat, keep: int, preservePairs: bool,
                                protectedCount: int, summarize: seq<Message> -> string, header: string -> string,
                                lead: nat, kept: set<nat>, out: seq<Message>)
    returns (olderAt: seq<nat>, keptAt: seq<nat>, text: string)
    requires lead == Lead(messages, protectedCount) && kept == Kept(messages[lead..], cost, keep, preservePairs)
    requires exists i: nat :: i < |messages| - lead && i !in kept
    requires out == Compacted(messages, cost, keep, preservePairs, protectedCount, summarize, header)
    ensures Lists(olderAt, |messages| - lead, Indexes(|messages| - lead) - kept) && Lists(keptAt, |messages| - lead, kept)
    ensures text == summarize(seq(|olderAt|, k requires 0 <= k < |olderAt| => messages[lead + olderAt[k]]))
    ensures |out| == lead + 1 + |keptAt| && out[..lead] == messages[..lead]
    ensures out[lead].role == System && out[lead].content == header(text) + text
    ensures out[lead].toolCalls == [] && out[lead].toolCallId == ""
    ensures out[lead + 1..] == seq(|keptAt|, k requires 0 <= k < |keptAt| => messages[lead + keptAt[k]])
    ensures SummaryText(messages, lead, cost, keep, preservePairs, summarize) == text
  {
    var body := messages[lead..];
    var rest := Indexes(|body|) - kept;
    SelectLists(body, rest);
    SelectLists(body, kept);
    olderAt, keptAt, text := Select(|body|, rest), Select(|body|, kept), summarize(Chosen(body, rest));
    SameMessages(messages, lead, olderAt);
    SameMessages(messages, lead, keptAt);
    var i: nat :| i < |messages| - lead && i !in kept;
    assert i in Indexes(|body|);
    assert out == messages[..lead] + [SummaryMessage(header, text)] + Chosen(body, kept);
  }

  lemma SameMessages(messages: seq<Message>, lead: nat, indexes: seq<nat>)
    requires lead <= |messages| && forall k :: 0 <= k < |indexes| ==> indexes[k] < |messages| - lead
    ensures Pick(messages[lead..], indexes)
         == seq(|indexes|, k requires 0 <= k < |indexes| => messages[lead + indexes[k]])
  {
  }

  /** And the messages and an empty summary when nothing is. */
  lemma NothingOlder(messages: seq<Message>, cost: Message -> nat, keep: int, preservePairs: bool, protectedCount: int,
                     summarize: seq<Message> -> string, header: string -> string, lead: nat)
    requires lead == Lead(messages, protectedCount)
    requires forall i: nat :: i < |messages| - lead ==> i in Kept(messages[lead..], cost, keep, preservePairs)
    ensures Compacted(messages, cost, keep, preservePairs, protectedCount, summarize, header) == messages
    ensures SummaryText(messages, lead, cost, keep, preservePairs, summarize) == ""
  {
  }

  // --- The closure ---

  /** The closure is the least closed set around the tail. */
  lemma ClosureMeaning(body: seq<Message>, tail: set<nat>)
    requires forall i :: i in tail ==> i < |body|
    ensures tail <= Closure(body, tail) && Closed(body, Closure(body, tail))
    ensures forall c: set<nat> :: tail <= c && Closed(body, c) ==> Closure(body, tail) <= c
  {
  }

  lemma KeptIsClosed(body: seq<Message>, cost: Message -> nat, keep: int)
    ensures Closed(body, Kept(body, cost, keep, true))
    ensures From(TailStart(body, cost, keep), |body|) <= Kept(body, cost, keep, true)
  {
  }

  // --- Transcripts ---

  ghost predicate Called(ms: seq<Message>, id: string) {
    exists m :: m in ms && Calls(m, id)
  }

  ghost predicate Answered(ms: seq<Message>, id: string) {
    exists m :: m in ms && Answers(m, id)
  }

  /** Every tool result comes after an assistant message that issued its call. */
  ghost predicate ResultsFollowCalls(ms: seq<Message>) {
    forall r: nat, id :: r < |ms| && Answers(ms[r], id) ==> Called(ms[..r], id)
  }

  /** Every tool result comes after the last message that issues its call. */
  ghost predicate ResultsFollowLastCaller(ms: seq<Message>) {
    forall r: nat, id :: r < |ms| && Answers(ms[r], id) ==> 0 <= CallerOf(ms, id) < r
  }

  /** No half pair: an id is called exactly if it is answered. */
  ghost predicate PairsComplete(ms: seq<Message>) {
    forall id :: Called(ms, id) <==> Answered(ms, id)
  }

  /** No call id is issued by two messages. */
  ghost predicate UniqueCalls(ms: seq<Message>) {
    forall i: nat, j: nat, id :: i < |ms| && j < |ms| && Calls(ms[i], id) && Calls(ms[j], id) ==> i == j
  }

  /** With unique call ids the two orderings are the same. */
  lemma UniqueCallsFollowLastCaller(ms: seq<Message>)
    requires ResultsFollowCalls(ms) && UniqueCalls(ms)
    ensures ResultsFollowLastCaller(ms)
  {
  }

  lemma {:induction false} ChosenHolds(body: seq<Message>, n: nat, kept: set<nat>, i: nat)
    requires i < n <= |body| && i in kept
    ensures body[i] in ChosenUpTo(body, n, kept)
  {
    if i < n - 1 {
      ChosenHolds(body, n - 1, kept, i);
    }
  }

  /** A chosen message comes from a kept index, and what precedes it are the earlier kept messages. */
  lemma {:induction false} ChosenSource(body: seq<Message>, n: nat, kept: set<nat>, a: nat) returns (i: nat)
    requires n <= |body| && a < |ChosenUpTo(body, n, kept)|
    ensures i < n && i in kept && ChosenUpTo(body, n, kept)[a] == body[i]
    ensures ChosenUpTo(body, n, kept)[..a] == ChosenUpTo(body, i, kept)
  {
    var shorter := ChosenUpTo(body, n - 1, kept);
    if a < |shorter| {
      i := ChosenSource(body, n - 1, kept, a);
      assert ChosenUpTo(body, n, kept)[..a] == shorter[..a];
    } else {
      i := n - 1;
    }
  }

  /** A kept result keeps its caller, in front of it. */
  lemma KeptResultsFollowCalls(body: seq<Message>, kept: set<nat>)
    requires Closed(body, kept) && ResultsFollowLastCaller(body)
    ensures ResultsFollowCalls(Chosen(body, kept))
  {
    var ms := Chosen(body, kept);
    forall a: nat, id | a < |ms| && Answers(ms[a], id)
      ensures Called(ms[..a], id)
    {
      var r := ChosenSource(body, |body|, kept, a);
      var c: nat := CallerOf(body, id);
      assert Mentions(body[r], id) && InUnit(body, id, c);
      ChosenHolds(body, r, kept, c);
    }
  }

  /** A kept unit is kept whole. */
  lemma KeptPairsComplete(body: seq<Message>, kept: set<nat>)
    requires Closed(body, kept) && PairsComplete(body)
    ensures PairsComplete(Chosen(body, kept))
  {
    var ms := Chosen(body, kept);
    forall id
      ensures Called(ms, id) <==> Answered(ms, id)
    {
      if Called(ms, id) || Answered(ms, id) {
        var m :| m in ms && Mentions(m, id);
        var a: nat :| a < |ms| && ms[a] == m;
        var i := ChosenSource(body, |body|, kept, a);
        assert Called(body, id) && Answered(body, id);
        var call :| call in body && Calls(call, id);
        var result :| result in body && Answers(result, id);
        var k: nat :| k < |body| && body[k] == call;
        var r: nat :| r < |body| && body[r] == result;
        var c: nat := CallerOf(body, id);
        assert InUnit(body, id, c) && InUnit(body, id, r);
        ChosenHolds(body, |body|, kept, c);
        ChosenHolds(body, |body|, kept, r);
      }
    }
  }

  lemma JoinFollows(front: seq<Message>, middle: Message, back: seq<Message>)
    requires ResultsFollowCalls(front) && ResultsFollowCalls(back) && middle.role == System
    ensures ResultsFollowCalls(front + [middle] + back)
  {
    var ms := front + [middle] + back;
    forall r: nat, id | r < |ms| && Answers(ms[r], id)
      ensures Called(ms[..r], id)
    {
      if r < |front| {
        assert ms[..r] == front[..r];
        assert Answers(front[r], id);
      } else {
        var q := r - |front| - 1;
        assert ms[..r] == front + [middle] + back[..q];
        assert Answers(back[q], id) && Called(back[..q], id);
        var m :| m in back[..q] && Calls(m, id);
        assert m in ms[..r];
      }
    }
  }

  lemma JoinComplete(front: seq<Message>, middle: Message, back: seq<Message>)
    requires PairsComplete(front) && PairsComplete(back) && middle.role == System
    ensures PairsComplete(front + [middle] + back)
  {
    var ms := front + [middle] + back;
    forall id
      ensures Called(ms, id) <==> Answered(ms, id)
    {
      assert Called(ms, id) <==> Called(front, id) || Called(back, id);
      assert Answered(ms, id) <==> Answered(front, id) || Answered(back, id);
    }
  }

  lemma PrefixFollows(ms: seq<Message>, n: nat)
    requires n <= |ms| && ResultsFollowCalls(ms)
    ensures ResultsFollowCalls(ms[..n])
  {
  }

  /** The rebuilt list: leading blocks, summary, kept messages. */
  lemma RebuiltIsValid(messages: seq<Message>, lead: nat, kept: set<nat>, summary: Message)
    requires lead <= |messages| && summary.role == System && Closed(messages[lead..], kept)
    requires ResultsFollowCalls(messages) && ResultsFollowLastCaller(messages[lead..])
    requires PairsComplete(messages[..lead]) && PairsComplete(messages[lead..])
    ensures var out := messages[..lead] + [summary] + Chosen(messages[lead..], kept);
            ResultsFollowCalls(out) && PairsComplete(out) && messages[..lead] <= out
  {
    var back := Chosen(messages[lead..], kept);
    KeptResultsFollowCalls(messages[lead..], kept);
    KeptPairsComplete(messages[lead..], kept);
    PrefixFollows(messages, lead);
    JoinFollows(messages[..lead], summary, back);
    JoinComplete(messages[..lead], summary, back);
  }

  /** Compaction leaves the messages alone or rebuilds them. */
  lemma CompactedForm(messages: seq<Message>, cost: Message -> nat, keep: int, protectedCount: int,
                      summarize: seq<Message> -> string, header: string -> string, lead: nat, out: seq<Message>)
    returns (summary: Message)
    requires lead == Lead(messages, protectedCount)
    requires out == Compacted(messages, cost, keep, true, protectedCount, summarize, header)
    ensures summary.role == System
    ensures out == messages || out == Rebuilt(messages, lead, cost, keep, summary)
  {
    var body := messages[lead..];
    summary := SummaryMessage(header, summarize(Chosen(body, Indexes(|body|) - Kept(body, cost, keep, true))));
  }

  ghost function Rebuilt(messages: seq<Message>, lead: nat, cost: Message -> nat, keep: int, summary: Message): seq<Message>
    requires lead <= |messages|
  {
    messages[..lead] + [summary] + Chosen(messages[lead..], Kept(messages[lead..], cost, keep, true))
  }

  /** A transcript in which results follow their calls and no pair is halved. */
  ghost predicate ValidTranscript(ms: seq<Message>) {
    ResultsFollowCalls(ms) && PairsComplete(ms)
  }

  lemma RebuildingKeepsValid(messages: seq<Message>, lead: nat, cost: Message -> nat, keep: int, summary: Message)
    requires lead <= |messages| && summary.role == System
    requires ValidTranscript(messages) && ResultsFollowLastCaller(messages[lead..])
    requires PairsComplete(messages[..lead]) && PairsComplete(messages[lead..])
    ensures ValidTranscript(Rebuilt(messages, lead, cost, keep, summary))
    ensures messages[..lead] <= Rebuilt(messages, lead, cost, keep, summary)
  {
    KeptIsClosed(messages[lead..], cost, keep);
    RebuiltIsValid(messages, lead, Kept(messages[lead..], cost, keep, true), summary);
  }

  lemma EitherFormIsValid(messages: seq<Message>, lead: nat, cost: Message -> nat, keep: int, summary: Message,
                          out: seq<Message>)
    requires lead <= |messages| && summary.role == System
    requires ValidTranscript(messages) && ResultsFollowLastCaller(messages[lead..])
    requires PairsComplete(messages[..lead]) && PairsComplete(messages[lead..])
    requires out == messages || out == Rebuilt(messages, lead, cost, keep, summary)
    ensures ValidTranscript(out) && messages[..lead] <= out
  {
    if out == messages {
      UnchangedKeepsLead(messages, lead);
    } else {
      RebuildingKeepsValid(messages, lead, cost, keep, summary);
    }
  }

  lemma UnchangedKeepsLead(messages: seq<Message>, lead: nat)
    requires lead <= |messages|
    ensures messages[..lead] <= messages
  {
  }

  /** Compaction of a valid transcript is a valid transcript: for every budget, cost
      estimate and summariser, results still follow their calls and no pair is halved,
      provided the protected block does not cut a pair in two. */
  lemma CompactionKeepsTranscriptValid(messages: seq<Message>, cost: Message -> nat, keep: int, protectedCount: int,
                                       summarize: seq<Message> -> string, header: string -> string, lead: nat,
                                       out: seq<Message>)
    requires lead == Lead(messages, protectedCount)
    requires out == Compacted(messages, cost, keep, true, protectedCount, summarize, header)
    requires ValidTranscript(messages) && ResultsFollowLastCaller(messages[lead..])
    requires PairsComplete(messages[..lead]) && PairsComplete(messages[lead..])
    ensures ValidTranscript(out) && messages[..lead] <= out
  {
    var summary := CompactedForm(messages, cost, keep, protectedCount, summarize, header, lead, out);
    EitherFormIsValid(messages, lead, cost, keep, summary, out);
  }

  /** Leading system messages take part in no pair, so dropping them changes nothing. */
  lemma DropSystemLead(messages: seq<Message>, lead: nat)
    requires lead <= |messages| && forall i: nat :: i < lead ==> messages[i].role == System
    requires ResultsFollowCalls(messages) && PairsComplete(messages)
    ensures ResultsFollowCalls(messages[lead..]) && PairsComplete(messages[lead..]) && PairsComplete(messages[..lead])
  {
    var body := messages[lead..];
    assert messages == messages[..lead] + body;
    forall r: nat, id | r < |body| && Answers(body[r], id)
      ensures Called(body[..r], id)
    {
      assert Answers(messages[lead + r], id) && Called(messages[..lead + r], id);
      assert messages[..lead + r] == messages[..lead] + body[..r];
    }
    forall id
      ensures Called(body, id) <==> Answered(body, id)
    {
      assert Called(messages, id) <==> Called(body, id);
      assert Answered(messages, id) <==> Answered(body, id);
    }
  }

  /** Without a protected block, every valid transcript with unique call ids is compacted
      to a valid one. */
  lemma UnprotectedCompactionIsValid(messages: seq<Message>, cost: Message -> nat, keep: int,
                                     summarize: seq<Message> -> string, header: string -> string, out: seq<Message>)
    requires out == Compacted(messages, cost, keep, true, 0, summarize, header)
    requires ValidTranscript(messages) && UniqueCalls(messages)
    ensures ValidTranscript(out) && messages[..LeadingSystem(messages)] <= out
  {
    var lead := LeadingSystem(messages);
    DropSystemLead(messages, lead);
    UniqueCallsFollowLastCaller(messages[lead..]);
    CompactionKeepsTranscriptValid(messages, cost, keep, 0, summarize, header, lead, out);
  }

  // --- Where the promise needs its conditions ---

  function Call(id: string): Message {
    Message(Assistant, "", [id], "")
  }

  function Reply(id: string): Message {
    Message(Tool, "", [], id)
  }

  lemma NewestOnly(body: seq<Message>, cost: Message -> nat)
    requires body != []
    ensures TailStart(body, cost, 0) == |body| - 1
  {
  }

  function ReusedId(): seq<Message> {
    [Call("t"), Reply("t"), Call("t")]
  }

  function CutPair(): seq<Message> {
    [Call("t"), Reply("t"), Message(User, "next", [], "")]
  }

  lemma BothAreValid()
    ensures ResultsFollowCalls(ReusedId()) && PairsComplete(ReusedId())
    ensures ResultsFollowCalls(CutPair()) && PairsComplete(CutPair()) && UniqueCalls(CutPair())
  {
    var a, b := ReusedId(), CutPair();
    assert a[0] in a[..1] && a[0] in a && a[1] in a;
    assert b[0] in b[..1] && b[0] in b && b[1] in b;
    assert Calls(a[0], "t") && Answers(a[1], "t");
  }

  lemma ReusedIdUnit()
    ensures CallerOf(ReusedId(), "t") == 2 && InUnit(ReusedId(), "t", 1)
    ensures Closed(ReusedId(), {1, 2})
  {
    var body := ReusedId();
    assert CallerOf(body, "t") == 2;
    forall i, id, j | i in {1, 2} && Mentions(body[i], id) && InUnit(body, id, j)
      ensures j in {1, 2}
    {
      assert id == "t";
      assert body[0].role == Assistant;
    }
  }

  lemma ReusedIdClosure()
    ensures Closure(ReusedId(), From(2, 3)) == {1, 2}
  {
    var body, tail := ReusedId(), From(2, 3);
    ReusedIdUnit();
    forall c: set<nat> | tail <= c && Closed(body, c)
      ensures 1 in c && 2 in c
    {
      assert 2 in tail && Mentions(body[2], "t");
    }
    assert InEveryClosed(body, tail, 1) && InEveryClosed(body, tail, 2);
    ClosureIsLeast(body, tail, {1, 2});
  }

  lemma ReusedIdKeeps(cost: Message -> nat)
    ensures Kept(ReusedId(), cost, 0, true) == {1, 2}
  {
    NewestOnly(ReusedId(), cost);
    ReusedIdClosure();
  }

  /** A call id used again after its result: only the last caller is indexed, so the kept
      result loses the call in front of it. */
  lemma ReusedIdOrphansResult(cost: Message -> nat, summarize: seq<Message> -> string, header: string -> string)
    ensures ResultsFollowCalls(ReusedId()) && PairsComplete(ReusedId())
    ensures !ResultsFollowCalls(Compacted(ReusedId(), cost, 0, true, 0, summarize, header))
  {
    BothAreValid();
    ReusedIdKeeps(cost);
    var body := ReusedId();
    assert body[0..] == body && 0 in Indexes(3);
    assert ChosenUpTo(body, 1, {1, 2}) == [];
    assert ChosenUpTo(body, 2, {1, 2}) == [Reply("t")];
    assert Chosen(body, {1, 2}) == [Reply("t"), Call("t")];
    var out := Compacted(body, cost, 0, true, 0, summarize, header);
    assert out[0].role == System && out[1] == Reply("t");
    assert forall m :: m in out[..1] ==> m == out[0];
    assert Answers(out[1], "t") && !Called(out[..1], "t");
  }

  lemma CutPairKeeps(body: seq<Message>, cost: Message -> nat)
    requires body == CutPair()[1..]
    ensures Kept(body, cost, 0, true) == {1} && Chosen(body, {1}) == [CutPair()[2]]
  {
    NewestOnly(body, cost);
    ClosureMeaning(body, From(1, 2));
    assert Closed(body, {1});
    assert ChosenUpTo(body, 1, {1}) == [];
  }

  /** A protected block that ends between a call and its result: the result is summarised
      and the protected call is left unanswered. */
  lemma ProtectedBlockCanHalveAPair(cost: Message -> nat, summarize: seq<Message> -> string, header: string -> string)
    ensures ResultsFollowCalls(CutPair()) && PairsComplete(CutPair()) && UniqueCalls(CutPair())
    ensures !PairsComplete(Compacted(CutPair(), cost, 0, true, 1, summarize, header))
  {
    BothAreValid();
    var body := CutPair()[1..];
    CutPairKeeps(body, cost);
    assert LeadingSystem(CutPair()) == 0 && 0 in Indexes(2);
    var out := Compacted(CutPair(), cost, 0, true, 1, summarize, header);
    var summary := SummaryMessage(header, summarize(Chosen(body, Indexes(2) - {1})));
    assert out == [Call("t"), summary, CutPair()[2]];
    UnansweredCall(summary);
  }

  lemma UnansweredCall(summary: Message)
    requires summary.role == System
    ensures !PairsComplete([Call("t"), summary, CutPair()[2]])
  {
    var out := [Call("t"), summary, CutPair()[2]];
    assert out[0] in out && Calls(out[0], "t");
    assert forall m :: m in out ==> m == out[0] || m == out[1] || m == out[2];
    assert !Answered(out, "t");
  }
}
