/** The exact conditions in two cases: unique call ids with a protected block, and any call
    ids without one. */
module CompactionCases {
  import opened Compaction
  import opened CompactionProperties
  import opened CompactionExactness

  // --- Unique call ids ---

  /** The least that any budget keeps: the newest message and its tool-pair closure. */
  ghost function Newest(body: seq<Message>): set<nat> {
    if body == [] then {} else Closure(body, From(|body| - 1, |body|))
  }

  /** No budget keeps less than the newest message and its closure. */
  lemma NewestIsKept(body: seq<Message>, cost: Message -> nat, keep: int)
    ensures Newest(body) <= Kept(body, cost, keep, true)
  {
  }

  /** The call of a kept result is in the leading block or kept in front of it. */
  lemma ResultHasCall(front: seq<Message>, body: seq<Message>, kept: set<nat>, r: nat, id: string)
    requires ResultsFollowCalls(front + body) && UniqueCalls(front + body) && Closed(body, kept)
    requires r in kept && r < |body| && Answers(body[r], id)
    ensures HasCall(front, body, kept, r, id)
  {
    var j := CallOfResult(front, body, r, id);
    if EarlierCaller(body, r, id, j) {
      LastCallerIs(front, body, j, id);
      assert Mentions(body[r], id) && InUnit(body, id, j);
    }
  }

  lemma LastCallerIs(front: seq<Message>, body: seq<Message>, j: nat, id: string)
    requires UniqueCalls(front + body) && j < |body| && Calls(body[j], id)
    ensures CallerOf(body, id) == j
  {
    var c := CallerOf(body, id);
    assert c >= j;
    assert Calls((front + body)[|front| + j], id) && Calls((front + body)[|front| + c], id);
  }

  /** So with unique ids only the calls left open in the leading block matter. */
  lemma UniqueKeepsPairsIff(front: seq<Message>, body: seq<Message>, kept: set<nat>)
    requires ResultsFollowCalls(front + body) && UniqueCalls(front + body) && Closed(body, kept)
    ensures KeepsPairs(front, body, kept) <==> OpenCallsAnswered(front, body, kept)
  {
    forall r, id | r in kept && r < |body| && Answers(body[r], id)
      ensures HasCall(front, body, kept, r, id)
    {
      ResultHasCall(front, body, kept, r, id);
    }
  }

  lemma MoreAnswers(front: seq<Message>, body: seq<Message>, kept: set<nat>, more: set<nat>)
    requires kept <= more && OpenCallsAnswered(front, body, kept)
    ensures OpenCallsAnswered(front, body, more)
  {
    forall id | Called(front, id) && !Answered(front, id)
      ensures AnswersAmong(body, more, id)
    {
      assert AnswersAmong(body, kept, id);
    }
  }

  lemma TailsAreClosed(body: seq<Message>, start: nat)
    requires start < |body|
    ensures Closed(body, Closure(body, From(start, |body|)))
    ensures Newest(body) <= Closure(body, From(start, |body|))
  {
    ClosureMeaning(body, From(start, |body|));
    ClosureMeaning(body, From(|body| - 1, |body|));
  }

  /** They survive exactly when messages that are always kept answer them. */
  lemma UniquePairsSurviveIff(front: seq<Message>, body: seq<Message>)
    requires ValidTranscript(front + body) && UniqueCalls(front + body)
    ensures PairsSurvive(front, body) <==> OpenCallsAnswered(front, body, Newest(body))
  {
    if body == [] {
      AllKeepsPairs(front, body, {});
    } else {
      TailsAreClosed(body, |body| - 1);
      UniqueKeepsPairsIff(front, body, Newest(body));
      forall start: nat | start < |body| && OpenCallsAnswered(front, body, Newest(body))
        ensures KeepsPairs(front, body, Closure(body, From(start, |body|)))
      {
        TailsAreClosed(body, start);
        MoreAnswers(front, body, Newest(body), Closure(body, From(start, |body|)));
        UniqueKeepsPairsIff(front, body, Closure(body, From(start, |body|)));
      }
    }
  }

  /** With unique call ids, a protected block of any length is safe under every budget
      exactly when its open calls are answered by messages that are always kept. */
  lemma ProtectedBlockIsSafeIff(messages: seq<Message>, protectedCount: int, lead: nat,
                                summarize: seq<Message> -> string, header: string -> string)
    requires lead == Lead(messages, protectedCount) && ValidTranscript(messages) && UniqueCalls(messages)
    ensures OpenCallsAnswered(messages[..lead], messages[lead..], Newest(messages[lead..]))
            <==> SafeUnderEveryBudget(messages, protectedCount, summarize, header)
  {
    SplitRejoins(messages, lead);
    UniquePairsSurviveIff(messages[..lead], messages[lead..]);
    TranscriptIsSafeIff(messages, protectedCount, lead, summarize, header);
  }

  // --- No protected block ---

  /** A result in front of the last message that issues its call. */
  ghost predicate Misplaced(body: seq<Message>, r: nat, id: string) {
    r < |body| && Answers(body[r], id) && r < CallerOf(body, id)
  }

  /** Every kept result that stands in front of its last caller keeps a caller in front of it. */
  ghost predicate KeepsCallers(body: seq<Message>, kept: set<nat>) {
    forall r, id :: r in kept && Misplaced(body, r, id) ==> KeepsCaller(body, kept, r, id)
  }

  lemma LastCallerIsNoEarlier(body: seq<Message>, r: nat, id: string)
    requires ResultsFollowCalls(body) && r < |body| && Answers(body[r], id)
    ensures CallerOf(body, id) >= 0
  {
  }

  /** Wherever the tail starts, its closure keeps callers. */
  ghost predicate DraggedTogether(body: seq<Message>) {
    forall start: nat :: start < |body| ==> KeepsCallers(body, Closure(body, From(start, |body|)))
  }

  lemma SystemHasNoPairs(front: seq<Message>, id: string)
    requires forall i: nat :: i < |front| ==> front[i].role == System
    ensures !Called(front, id) && !Answered(front, id)
  {
  }

  /** A kept result behind its last caller has it kept, so only the others matter. */
  lemma CallsInFrontIff(front: seq<Message>, body: seq<Message>, kept: set<nat>)
    requires forall i: nat :: i < |front| ==> front[i].role == System
    requires ResultsFollowCalls(body) && Closed(body, kept)
    ensures KeepsPairs(front, body, kept) <==> KeepsCallers(body, kept)
  {
    forall id
      ensures !Called(front, id)
    {
      SystemHasNoPairs(front, id);
    }
    forall r, id | KeepsCallers(body, kept) && r in kept && r < |body| && Answers(body[r], id)
      ensures HasCall(front, body, kept, r, id)
    {
      LastCallerIsNoEarlier(body, r, id);
      var c: nat := CallerOf(body, id);
      if c < r {
        assert Mentions(body[r], id) && InUnit(body, id, c) && EarlierCaller(body, r, id, c);
      } else {
        assert Misplaced(body, r, id);
      }
    }
    forall r, id | CallsInFront(front, body, kept) && r in kept && Misplaced(body, r, id)
      ensures KeepsCaller(body, kept, r, id)
    {
      assert HasCall(front, body, kept, r, id);
    }
  }

  lemma DraggedTogetherIff(front: seq<Message>, body: seq<Message>)
    requires forall i: nat :: i < |front| ==> front[i].role == System
    requires ResultsFollowCalls(body)
    ensures PairsSurvive(front, body) <==> DraggedTogether(body)
  {
    forall start: nat | start < |body|
      ensures KeepsPairs(front, body, Closure(body, From(start, |body|)))
              <==> KeepsCallers(body, Closure(body, From(start, |body|)))
    {
      TailsAreClosed(body, start);
      CallsInFrontIff(front, body, Closure(body, From(start, |body|)));
    }
  }

  lemma LeadIsSystem(messages: seq<Message>, lead: nat)
    requires lead == LeadingSystem(messages)
    ensures lead <= |messages| && forall i: nat :: i < lead ==> messages[..lead][i].role == System
  {
  }

  /** Without a protected block, a valid transcript stays valid under every budget exactly
      when, wherever the tail starts, each result it drags in in front of its last caller
      comes with an earlier one. */
  lemma EveryBudgetIsSafeIff(messages: seq<Message>, lead: nat, summarize: seq<Message> -> string, header: string -> string)
    requires ValidTranscript(messages) && lead == LeadingSystem(messages)
    ensures DraggedTogether(messages[lead..]) <==> SafeUnderEveryBudget(messages, 0, summarize, header)
  {
    LeadIsSystem(messages, lead);
    DropSystemLead(messages, lead);
    DraggedTogetherIff(messages[..lead], messages[lead..]);
    assert lead == Lead(messages, 0);
    TranscriptIsSafeIff(messages, 0, lead, summarize, header);
  }

  // --- No protected block, and reused ids issued alone ---

  /** A message that issues a call id which a later message issues again issues no other id. */
  ghost predicate ReusedAlone(ms: seq<Message>) {
    forall i: nat, j: nat, id, other :: i < j < |ms| && Calls(ms[i], id) && Calls(ms[j], id) && Calls(ms[i], other) ==> other == id
  }

  /** No earlier caller belongs to the unit of any call. */
  lemma EarlierCallerInNoUnit(body: seq<Message>, r: nat, id: string, other: string, j: nat)
    requires ReusedAlone(body) && Misplaced(body, r, id) && EarlierCaller(body, r, id, j)
    ensures !InUnit(body, other, j)
  {
  }

  /** Everything but the earlier callers is closed: the pairing never leads back to them. */
  lemma NothingLeadsBack(body: seq<Message>, r: nat, id: string) returns (rest: set<nat>)
    requires ReusedAlone(body) && Misplaced(body, r, id)
    ensures forall j: nat :: j in rest <==> j < |body| && !EarlierCaller(body, r, id, j)
    ensures Closed(body, rest)
  {
    rest := set j: nat | j in Indexes(|body|) && !EarlierCaller(body, r, id, j);
    forall other, j: nat | EarlierCaller(body, r, id, j)
      ensures !InUnit(body, other, j)
    {
      EarlierCallerInNoUnit(body, r, id, other, j);
    }
  }

  /** With the tail starting at the last caller, the result is kept and none of its earlier callers is. */
  lemma KeptWithoutCaller(body: seq<Message>, r: nat, id: string) returns (kept: set<nat>)
    requires ReusedAlone(body) && Misplaced(body, r, id)
    ensures kept == Closure(body, From(CallerOf(body, id), |body|))
    ensures r in kept && forall j: nat :: EarlierCaller(body, r, id, j) ==> j !in kept
  {
    var c: nat := CallerOf(body, id);
    var tail := From(c, |body|);
    kept := Closure(body, tail);
    ClosureMeaning(body, tail);
    assert Mentions(body[c], id) && InUnit(body, id, r);
    var rest := NothingLeadsBack(body, r, id);
    assert tail <= rest;
  }

  /** When reused ids are issued alone, nothing drags an earlier caller in, so each result
      must come after the last message that issues its call. */
  lemma ReusedAloneDragsNothing(body: seq<Message>)
    requires ResultsFollowCalls(body) && ReusedAlone(body)
    ensures DraggedTogether(body) <==> ResultsFollowLastCaller(body)
  {
    if !ResultsFollowLastCaller(body) {
      var r, id := SomeMisplaced(body);
      var kept := KeptWithoutCaller(body, r, id);
      assert !KeepsCaller(body, kept, r, id);
      assert !KeepsCallers(body, kept);
    }
  }

  lemma SomeMisplaced(body: seq<Message>) returns (r: nat, id: string)
    requires ResultsFollowCalls(body) && !ResultsFollowLastCaller(body)
    ensures Misplaced(body, r, id)
  {
    r, id :| 0 <= r < |body| && Answers(body[r], id) && !(0 <= CallerOf(body, id) < r);
    LastCallerIsNoEarlier(body, r, id);
  }

  /** With reused ids issued alone, a transcript survives every budget exactly when each
      result follows the last message that issues its call. */
  lemma ReusedAloneIsSafeIff(messages: seq<Message>, lead: nat, summarize: seq<Message> -> string, header: string -> string)
    requires ValidTranscript(messages) && lead == LeadingSystem(messages) && ReusedAlone(messages[lead..])
    ensures ResultsFollowLastCaller(messages[lead..]) <==> SafeUnderEveryBudget(messages, 0, summarize, header)
  {
    DropSystemLead(messages, lead);
    ReusedAloneDragsNothing(messages[lead..]);
    EveryBudgetIsSafeIff(messages, lead, summarize, header);
  }
}
