/** The distinct-tool cap of one run under concurrent calls: add, count, roll back. */
module ToolQuota {
  import opened Sets

  datatype Phase = Begun | AddedNew | OverCap | Allowed | Refused

  datatype Call = Call(tool: string, phase: Phase)

  /** The stored set and the calls in progress, with two history sets: the tools some call
      was allowed to use, and the tools added by a call that is still undecided. */
  datatype State = State(tools: set<string>, calls: map<nat, Call>, allowed: set<string>, undecided: set<string>)

  datatype Step = Begin(id: nat, tool: string) | Add(id: nat) | Count(id: nat) | RollBack(id: nat)

  predicate In(s: State, id: nat, phase: Phase) {
    id in s.calls && s.calls[id].phase == phase
  }

  function To(s: State, id: nat, phase: Phase): State
    requires id in s.calls
  {
    s.(calls := s.calls[id := s.calls[id].(phase := phase)])
  }

  predicate Enabled(s: State, step: Step) {
    match step
    case Begin(id, _) => id !in s.calls
    case Add(id) => In(s, id, Begun)
    case Count(id) => In(s, id, AddedNew)
    case RollBack(id) => In(s, id, OverCap)
  }

  /** A tool already in the set is allowed at once; a new one is counted and may be rolled back. */
  function Next(s: State, step: Step, cap: int): State
    requires Enabled(s, step)
  {
    match step
    case Begin(id, tool) => s.(calls := s.calls[id := Call(tool, Begun)])
    case Add(id) =>
      var tool := s.calls[id].tool;
      if tool in s.tools then To(s, id, Allowed).(allowed := s.allowed + {tool})
      else To(s, id, AddedNew).(tools := s.tools + {tool}, undecided := s.undecided + {tool})
    case Count(id) =>
      var tool := s.calls[id].tool;
      if |s.tools| > cap then To(s, id, OverCap)
      else To(s, id, Allowed).(allowed := s.allowed + {tool}, undecided := s.undecided - {tool})
    case RollBack(id) =>
      var tool := s.calls[id].tool;
      To(s, id, Refused).(tools := s.tools - {tool}, undecided := s.undecided - {tool})
  }

  /** A call that nothing interrupts is allowed if and only if its tool has been used before
      or fewer distinct tools than the cap have, and a refused one leaves the set as it was. */
  lemma UninterruptedCall(s: State, id: nat, tool: string, cap: int)
    requires id !in s.calls
    ensures var added := Next(Next(s, Begin(id, tool), cap), Add(id), cap);
            if tool in s.tools then In(added, id, Allowed) && added.tools == s.tools
            else
              && Enabled(added, Count(id))
              && var counted := Next(added, Count(id), cap);
                 if |s.tools| < cap then In(counted, id, Allowed) && counted.tools == s.tools + {tool}
                 else
                   && Enabled(counted, RollBack(id))
                   && In(Next(counted, RollBack(id), cap), id, Refused) && Next(counted, RollBack(id), cap).tools == s.tools
  {
    if tool !in s.tools {
      assert |s.tools + {tool}| == |s.tools| + 1;
    }
  }

  predicate Undecided(s: State, id: nat) {
    In(s, id, AddedNew) || In(s, id, OverCap)
  }

  function Room(cap: int): nat {
    if cap > 0 then cap else 0
  }

  /** Each tool still being decided is so by one call, and each such call by its tool. */
  ghost predicate Owned(s: State) {
    && (forall id :: Undecided(s, id) ==> s.calls[id].tool in s.undecided)
    && (forall a, b :: Undecided(s, a) && Undecided(s, b) && s.calls[a].tool == s.calls[b].tool ==> a == b)
    && (forall tool :: tool in s.undecided ==> HasOwner(s, tool))
  }

  ghost predicate HasOwner(s: State, tool: string) {
    exists id :: Undecided(s, id) && s.calls[id].tool == tool
  }

  /** The store holds the allowed tools and those still being decided, and the allowed
      ones respect the cap. */
  ghost predicate Balanced(s: State, cap: int) {
    && s.tools == s.allowed + s.undecided
    && s.allowed !! s.undecided
    && |s.allowed| <= Room(cap)
  }

  ghost predicate Consistent(s: State, cap: int) {
    Balanced(s, cap) && Owned(s)
  }

  /** A call finds its tool in the store only when that tool has been allowed before. */
  ghost predicate Guarded(s: State, step: Step) {
    step.Add? && In(s, step.id, Begun) && s.calls[step.id].tool in s.tools ==> s.calls[step.id].tool in s.allowed
  }

  // --- Runs in which no call finds a tool that is still undecided ---

  lemma StepTouchesNoOther(s: State, step: Step, cap: int, other: nat)
    requires Enabled(s, step) && other != step.id
    ensures other in Next(s, step, cap).calls <==> other in s.calls
    ensures other in s.calls ==> Next(s, step, cap).calls[other] == s.calls[other]
  {
  }

  /** Beginning a call changes no tool. */
  lemma BeginKeepsOwned(s: State, id: nat, tool: string, cap: int)
    requires Owned(s) && Enabled(s, Begin(id, tool))
    ensures Owned(Next(s, Begin(id, tool), cap))
  {
    KeepsOwned(s, Begin(id, tool), cap);
  }

  /** A step that leaves its own call out of the undecided ones, and takes its tool out of
      them exactly when the call was one of them. */
  lemma KeepsOwned(s: State, step: Step, cap: int)
    requires Owned(s) && Enabled(s, step)
    requires Undecided(Next(s, step, cap), step.id) <==> Undecided(s, step.id)
    requires step.id in s.calls ==> Next(s, step, cap).calls[step.id].tool == s.calls[step.id].tool
    requires Next(s, step, cap).undecided == s.undecided
    ensures Owned(Next(s, step, cap))
  {
    var s' := Next(s, step, cap);
    forall id
      ensures Undecided(s', id) <==> Undecided(s, id)
      ensures Undecided(s, id) ==> s'.calls[id].tool == s.calls[id].tool
    {
      if id != step.id {
        StepTouchesNoOther(s, step, cap, id);
      }
    }
    forall tool | tool in s'.undecided
      ensures HasOwner(s', tool)
    {
      assert HasOwner(s, tool);
      var id :| Undecided(s, id) && s.calls[id].tool == tool;
      assert Undecided(s', id);
    }
  }

  /** A call that is decided takes its tool out of the undecided ones. */
  lemma DecidingKeepsOwned(s: State, step: Step, cap: int)
    requires Owned(s) && Enabled(s, step) && (step.Count? || step.RollBack?)
    requires !Undecided(Next(s, step, cap), step.id)
    ensures Owned(Next(s, step, cap))
  {
    var s' := Next(s, step, cap);
    assert s'.undecided == s.undecided - {s.calls[step.id].tool};
    forall id
      ensures Undecided(s', id) <==> Undecided(s, id) && id != step.id
      ensures Undecided(s', id) ==> s'.calls[id].tool == s.calls[id].tool
    {
      if id != step.id {
        StepTouchesNoOther(s, step, cap, id);
      }
    }
    forall tool | tool in s'.undecided
      ensures HasOwner(s', tool)
    {
      assert HasOwner(s, tool);
      var id :| Undecided(s, id) && s.calls[id].tool == tool;
      assert Undecided(s', id);
    }
  }

  /** A new tool gets its call as owner. */
  lemma AddingKeepsOwned(s: State, id: nat, cap: int)
    requires Owned(s) && Enabled(s, Add(id)) && s.calls[id].tool !in s.tools && s.undecided <= s.tools
    ensures Owned(Next(s, Add(id), cap))
  {
    var s' := Next(s, Add(id), cap);
    forall other
      ensures Undecided(s', other) <==> Undecided(s, other) || other == id
      ensures Undecided(s', other) ==> s'.calls[other].tool == s.calls[other].tool
    {
      if other != id {
        StepTouchesNoOther(s, Add(id), cap, other);
      }
    }
    forall tool | tool in s'.undecided
      ensures HasOwner(s', tool)
    {
      if tool == s.calls[id].tool {
        assert Undecided(s', id);
      } else {
        assert HasOwner(s, tool);
        var other :| Undecided(s, other) && s.calls[other].tool == tool;
        assert Undecided(s', other);
      }
    }
  }

  /** Every enabled guarded step keeps owners. */
  lemma StepKeepsOwned(s: State, step: Step, cap: int)
    requires Owned(s) && Enabled(s, step) && s.undecided <= s.tools
    ensures Owned(Next(s, step, cap))
  {
    match step
    case Begin(id, tool) => BeginKeepsOwned(s, id, tool, cap);
    case Add(id) =>
      if s.calls[id].tool in s.tools {
        KeepsOwned(s, step, cap);
      } else {
        AddingKeepsOwned(s, id, cap);
      }
    case Count(id) =>
      if |s.tools| > cap {
        KeepsOwned(s, step, cap);
      } else {
        DecidingKeepsOwned(s, step, cap);
      }
    case RollBack(id) => DecidingKeepsOwned(s, step, cap);
  }

  lemma OwnToolIsUndecided(s: State, step: Step)
    requires Owned(s) && Enabled(s, step)
    ensures step.Count? || step.RollBack? ==> s.calls[step.id].tool in s.undecided
  {
    assert step.Count? || step.RollBack? ==> Undecided(s, step.id);
  }

  /** Deciding a tool moves it across or drops it, and a new one joins the undecided. */
  lemma MoveTool(settled: set<string>, undecided: set<string>, tool: string)
    requires settled !! undecided
    ensures tool in undecided ==>
              && settled + {tool} !! undecided - {tool}
              && settled + undecided == (settled + {tool}) + (undecided - {tool})
              && (settled + undecided) - {tool} == settled + (undecided - {tool})
    ensures tool !in settled + undecided ==>
              && settled !! undecided + {tool}
              && (settled + undecided) + {tool} == settled + (undecided + {tool})
  {
  }

  lemma GuardedStepKeepsBalance(s: State, step: Step, cap: int)
    requires Balanced(s, cap) && Enabled(s, step) && Guarded(s, step)
    requires step.Count? || step.RollBack? ==> s.calls[step.id].tool in s.undecided
    ensures Balanced(Next(s, step, cap), cap)
  {
    if step.Begin? {
      assert Next(s, step, cap).allowed == s.allowed;
    } else {
      MoveTool(s.allowed, s.undecided, s.calls[step.id].tool);
      CountedFits(s, step, cap);
    }
  }

  lemma CountedFits(s: State, step: Step, cap: int)
    requires Balanced(s, cap) && Enabled(s, step) && Guarded(s, step) && !step.Begin?
    requires step.Count? ==> s.calls[step.id].tool in s.undecided
    ensures |Next(s, step, cap).allowed| <= Room(cap)
  {
    if step.Count? {
      SubsetSize(s.allowed + {s.calls[step.id].tool}, s.tools);
    } else if step.Add? && s.calls[step.id].tool in s.tools {
      assert s.allowed + {s.calls[step.id].tool} == s.allowed;
    }
  }

  /** A guarded step keeps the state consistent. */
  lemma GuardedStepKeepsConsistent(s: State, step: Step, cap: int)
    requires Consistent(s, cap) && Enabled(s, step) && Guarded(s, step)
    ensures Consistent(Next(s, step, cap), cap)
  {
    OwnToolIsUndecided(s, step);
    StepKeepsOwned(s, step, cap);
    GuardedStepKeepsBalance(s, step, cap);
  }

  ghost predicate Leads(before: State, step: Step, cap: int, after: State) {
    Enabled(before, step) && Guarded(before, step) && after == Next(before, step, cap)
  }

  /** `s` is reached by that many steps, none of which lets a call find an undecided tool. */
  ghost predicate Reachable(s: State, cap: int, steps: nat)
    decreases steps
  {
    if steps == 0 then s == Start()
    else exists before: State, step: Step :: Reachable(before, cap, steps - 1) && Leads(before, step, cap, s)
  }

  lemma {:induction false} ReachableIsConsistent(s: State, cap: int, steps: nat)
    requires Reachable(s, cap, steps)
    ensures Consistent(s, cap)
    decreases steps
  {
    if steps > 0 {
      var before: State, step: Step :| Reachable(before, cap, steps - 1) && Leads(before, step, cap, s);
      ReachableIsConsistent(before, cap, steps - 1);
      GuardedStepKeepsConsistent(before, step, cap);
    }
  }

  /** While no call finds an undecided tool, the distinct tools allowed never exceed the cap. */
  lemma GuardedRunsRespectTheCap(s: State, cap: int, steps: nat)
    requires Reachable(s, cap, steps)
    ensures |s.allowed| <= Room(cap)
  {
    ReachableIsConsistent(s, cap, steps);
  }

  // --- What one unguarded add makes possible ---

  /** Some guarded run from `s` of at most that many steps exceeds the cap. */
  ghost predicate ExceedsWithin(s: State, cap: int, steps: nat)
    decreases steps
  {
    || |s.allowed| > Room(cap)
    || (steps > 0 && exists step: Step, after: State :: Leads(s, step, cap, after) && ExceedsWithin(after, cap, steps - 1))
  }

  ghost predicate CanExceed(s: State, cap: int) {
    exists steps: nat :: ExceedsWithin(s, cap, steps)
  }

  lemma {:induction false} ConsistentNeverExceeds(s: State, cap: int, steps: nat)
    requires Consistent(s, cap)
    ensures !ExceedsWithin(s, cap, steps)
    decreases steps
  {
    if steps > 0 {
      forall step: Step, after: State | Leads(s, step, cap, after)
        ensures !ExceedsWithin(after, cap, steps - 1)
      {
        GuardedStepKeepsConsistent(s, step, cap);
        ConsistentNeverExceeds(after, cap, steps - 1);
      }
    }
  }

  lemma StepFirst(s: State, step: Step, cap: int)
    requires Enabled(s, step) && Guarded(s, step) && CanExceed(Next(s, step, cap), cap)
    ensures CanExceed(s, cap)
  {
    var after := Next(s, step, cap);
    var steps: nat :| ExceedsWithin(after, cap, steps);
    assert Leads(s, step, cap, after);
    assert ExceedsWithin(s, cap, steps + 1);
  }

  /** `leaked` was allowed without room for it: the other allowed tools and the undecided
      ones make up the store. */
  ghost predicate Leaked(s: State, leaked: string, others: set<string>) {
    && s.tools == others + s.undecided
    && others !! s.undecided
    && leaked !in others
    && s.allowed == others + {leaked}
  }

  ghost predicate Leaky(s: State, leaked: string, others: set<string>) {
    Leaked(s, leaked, others) && Owned(s)
  }

  /** Ids and tools never run out. */
  lemma {:induction false} UnusedId(used: set<nat>) returns (id: nat)
    ensures forall other :: other in used ==> other < id
  {
    if used == {} {
      id := 0;
    } else {
      var any :| any in used;
      var bound := UnusedId(used - {any});
      id := if bound > any then bound else any + 1;
      assert forall other :: other in used && other != any ==> other in used - {any};
    }
  }

  lemma {:induction false} UnusedTool(used: set<string>) returns (tool: string)
    ensures forall other :: other in used ==> |other| < |tool|
  {
    if used == {} {
      tool := "x";
    } else {
      var any :| any in used;
      var longer := UnusedTool(used - {any});
      tool := if |longer| > |any| then longer else any + "x";
      assert forall other :: other in used && other != any ==> other in used - {any};
    }
  }

  lemma NewCall(s: State, leaked: string, others: set<string>) returns (id: nat, tool: string)
    ensures id !in s.calls && tool !in s.tools && tool !in others && tool != leaked && tool !in s.undecided
  {
    id := UnusedId(s.calls.Keys);
    tool := UnusedTool(s.tools + others + s.undecided + {leaked});
  }

  /** The store after a new call has added a new tool. */
  function WithNewCall(s: State, id: nat, tool: string): State {
    s.(tools := s.tools + {tool}, undecided := s.undecided + {tool}, calls := s.calls[id := Call(tool, AddedNew)])
  }

  lemma NewCallSteps(s: State, cap: int, id: nat, tool: string)
    requires id !in s.calls && tool !in s.tools
    ensures Enabled(s, Begin(id, tool)) && Enabled(Next(s, Begin(id, tool), cap), Add(id))
    ensures Next(Next(s, Begin(id, tool), cap), Add(id), cap) == WithNewCall(s, id, tool)
    ensures CanExceed(WithNewCall(s, id, tool), cap) ==> CanExceed(s, cap)
  {
    var begun := Next(s, Begin(id, tool), cap);
    assert Next(begun, Add(id), cap) == WithNewCall(s, id, tool);
    if CanExceed(WithNewCall(s, id, tool), cap) {
      StepFirst(begun, Add(id), cap);
      StepFirst(s, Begin(id, tool), cap);
    }
  }

  lemma NewCallKeepsLeaky(s: State, leaked: string, others: set<string>, cap: int, id: nat, tool: string)
    requires Leaky(s, leaked, others)
    requires id !in s.calls && tool !in s.tools && tool !in others && tool != leaked
    ensures Leaky(WithNewCall(s, id, tool), leaked, others)
  {
    NewCallKeepsOwned(s, cap, id, tool);
    MoveTool(others, s.undecided, tool);
  }

  lemma NewCallKeepsOwned(s: State, cap: int, id: nat, tool: string)
    requires Owned(s) && s.undecided <= s.tools && id !in s.calls && tool !in s.tools
    ensures Owned(WithNewCall(s, id, tool))
  {
    NewCallSteps(s, cap, id, tool);
    StepKeepsOwned(s, Begin(id, tool), cap);
    StepKeepsOwned(Next(s, Begin(id, tool), cap), Add(id), cap);
  }

  /** With nothing undecided, new tools are allowed one by one until the cap is reached;
      the leaked one comes on top. */
  lemma {:induction false} FillToTheCap(s: State, leaked: string, others: set<string>, cap: int)
    requires Leaky(s, leaked, others) && s.undecided == {} && |others| <= Room(cap)
    ensures CanExceed(s, cap)
    decreases Room(cap) - |others|
  {
    if |others| == Room(cap) {
      assert ExceedsWithin(s, cap, 0);
    } else {
      var id, tool := NewCall(s, leaked, others);
      var added := WithNewCall(s, id, tool);
      NewCallKeepsLeaky(s, leaked, others, cap, id, tool);
      NewCallSteps(s, cap, id, tool);
      var counted := Next(added, Count(id), cap);
      CountAllows(added, id, leaked, others, cap);
      FillToTheCap(counted, leaked, others + {tool}, cap);
      StepFirst(added, Count(id), cap);
    }
  }

  lemma CountAllows(s: State, id: nat, leaked: string, others: set<string>, cap: int)
    requires Leaky(s, leaked, others) && In(s, id, AddedNew) && |s.tools| <= cap && s.calls[id].tool != leaked
    ensures Leaky(Next(s, Count(id), cap), leaked, others + {s.calls[id].tool})
    ensures Next(s, Count(id), cap).undecided == s.undecided - {s.calls[id].tool}
  {
    OwnToolIsUndecided(s, Count(id));
    DecidingKeepsOwned(s, Count(id), cap);
    MoveTool(others, s.undecided, s.calls[id].tool);
    AddLeaked(others, leaked, s.calls[id].tool);
  }

  lemma AddLeaked(others: set<string>, leaked: string, tool: string)
    ensures others + {leaked} + {tool} == others + {tool} + {leaked}
  {
  }

  lemma RollBackKeepsLeaky(s: State, id: nat, leaked: string, others: set<string>, cap: int)
    requires Leaky(s, leaked, others) && In(s, id, OverCap)
    ensures Leaky(Next(s, RollBack(id), cap), leaked, others)
    ensures Next(s, RollBack(id), cap).undecided < s.undecided
    ensures forall other :: In(Next(s, RollBack(id), cap), other, AddedNew) ==> In(s, other, AddedNew)
  {
    OwnToolIsUndecided(s, RollBack(id));
    DecidingKeepsOwned(s, RollBack(id), cap);
    MoveTool(others, s.undecided, s.calls[id].tool);
    var s' := Next(s, RollBack(id), cap);
    assert s.calls[id].tool in s.undecided && s.calls[id].tool !in s'.undecided;
  }

  /** Undecided calls that are over the cap are rolled back one by one. */
  lemma {:induction false} RollAllBack(s: State, leaked: string, others: set<string>, cap: int)
    requires Leaky(s, leaked, others) && |others| <= Room(cap)
    requires forall id :: !In(s, id, AddedNew)
    ensures CanExceed(s, cap)
    decreases s.undecided
  {
    if s.undecided == {} {
      FillToTheCap(s, leaked, others, cap);
    } else {
      var tool :| tool in s.undecided;
      assert HasOwner(s, tool);
      var id :| Undecided(s, id) && s.calls[id].tool == tool;
      var after := Next(s, RollBack(id), cap);
      RollBackKeepsLeaky(s, id, leaked, others, cap);
      RollAllBack(after, leaked, others, cap);
      StepFirst(s, RollBack(id), cap);
    }
  }

  function Uncounted(s: State): set<nat> {
    set id | id in s.calls && s.calls[id].phase == AddedNew
  }

  lemma OverCapKeepsLeaky(s: State, id: nat, leaked: string, others: set<string>, cap: int)
    requires Leaky(s, leaked, others) && In(s, id, AddedNew) && |s.tools| > cap
    ensures Leaky(Next(s, Count(id), cap), leaked, others) && Next(s, Count(id), cap).tools == s.tools
    ensures Uncounted(Next(s, Count(id), cap)) == Uncounted(s) - {id}
  {
    KeepsOwned(s, Count(id), cap);
  }

  /** While the store is over the cap, every call that counts is over it. */
  lemma {:induction false} CountAll(s: State, leaked: string, others: set<string>, cap: int)
    requires Leaky(s, leaked, others) && |others| <= Room(cap) && |s.tools| > cap
    ensures CanExceed(s, cap)
    decreases Uncounted(s)
  {
    if Uncounted(s) == {} {
      assert forall id :: In(s, id, AddedNew) ==> id in Uncounted(s);
      RollAllBack(s, leaked, others, cap);
    } else {
      var id :| id in Uncounted(s);
      var after := Next(s, Count(id), cap);
      OverCapKeepsLeaky(s, id, leaked, others, cap);
      CountAll(after, leaked, others, cap);
      StepFirst(s, Count(id), cap);
    }
  }

  /** New calls fill the store until it is over the cap. */
  lemma {:induction false} FillTheStore(s: State, leaked: string, others: set<string>, cap: int)
    requires Leaky(s, leaked, others) && |others| <= Room(cap)
    ensures CanExceed(s, cap)
    decreases Room(cap) + 1 - |s.tools|
  {
    if |s.tools| > cap {
      CountAll(s, leaked, others, cap);
    } else {
      var id, tool := NewCall(s, leaked, others);
      var after := WithNewCall(s, id, tool);
      NewCallKeepsLeaky(s, leaked, others, cap, id, tool);
      NewCallSteps(s, cap, id, tool);
      FillTheStore(after, leaked, others, cap);
    }
  }

  /** An add is safe exactly when it does not find its tool undecided: otherwise some run,
      in which no other call does, exceeds the cap. */
  lemma AddIsSafeIff(s: State, id: nat, cap: int)
    requires Consistent(s, cap) && Enabled(s, Add(id))
    ensures Guarded(s, Add(id)) <==> !CanExceed(Next(s, Add(id), cap), cap)
  {
    var after := Next(s, Add(id), cap);
    if Guarded(s, Add(id)) {
      GuardedStepKeepsConsistent(s, Add(id), cap);
      forall steps: nat
        ensures !ExceedsWithin(after, cap, steps)
      {
        ConsistentNeverExceeds(after, cap, steps);
      }
    } else {
      StepKeepsOwned(s, Add(id), cap);
      FillTheStore(after, s.calls[id].tool, s.allowed, cap);
    }
  }

  /** The same over whole runs: up to the first add that finds an undecided tool the cap
      holds, and from there it can be exceeded. */
  lemma CapIsSafeIff(s: State, id: nat, cap: int, steps: nat)
    requires Reachable(s, cap, steps) && Enabled(s, Add(id))
    ensures |s.allowed| <= Room(cap)
    ensures Guarded(s, Add(id)) <==> !CanExceed(Next(s, Add(id), cap), cap)
  {
    ReachableIsConsistent(s, cap, steps);
    AddIsSafeIff(s, id, cap);
  }

  function Start(): State {
    State({}, map[], {}, {})
  }

  /** The cap can be exceeded: with room for one tool, a second tool is added, a third call
      finds it and is allowed, and only then is the second call counted and rolled back. */
  lemma ConcurrentCallsCanExceedTheCap()
    ensures var s1 := Next(Next(Next(Start(), Begin(1, "search"), 1), Add(1), 1), Count(1), 1);
            var s2 := Next(Next(s1, Begin(2, "fetch"), 1), Add(2), 1);
            var s3 := Next(Next(s2, Begin(3, "fetch"), 1), Add(3), 1);
            var s4 := Next(Next(s3, Count(2), 1), RollBack(2), 1);
            In(s4, 2, Refused) && In(s4, 3, Allowed) && s4.allowed == {"search", "fetch"} && |s4.allowed| == 2
  {
    var s1 := Next(Next(Next(Start(), Begin(1, "search"), 1), Add(1), 1), Count(1), 1);
    assert s1.tools == {"search"};
    var s2 := Next(Next(s1, Begin(2, "fetch"), 1), Add(2), 1);
    assert "fetch"[0] != "search"[0];
    var s3 := Next(Next(s2, Begin(3, "fetch"), 1), Add(3), 1);
    assert |s3.tools| == 2;
  }
}
