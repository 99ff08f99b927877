/** Context compaction: a budgeted newest-first tail, closed under tool-call pairs,
    kept verbatim in original order while the rest is summarised. A message is
    identified by its index in the body, as the program identifies it by object. */
module Compaction {
  import opened Text

  datatype Role = System | User | Assistant | Tool

  /** `toolCalls` are the ids of an assistant's calls and `toolCallId` the id a tool
      result answers; "" stands for an id that is absent or unusable. */
  datatype Message = Message(role: Role, content: string, toolCalls: seq<string>, toolCallId: string)

  predicate Calls(m: Message, id: string) {
    m.role == Assistant && id != "" && id in m.toolCalls
  }

  predicate Answers(m: Message, id: string) {
    m.role == Tool && id != "" && m.toolCallId == id
  }

  // --- The budgeted tail ---

  /** Token cost of the body from `start` on. */
  function Cost(body: seq<Message>, cost: Message -> nat, start: nat): nat
    decreases |body| - start
  {
    if start >= |body| then 0 else cost(body[start]) + Cost(body, cost, start + 1)
  }

  /** `start` begins the tail: within budget unless it holds only the newest message,
      still short of the budget before its first message was added, and not extendable. */
  ghost predicate IsTailStart(body: seq<Message>, cost: Message -> nat, keep: int, start: nat) {
    && start <= |body|
    && (body != [] ==> start < |body|)
    && (start + 1 < |body| ==> Cost(body, cost, start) <= keep)
    && (forall j: nat :: start < j < |body| ==> Cost(body, cost, j) < keep)
    && (0 < start < |body| ==> Cost(body, cost, start) >= keep || Cost(body, cost, start - 1) > keep)
  }

  lemma TailStartUnique(body: seq<Message>, cost: Message -> nat, keep: int, s: nat, t: nat)
    requires IsTailStart(body, cost, keep, s) && IsTailStart(body, cost, keep, t)
    ensures s == t
  {
  }

  ghost function TailStart(body: seq<Message>, cost: Message -> nat, keep: int): (start: nat)
    ensures IsTailStart(body, cost, keep, start)
  {
    if body == [] then 0 else Extended(body, cost, keep, |body| - 1)
  }

  /** Extend a tail towards older messages for as long as the budget allows. */
  ghost function Extended(body: seq<Message>, cost: Message -> nat, keep: int, start: nat): (result: nat)
    requires start < |body|
    requires start + 1 < |body| ==> Cost(body, cost, start) <= keep
    requires forall j: nat :: start < j < |body| ==> Cost(body, cost, j) < keep
    ensures IsTailStart(body, cost, keep, result)
  {
    if start == 0 || Cost(body, cost, start) >= keep || Cost(body, cost, start - 1) > keep then start
    else Extended(body, cost, keep, start - 1)
  }

  /** The newest-first walk: indexes are collected from the end and then reversed. */
  method PickTail(body: seq<Message>, cost: Message -> nat, keep: int) returns (tail: seq<nat>, used: nat)
    ensures |tail| == |body| - TailStart(body, cost, keep)
    ensures forall k: nat :: k < |tail| ==> tail[k] == TailStart(body, cost, keep) + k
    ensures used == Cost(body, cost, TailStart(body, cost, keep))
  {
    var picked: seq<nat>;
    picked, used := [], 0;
    var i: nat := |body|;
    while i > 0
      invariant i <= |body| && |picked| == |body| - i && used == Cost(body, cost, i)
      invariant picked == seq(|picked|, k requires 0 <= k < |body| => |body| - 1 - k)
      invariant i + 1 < |body| ==> used <= keep
      invariant forall j: nat :: i <= j < |body| ==> Cost(body, cost, j) < keep
    {
      var t := cost(body[i - 1]);
      assert Cost(body, cost, i - 1) == t + used;
      if picked != [] && used + t > keep {
        break;
      }
      picked := picked + [i - 1];
      used := used + t;
      i := i - 1;
      if used >= keep {
        break;
      }
    }
    tail := seq(|picked|, k requires 0 <= k < |picked| => picked[|picked| - 1 - k]);
    TailStartUnique(body, cost, keep, i, TailStart(body, cost, keep));
  }

  // --- Tool-pair closure ---

  function Referenced(m: Message): (ids: set<string>)
    ensures forall id :: id in ids <==> Mentions(m, id)
  {
    if m.role == Assistant then set id | id in m.toolCalls && id != ""
    else if m.role == Tool && m.toolCallId != "" then {m.toolCallId}
    else {}
  }

  /** The last message among the first `n` that issues call `id`, or -1. */
  ghost function CallerUpTo(body: seq<Message>, n: nat, id: string): (c: int)
    requires n <= |body|
    ensures -1 <= c < n
    ensures c >= 0 ==> Calls(body[c], id)
    ensures forall j: nat :: c < j < n ==> !Calls(body[j], id)
  {
    if n == 0 then -1
    else if Calls(body[n - 1], id) then n - 1
    else CallerUpTo(body, n - 1, id)
  }

  /** The results of call `id` among the first `n` messages, in order. */
  ghost function ResultsUpTo(body: seq<Message>, n: nat, id: string): (r: seq<nat>)
    requires n <= |body|
    ensures forall j: nat :: j in r <==> j < n && Answers(body[j], id)
  {
    if n == 0 then []
    else ResultsUpTo(body, n - 1, id) + (if Answers(body[n - 1], id) then [n - 1] else [])
  }

  ghost function CallerOf(body: seq<Message>, id: string): int {
    CallerUpTo(body, |body|, id)
  }

  ghost function Entry(callerOf: map<string, nat>, id: string): int {
    if id in callerOf then callerOf[id] else -1
  }

  ghost function Entries(resultsOf: map<string, seq<nat>>, id: string): seq<nat> {
    if id in resultsOf then resultsOf[id] else []
  }

  predicate Mentions(m: Message, id: string) {
    Calls(m, id) || Answers(m, id)
  }

  /** Message `j` belongs to the unit of call `id`. */
  ghost predicate InUnit(body: seq<Message>, id: string, j: nat) {
    j < |body| && (CallerOf(body, id) == j || Answers(body[j], id))
  }

  /** A set of indexes that holds the whole unit of every call its messages mention. */
  ghost predicate Closed(body: seq<Message>, s: set<nat>) {
    forall i, id, j :: i in s && i < |body| && Mentions(body[i], id) && InUnit(body, id, j) ==> j in s
  }

  ghost predicate InEveryClosed(body: seq<Message>, tail: set<nat>, i: nat) {
    forall c: set<nat> :: tail <= c && Closed(body, c) ==> i in c
  }

  /** The least closed set that contains the tail. */
  ghost function Closure(body: seq<Message>, tail: set<nat>): set<nat> {
    set i: nat | i < |body| && InEveryClosed(body, tail, i)
  }

  lemma ClosureIsLeast(body: seq<Message>, tail: set<nat>, s: set<nat>)
    requires tail <= s && Closed(body, s) && (forall i :: i in s ==> i < |body|)
    requires forall i :: i in s ==> InEveryClosed(body, tail, i)
    ensures s == Closure(body, tail)
  {
  }

  ghost function Indexes(n: nat): (s: set<nat>)
    ensures forall i: nat :: i in s <==> i < n
  {
    if n == 0 then {} else Indexes(n - 1) + {n - 1}
  }

  /** The indexes of `s` below `n`, in order. */
  function Select(n: nat, s: set<nat>): seq<nat> {
    if n == 0 then []
    else if n - 1 in s then Select(n - 1, s) + [n - 1]
    else Select(n - 1, s)
  }

  /** The caller and the results of every call id. */
  method IndexPairs(body: seq<Message>) returns (callerOf: map<string, nat>, resultsOf: map<string, seq<nat>>)
    ensures forall id :: Entry(callerOf, id) == CallerOf(body, id)
    ensures forall id :: Entries(resultsOf, id) == ResultsUpTo(body, |body|, id)
  {
    callerOf, resultsOf := map[], map[];
    for i := 0 to |body|
      invariant forall id :: Entry(callerOf, id) == CallerUpTo(body, i, id)
      invariant forall id :: Entries(resultsOf, id) == ResultsUpTo(body, i, id)
    {
      IndexStep(body, i);
      callerOf, resultsOf := IndexMessage(body[i], i, callerOf, resultsOf);
    }
  }

  lemma IndexStep(body: seq<Message>, i: nat)
    requires i < |body|
    ensures forall id :: CallerUpTo(body, i + 1, id) == if Calls(body[i], id) then i else CallerUpTo(body, i, id)
    ensures forall id :: ResultsUpTo(body, i + 1, id) == ResultsUpTo(body, i, id) + (if Answers(body[i], id) then [i] else [])
  {
  }

  method IndexMessage(m: Message, i: nat, callerOf0: map<string, nat>, resultsOf0: map<string, seq<nat>>)
    returns (callerOf: map<string, nat>, resultsOf: map<string, seq<nat>>)
    ensures forall id :: Entry(callerOf, id) == if Calls(m, id) then i else Entry(callerOf0, id)
    ensures forall id :: Entries(resultsOf, id) == Entries(resultsOf0, id) + (if Answers(m, id) then [i] else [])
  {
    callerOf, resultsOf := callerOf0, resultsOf0;
    if m.role == Assistant {
      callerOf, resultsOf := RegisterCalls(m.toolCalls, i, callerOf, resultsOf);
    } else if m.role == Tool && m.toolCallId != "" {
      var id := m.toolCallId;
      resultsOf := resultsOf[id := (if id in resultsOf then resultsOf[id] else []) + [i]];
    }
  }

  /** Message `i` becomes the caller of each of its calls; a new call has no results yet. */
  method RegisterCalls(calls: seq<string>, i: nat, callerOf0: map<string, nat>, resultsOf0: map<string, seq<nat>>)
    returns (callerOf: map<string, nat>, resultsOf: map<string, seq<nat>>)
    ensures forall id :: Entry(callerOf, id) == if id != "" && id in calls then i else Entry(callerOf0, id)
    ensures forall id :: Entries(resultsOf, id) == Entries(resultsOf0, id)
  {
    callerOf, resultsOf := callerOf0, resultsOf0;
    for k := 0 to |calls|
      invariant forall id :: Entry(callerOf, id) == if id != "" && id in calls[..k] then i else Entry(callerOf0, id)
      invariant forall id :: Entries(resultsOf, id) == Entries(resultsOf0, id)
    {
      var id := calls[k];
      assert calls[..k + 1] == calls[..k] + [id];
      if id != "" {
        callerOf := callerOf[id := i];
        if id !in resultsOf {
          resultsOf := resultsOf[id := []];
        }
      }
    }
    assert calls[..|calls|] == calls;
  }

  /** The pair worklist: starting from the tail, keep pulling in the unit of every
      call a kept message mentions. */
  method CloseOverPairs(body: seq<Message>, tail: seq<nat>) returns (kept: set<nat>)
    requires forall i :: i in tail ==> i < |body|
    ensures kept == Closure(body, set i | i in tail)
  {
    var callerOf, resultsOf := IndexPairs(body);
    ghost var start := set i | i in tail;
    kept := set i | i in tail;
    var queue := tail;
    while queue != []
      invariant start <= kept <= Indexes(|body|)
      invariant forall i :: i in queue ==> i in kept
      invariant forall i :: i in kept ==> InEveryClosed(body, start, i)
      invariant forall i, id, j :: i in kept && i !in queue && Mentions(body[i], id) && InUnit(body, id, j) ==> j in kept
      decreases Indexes(|body|) - kept, |queue|
    {
      var i := queue[|queue| - 1];
      ghost var before := queue;
      queue := queue[..|queue| - 1];
      assert forall x :: x in before ==> x in queue || x == i;
      assert i in before && i in kept;
      var referenced := Referenced(body[i]);
      kept, queue := PullUnits(body, callerOf, resultsOf, start, i, referenced, kept, queue);
    }
    ClosureIsLeast(body, start, kept);
  }

  /** Pull in the unit of each referenced call: its caller and all its results. */
  method PullUnits(body: seq<Message>, callerOf: map<string, nat>, resultsOf: map<string, seq<nat>>,
                   ghost start: set<nat>, ghost i: nat, referenced: set<string>, kept0: set<nat>, queue0: seq<nat>)
    returns (kept: set<nat>, queue: seq<nat>)
    requires forall id :: Entry(callerOf, id) == CallerOf(body, id)
    requires forall id :: Entries(resultsOf, id) == ResultsUpTo(body, |body|, id)
    requires i < |body| && i in kept0 && InEveryClosed(body, start, i)
    requires forall id :: id in referenced ==> Mentions(body[i], id)
    requires forall x :: x in kept0 ==> x < |body| && InEveryClosed(body, start, x)
    ensures kept0 <= kept
    ensures forall x :: x in kept ==> x < |body| && InEveryClosed(body, start, x)
    ensures forall x :: x in queue0 ==> x in queue
    ensures forall x :: x in queue ==> x in queue0 || x in kept
    ensures forall x :: x in kept && x !in kept0 ==> x in queue
    ensures kept == kept0 ==> queue == queue0
    ensures forall id, j :: id in referenced && InUnit(body, id, j) ==> j in kept
  {
    kept, queue := kept0, queue0;
    var todo := referenced;
    while todo != {}
      invariant todo <= referenced && kept0 <= kept
      invariant forall x :: x in kept ==> x < |body| && InEveryClosed(body, start, x)
      invariant forall x :: x in queue0 ==> x in queue
      invariant forall x :: x in queue ==> x in queue0 || x in kept
      invariant forall x :: x in kept && x !in kept0 ==> x in queue
      invariant kept == kept0 ==> queue == queue0
      invariant forall id, j :: id in referenced - todo && InUnit(body, id, j) ==> j in kept
      decreases todo
    {
      var id :| id in todo;
      todo := todo - {id};
      var unit := (if id in callerOf then [callerOf[id]] else []) + (if id in resultsOf then resultsOf[id] else []);
      UnitMembers(body, callerOf, resultsOf, id, unit);
      kept, queue := PullMembers(body, start, i, id, unit, kept, queue);
    }
  }

  lemma UnitMembers(body: seq<Message>, callerOf: map<string, nat>, resultsOf: map<string, seq<nat>>, id: string, unit: seq<nat>)
    requires Entry(callerOf, id) == CallerOf(body, id)
    requires Entries(resultsOf, id) == ResultsUpTo(body, |body|, id)
    requires unit == (if id in callerOf then [callerOf[id]] else []) + (if id in resultsOf then resultsOf[id] else [])
    ensures forall j: nat :: j in unit <==> InUnit(body, id, j)
  {
  }

  method PullMembers(body: seq<Message>, ghost start: set<nat>, ghost i: nat, ghost id: string, unit: seq<nat>,
                     kept0: set<nat>, queue0: seq<nat>)
    returns (kept: set<nat>, queue: seq<nat>)
    requires forall j: nat :: j in unit <==> InUnit(body, id, j)
    requires i < |body| && InEveryClosed(body, start, i) && Mentions(body[i], id)
    requires forall x :: x in kept0 ==> x < |body| && InEveryClosed(body, start, x)
    ensures kept0 <= kept
    ensures forall x :: x in kept ==> x < |body| && InEveryClosed(body, start, x)
    ensures forall x :: x in queue0 ==> x in queue
    ensures forall x :: x in queue ==> x in queue0 || x in kept
    ensures forall x :: x in kept && x !in kept0 ==> x in queue
    ensures kept == kept0 ==> queue == queue0
    ensures forall j :: j in unit ==> j in kept
  {
    kept, queue := kept0, queue0;
    for k := 0 to |unit|
      invariant kept0 <= kept
      invariant forall x :: x in kept ==> x < |body| && InEveryClosed(body, start, x)
      invariant forall x :: x in queue0 ==> x in queue
      invariant forall x :: x in queue ==> x in queue0 || x in kept
      invariant forall x :: x in kept && x !in kept0 ==> x in queue
      invariant kept == kept0 ==> queue == queue0
      invariant forall j: nat :: j < k ==> unit[j] in kept
    {
      var j := unit[k];
      assert InUnit(body, id, j);
      if j !in kept {
        UnitMemberForced(body, start, i, id, j);
        kept := kept + {j};
        queue := queue + [j];
      }
    }
  }

  lemma UnitMemberForced(body: seq<Message>, start: set<nat>, i: nat, id: string, j: nat)
    requires i < |body| && InEveryClosed(body, start, i) && Mentions(body[i], id) && InUnit(body, id, j)
    ensures InEveryClosed(body, start, j)
  {
  }

  // --- The whole compaction ---

  function LeadingSystem(messages: seq<Message>): (n: nat)
    ensures n <= |messages|
    ensures forall i: nat :: i < n ==> messages[i].role == System
    ensures n < |messages| ==> messages[n].role != System
  {
    if messages == [] || messages[0].role != System then 0 else 1 + LeadingSystem(messages[1..])
  }

  /** A split of the messages: two untouched leading blocks, and the indexes into the
      remaining body of the kept tail and of the older part. */
  datatype Split = Split(system: nat, protected: nat, tail: seq<nat>, older: seq<nat>, used: nat)

  function ProtectedLength(protectedCount: int, bodyLength: nat): nat {
    if protectedCount > 0 then Min(protectedCount, bodyLength) else 0
  }

  /** The kept indexes: the budgeted tail, closed under tool pairs when asked to. */
  ghost function Kept(body: seq<Message>, cost: Message -> nat, keep: int, preservePairs: bool): set<nat> {
    var tail := From(TailStart(body, cost, keep), |body|);
    if preservePairs then Closure(body, tail) else tail
  }

  ghost function SplitOf(messages: seq<Message>, cost: Message -> nat, keep: int, preservePairs: bool,
                         protectedCount: int): Split {
    var system := LeadingSystem(messages);
    var protected := ProtectedLength(protectedCount, |messages| - system);
    var body := messages[system + protected..];
    var kept := Kept(body, cost, keep, preservePairs);
    Split(system, protected, Select(|body|, kept), Select(|body|, Indexes(|body|) - kept),
          Cost(body, cost, TailStart(body, cost, keep)))
  }

  ghost function From(start: nat, n: nat): (s: set<nat>)
    ensures forall i: nat :: i in s <==> start <= i < n
  {
    Indexes(n) - Indexes(start)
  }

  lemma {:induction false} SelectMembers(n: nat, s: set<nat>)
    ensures forall i: nat :: i in Select(n, s) <==> i in s && i < n
    ensures forall a: nat, b: nat :: a < b < |Select(n, s)| ==> Select(n, s)[a] < Select(n, s)[b]
  {
    if n > 0 {
      SelectMembers(n - 1, s);
      var shorter := Select(n - 1, s);
      assert forall a: nat :: a < |shorter| ==> shorter[a] in shorter;
    }
  }

  method KeptIndexes(body: seq<Message>, cost: Message -> nat, keep: int, preservePairs: bool)
    returns (kept: set<nat>, used: nat)
    ensures kept == Kept(body, cost, keep, preservePairs)
    ensures used == Cost(body, cost, TailStart(body, cost, keep))
  {
    var tail;
    tail, used := PickTail(body, cost, keep);
    ghost var start := TailStart(body, cost, keep);
    kept := set i | i in tail;
    forall i: nat | start <= i < |body|
      ensures i in tail
    {
      assert tail[i - start] == i;
    }
    assert kept == From(start, |body|);
    if preservePairs {
      kept := CloseOverPairs(body, tail);
    }
  }

  method CountLeadingSystem(messages: seq<Message>) returns (count: nat)
    ensures count == LeadingSystem(messages)
  {
    count := 0;
    while count < |messages| && messages[count].role == System
      invariant count <= |messages|
      invariant count + LeadingSystem(messages[count..]) == LeadingSystem(messages)
    {
      assert messages[count..][1..] == messages[count + 1..];
      count := count + 1;
    }
  }

  method SplitForCompaction(messages: seq<Message>, cost: Message -> nat, keep: int, preservePairs: bool,
                            protectedCount: int) returns (split: Split)
    ensures split == SplitOf(messages, cost, keep, preservePairs, protectedCount)
  {
    var system := CountLeadingSystem(messages);
    var protected := ProtectedLength(protectedCount, |messages| - system);
    var body := messages[system + protected..];
    var kept, used := KeptIndexes(body, cost, keep, preservePairs);
    var tail := SelectKept(|body|, kept);
    var older := SelectOlder(|body|, kept);
    split := Split(system, protected, tail, older, used);
  }

  /** The comprehension over the body that keeps the indexes in the set. */
  method SelectKept(n: nat, kept: set<nat>) returns (out: seq<nat>)
    ensures out == Select(n, kept)
  {
    out := [];
    for i := 0 to n
      invariant out == Select(i, kept)
    {
      if i in kept {
        out := out + [i];
      }
    }
  }

  /** The comprehension that keeps the others. */
  method SelectOlder(n: nat, kept: set<nat>) returns (out: seq<nat>)
    ensures out == Select(n, Indexes(n) - kept)
  {
    out := [];
    for i := 0 to n
      invariant out == Select(i, Indexes(n) - kept)
    {
      if i !in kept {
        out := out + [i];
      }
    }
  }

  /** The messages at the given indexes. */
  function Pick(body: seq<Message>, indexes: seq<nat>): seq<Message>
    requires forall k: nat :: k < |indexes| ==> indexes[k] < |body|
  {
    seq(|indexes|, k requires 0 <= k < |indexes| => body[indexes[k]])
  }

  /** The kept messages among the first `n`, in order. */
  function ChosenUpTo(body: seq<Message>, n: nat, kept: set<nat>): seq<Message>
    requires n <= |body|
  {
    if n == 0 then []
    else if n - 1 in kept then ChosenUpTo(body, n - 1, kept) + [body[n - 1]]
    else ChosenUpTo(body, n - 1, kept)
  }

  function Chosen(body: seq<Message>, kept: set<nat>): seq<Message> {
    ChosenUpTo(body, |body|, kept)
  }

  lemma PickAppend(body: seq<Message>, indexes: seq<nat>, i: nat)
    requires i < |body| && forall k: nat :: k < |indexes| ==> indexes[k] < |body|
    ensures forall k: nat :: k < |indexes + [i]| ==> (indexes + [i])[k] < |body|
    ensures Pick(body, indexes + [i]) == Pick(body, indexes) + [body[i]]
  {
  }

  lemma {:induction false} PickIsChosen(body: seq<Message>, n: nat, kept: set<nat>)
    requires n <= |body|
    ensures forall k: nat :: k < |Select(n, kept)| ==> Select(n, kept)[k] < |body|
    ensures Pick(body, Select(n, kept)) == ChosenUpTo(body, n, kept)
  {
    if n > 0 {
      PickIsChosen(body, n - 1, kept);
      if n - 1 in kept {
        PickAppend(body, Select(n - 1, kept), n - 1);
      }
    }
  }

  /** The message that carries the summary; the header text is computed elsewhere. */
  function SummaryMessage(header: string -> string, summary: string): Message {
    Message(System, header(summary) + summary, [], "")
  }

  /** The length of the blocks that are never compacted. */
  function Lead(messages: seq<Message>, protectedCount: int): (n: nat)
    ensures n <= |messages|
  {
    var system := LeadingSystem(messages);
    system + ProtectedLength(protectedCount, |messages| - system)
  }

  /** The compacted messages: unchanged when nothing is older, and otherwise the leading
      blocks, one summary of the older part, and the kept tail. */
  ghost function CompactedAt(messages: seq<Message>, lead: nat, cost: Message -> nat, keep: int, preservePairs: bool,
                             summarize: seq<Message> -> string, header: string -> string): seq<Message>
    requires lead <= |messages|
  {
    var body := messages[lead..];
    var kept := Kept(body, cost, keep, preservePairs);
    if Indexes(|body|) <= kept then messages
    else messages[..lead] + [SummaryMessage(header, summarize(Chosen(body, Indexes(|body|) - kept)))] + Chosen(body, kept)
  }

  ghost function Compacted(messages: seq<Message>, cost: Message -> nat, keep: int, preservePairs: bool,
                           protectedCount: int, summarize: seq<Message> -> string, header: string -> string): seq<Message>
  {
    CompactedAt(messages, Lead(messages, protectedCount), cost, keep, preservePairs, summarize, header)
  }

  /** The summary text: of the older messages in order, or empty when there are none. */
  ghost function SummaryText(messages: seq<Message>, lead: nat, cost: Message -> nat, keep: int, preservePairs: bool,
                             summarize: seq<Message> -> string): string
    requires lead <= |messages|
  {
    var body := messages[lead..];
    var kept := Kept(body, cost, keep, preservePairs);
    if Indexes(|body|) <= kept then "" else summarize(Chosen(body, Indexes(|body|) - kept))
  }

  method CompactMessages(messages: seq<Message>, cost: Message -> nat, keep: int, preservePairs: bool,
                         protectedCount: int, summarize: seq<Message> -> string, header: string -> string)
    returns (compacted: seq<Message>, summary: string)
    ensures compacted == Compacted(messages, cost, keep, preservePairs, protectedCount, summarize, header)
    ensures summary == SummaryText(messages, Lead(messages, protectedCount), cost, keep, preservePairs, summarize)
  {
    if messages == [] {
      return messages, "";
    }
    var split := SplitForCompaction(messages, cost, keep, preservePairs, protectedCount);
    var lead := split.system + split.protected;
    ghost var kept := Kept(messages[lead..], cost, keep, preservePairs);
    OlderIsRest(messages[lead..], kept);
    if split.older == [] {
      return messages, "";
    }
    summary := summarize(Pick(messages[lead..], split.older));
    compacted := messages[..lead] + [SummaryMessage(header, summary)] + Pick(messages[lead..], split.tail);
  }

  lemma NothingSelected(n: nat, s: set<nat>)
    requires Select(n, s) == []
    ensures forall i: nat :: i < n ==> i !in s
  {
    SelectMembers(n, s);
    assert forall i: nat :: i !in Select(n, s);
  }

  /** The older indexes are empty only when everything is kept, and picking the indexes of
      either part gives its messages. */
  lemma OlderIsRest(body: seq<Message>, kept: set<nat>)
    ensures var rest := Indexes(|body|) - kept;
            && (Select(|body|, rest) == [] <==> Indexes(|body|) <= kept)
            && (forall k: nat :: k < |Select(|body|, rest)| ==> Select(|body|, rest)[k] < |body|)
            && Pick(body, Select(|body|, rest)) == Chosen(body, rest)
    ensures forall k: nat :: k < |Select(|body|, kept)| ==> Select(|body|, kept)[k] < |body|
    ensures Pick(body, Select(|body|, kept)) == Chosen(body, kept)
  {
    var rest := Indexes(|body|) - kept;
    PickIsChosen(body, |body|, kept);
    PickIsChosen(body, |body|, rest);
    SelectMembers(|body|, rest);
    if Select(|body|, rest) != [] {
      assert Select(|body|, rest)[0] in rest;
    } else {
      NothingSelected(|body|, rest);
      assert forall i :: i in Indexes(|body|) ==> i !in rest;
    }
  }
}
