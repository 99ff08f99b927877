/** The per-run event log: concurrent appenders that read the maximum sequence and then
    insert under the unique (run, sequence) constraint, each in its own transaction. */
module EventStore {
  import opened Text

  type Event = string

  datatype Row = Row(sequence: nat, event: Event)

  const MAX_SEQUENCE_ATTEMPTS := 3

  /** `Append` retries a conflicting insert; `AppendMany` inserts its batch once. */
  datatype Call = Append(event: Event) | AppendMany(events: seq<Event>)

  function Batch(call: Call): seq<Event> {
    match call
    case Append(event) => [event]
    case AppendMany(events) => events
  }

  /** Where a session stands inside a call. `base` records how many commits had reached the
      log when the call began, `readAt` how many when the maximum was read, and `attempt`
      counts the tries. */
  datatype Phase =
    | Idle
    | Ready(call: Call, attempt: nat, base: nat)
    | Seen(call: Call, attempt: nat, base: nat, maximum: nat, readAt: nat)
    | Aborted

  /** A session's uncommitted rows, and the batches of its successful calls. */
  datatype Session = Session(pending: seq<Row>, batches: seq<seq<Event>>, phase: Phase)

  /** The committed rows in commit order, the batches they came from, and the number of
      transactions that committed rows. */
  datatype Store = Store(committed: seq<Row>, batches: seq<seq<Event>>, sessions: map<nat, Session>, commits: nat)

  datatype Step =
    | Open(sid: nat)
    | Begin(sid: nat, call: Call)
    | ReadMaximum(sid: nat)
    | Insert(sid: nat)
    | Commit(sid: nat)
    | RollBack(sid: nat)

  function MaxSequence(rows: seq<Row>): nat {
    if rows == [] then 0 else Max(rows[|rows| - 1].sequence, MaxSequence(rows[..|rows| - 1]))
  }

  function NewRows(maximum: nat, batch: seq<Event>): seq<Row> {
    seq(|batch|, i requires 0 <= i < |batch| => Row(maximum + 1 + i, batch[i]))
  }

  predicate Clash(rows: seq<Row>, others: seq<Row>) {
    exists i, j :: 0 <= i < |rows| && 0 <= j < |others| && rows[i].sequence == others[j].sequence
  }

  predicate Enabled(s: Store, step: Step) {
    match step
    case Open(sid) => sid !in s.sessions
    case Begin(sid, call) => sid in s.sessions && s.sessions[sid].phase.Idle?
    case ReadMaximum(sid) => sid in s.sessions && s.sessions[sid].phase.Ready?
    case Insert(sid) =>
      // An insert waits while another transaction holds one of its keys uncommitted.
      && sid in s.sessions && s.sessions[sid].phase.Seen?
      && var rows := NewRows(s.sessions[sid].phase.maximum, Batch(s.sessions[sid].phase.call));
      && forall other :: other in s.sessions && other != sid ==> !Clash(rows, s.sessions[other].pending)
    case Commit(sid) => sid in s.sessions && s.sessions[sid].phase.Idle?
    case RollBack(sid) => sid in s.sessions
  }

  function With(s: Store, sid: nat, session: Session): Store {
    s.(sessions := s.sessions[sid := session])
  }

  /** The session after its insert: the rows are pending, or the call is tried again,
      given up, or has broken its transaction. */
  function AfterInsert(committed: seq<Row>, session: Session): Session
    requires session.phase.Seen?
  {
    var Seen(call, attempt, base, maximum, _) := session.phase;
    var rows := NewRows(maximum, Batch(call));
    if !Clash(rows, committed + session.pending) then
      Session(session.pending + rows, session.batches + [Batch(call)], Idle)
    else if call.AppendMany? then session.(phase := Aborted)
    else if attempt < MAX_SEQUENCE_ATTEMPTS then session.(phase := Ready(call, attempt + 1, base))
    else session.(phase := Idle)
  }

  function Next(s: Store, step: Step): Store
    requires Enabled(s, step)
  {
    match step
    case Open(sid) => With(s, sid, Session([], [], Idle))
    case Begin(sid, call) =>
      if Batch(call) == [] then s
      else With(s, sid, s.sessions[sid].(phase := Ready(call, 1, s.commits)))
    case ReadMaximum(sid) =>
      var session := s.sessions[sid];
      var Ready(call, attempt, base) := session.phase;
      With(s, sid, session.(phase := Seen(call, attempt, base, MaxSequence(s.committed + session.pending), s.commits)))
    case Insert(sid) => With(s, sid, AfterInsert(s.committed, s.sessions[sid]))
    case Commit(sid) =>
      var session := s.sessions[sid];
      Store(s.committed + session.pending, s.batches + session.batches, s.sessions[sid := Session([], [], Idle)],
            if session.pending == [] then s.commits else s.commits + 1)
    case RollBack(sid) => With(s, sid, Session([], [], Idle))
  }

  // --- What every step keeps ---

  function Flatten(batches: seq<seq<Event>>): seq<Event> {
    if batches == [] then [] else Flatten(batches[..|batches| - 1]) + batches[|batches| - 1]
  }

  function Events(rows: seq<Row>): seq<Event> {
    seq(|rows|, i requires 0 <= i < |rows| => rows[i].event)
  }

  /** The rows are numbered consecutively from `first`. */
  ghost predicate Numbered(rows: seq<Row>, first: nat) {
    forall i: nat :: i < |rows| ==> rows[i].sequence == first + i
  }

  /** The maximum that was read is still the last one unless something was committed since,
      and each further attempt of a call took a commit. */
  ghost predicate SessionInvariant(committed: seq<Row>, commits: nat, session: Session) {
    && Numbered(session.pending, |committed| + 1)
    && Events(session.pending) == Flatten(session.batches)
    && (session.phase.Ready? || session.phase.Seen? ==> Batch(session.phase.call) != [])
    && (session.phase.Ready? ==> commits + 1 >= session.phase.base + session.phase.attempt)
    && (session.phase.Seen? ==>
          && session.phase.maximum <= |committed| + |session.pending|
          && (session.pending != [] || session.phase.readAt == commits ==>
                session.phase.maximum == |committed| + |session.pending|)
          && session.phase.readAt <= commits
          && session.phase.readAt + 1 >= session.phase.base + session.phase.attempt)
  }

  ghost predicate Invariant(s: Store) {
    && Numbered(s.committed, 1)
    && Events(s.committed) == Flatten(s.batches)
    && (forall sid :: sid in s.sessions ==> SessionInvariant(s.committed, s.commits, s.sessions[sid]))
    && (forall a, b :: a in s.sessions && b in s.sessions && a != b ==>
          s.sessions[a].pending == [] || s.sessions[b].pending == [])
  }

  lemma {:induction false} MaxOfNumbered(rows: seq<Row>)
    requires Numbered(rows, 1)
    ensures MaxSequence(rows) == |rows|
  {
    if rows != [] {
      MaxOfNumbered(rows[..|rows| - 1]);
    }
  }

  lemma {:induction false} FlattenAppend(a: seq<seq<Event>>, b: seq<seq<Event>>)
    ensures Flatten(a + b) == Flatten(a) + Flatten(b)
  {
    if b == [] {
      assert a + b == a;
    } else {
      var k := |b| - 1;
      FlattenAppend(a, b[..k]);
      assert (a + b)[..|a + b| - 1] == a + b[..k];
      JoinAssociates(Flatten(a), Flatten(b[..k]), b[k]);
    }
  }

  lemma JoinAssociates(a: seq<Event>, b: seq<Event>, c: seq<Event>)
    ensures a + b + c == a + (b + c)
  {
  }

  lemma EventsAppend(a: seq<Row>, b: seq<Row>)
    ensures Events(a + b) == Events(a) + Events(b)
  {
  }

  lemma NoClashAt(rows: seq<Row>, others: seq<Row>, j: nat)
    requires !Clash(rows, others) && rows != [] && j < |others|
    ensures rows[0].sequence != others[j].sequence
  {
  }

  lemma NoClashAtStart(rows: seq<Row>, others: seq<Row>)
    requires !Clash(rows, others) && rows != []
    ensures others != [] ==> rows[0].sequence != others[0].sequence
  {
  }

  lemma HeldRowsAreNext(committed: seq<Row>, commits: nat, session: Session)
    requires SessionInvariant(committed, commits, session)
    ensures session.pending != [] ==> session.pending[0].sequence == |committed| + 1
  {
  }

  /** An insert that clashes with nothing takes the very next sequence numbers, and then no
      other session holds uncommitted rows. */
  lemma CleanInsertIsNext(s: Store, sid: nat)
    requires Invariant(s) && Enabled(s, Insert(sid))
    requires var session := s.sessions[sid];
             !Clash(NewRows(session.phase.maximum, Batch(session.phase.call)), s.committed + session.pending)
    ensures s.sessions[sid].phase.maximum == |s.committed| + |s.sessions[sid].pending|
    ensures forall other :: other in s.sessions && other != sid ==> s.sessions[other].pending == []
  {
    var session := s.sessions[sid];
    var rows := NewRows(session.phase.maximum, Batch(session.phase.call));
    assert SessionInvariant(s.committed, s.commits, session);
    if session.pending == [] {
      var m := session.phase.maximum;
      if m < |s.committed| {
        NoClashAt(rows, s.committed + session.pending, m);
      }
      forall other | other in s.sessions && other != sid
        ensures s.sessions[other].pending == []
      {
        var held := s.sessions[other].pending;
        HeldRowsAreNext(s.committed, s.commits, s.sessions[other]);
        NoClashAtStart(rows, held);
      }
    }
  }

  /** The rows of a clean insert extend the session's pending rows by one whole batch. */
  lemma CleanInsertExtends(committed: seq<Row>, commits: nat, session: Session)
    requires SessionInvariant(committed, commits, session) && session.phase.Seen?
    requires session.phase.maximum == |committed| + |session.pending|
    requires !Clash(NewRows(session.phase.maximum, Batch(session.phase.call)), committed + session.pending)
    ensures SessionInvariant(committed, commits, AfterInsert(committed, session))
  {
    var batch := Batch(session.phase.call);
    var rows := NewRows(session.phase.maximum, batch);
    EventsAppend(session.pending, rows);
    assert Events(rows) == batch;
    assert (session.batches + [batch])[..|session.batches|] == session.batches;
  }

  /** A store with the same log, whose sessions are in order and hold no more than before. */
  lemma SameLogKeepsInvariant(s: Store, s': Store)
    requires Invariant(s) && s'.committed == s.committed && s'.batches == s.batches && s'.commits == s.commits
    requires forall sid :: sid in s'.sessions ==> SessionInvariant(s.committed, s.commits, s'.sessions[sid])
    requires forall sid :: sid in s'.sessions && s'.sessions[sid].pending != [] ==>
               sid in s.sessions && s.sessions[sid].pending != []
    ensures Invariant(s')
  {
  }

  lemma CleanInsertKeepsInvariant(s: Store, sid: nat)
    requires Invariant(s) && Enabled(s, Insert(sid))
    requires var session := s.sessions[sid];
             !Clash(NewRows(session.phase.maximum, Batch(session.phase.call)), s.committed + session.pending)
    ensures Invariant(Next(s, Insert(sid)))
  {
    CleanInsertIsNext(s, sid);
    CleanInsertExtends(s.committed, s.commits, s.sessions[sid]);
    var s' := Next(s, Insert(sid));
    forall other | other in s'.sessions
      ensures SessionInvariant(s'.committed, s'.commits, s'.sessions[other])
    {
      assert other != sid ==> SessionInvariant(s.committed, s.commits, s.sessions[other]);
    }
  }

  lemma ConflictKeepsInvariant(s: Store, sid: nat)
    requires Invariant(s) && Enabled(s, Insert(sid))
    requires var session := s.sessions[sid];
             Clash(NewRows(session.phase.maximum, Batch(session.phase.call)), s.committed + session.pending)
    ensures Invariant(Next(s, Insert(sid)))
  {
    var session, s' := s.sessions[sid], Next(s, Insert(sid));
    assert SessionInvariant(s.committed, s.commits, session);
    ConflictMeansProgress(s, sid);
    assert s'.sessions[sid].pending == session.pending;
    forall other | other in s'.sessions
      ensures SessionInvariant(s.committed, s.commits, s'.sessions[other])
    {
      assert other != sid ==> SessionInvariant(s.committed, s.commits, s.sessions[other]);
    }
    SameLogKeepsInvariant(s, s');
  }

  lemma InsertKeepsInvariant(s: Store, sid: nat)
    requires Invariant(s) && Enabled(s, Insert(sid))
    ensures Invariant(Next(s, Insert(sid)))
  {
    var session := s.sessions[sid];
    if Clash(NewRows(session.phase.maximum, Batch(session.phase.call)), s.committed + session.pending) {
      ConflictKeepsInvariant(s, sid);
    } else {
      CleanInsertKeepsInvariant(s, sid);
    }
  }

  /** A conflict means that another transaction committed after the maximum was read. */
  lemma ConflictMeansProgress(s: Store, sid: nat)
    requires Invariant(s) && sid in s.sessions && s.sessions[sid].phase.Seen?
    requires var session := s.sessions[sid];
             Clash(NewRows(session.phase.maximum, Batch(session.phase.call)), s.committed + session.pending)
    ensures s.sessions[sid].pending == []
    ensures |s.committed| > s.sessions[sid].phase.maximum
    ensures s.commits > s.sessions[sid].phase.readAt
    ensures s.commits >= s.sessions[sid].phase.base + s.sessions[sid].phase.attempt
  {
  }

  /** An append gives up only after at least three other transactions committed rows during the call. */
  lemma GivingUpTakesThreeCommits(s: Store, sid: nat)
    requires Invariant(s) && Enabled(s, Insert(sid))
    requires s.sessions[sid].phase.call.Append? && Next(s, Insert(sid)).sessions[sid].phase.Idle?
    requires Next(s, Insert(sid)).sessions[sid].batches == s.sessions[sid].batches
    ensures s.commits >= s.sessions[sid].phase.base + 3
    ensures Next(s, Insert(sid)).sessions[sid].pending == s.sessions[sid].pending
  {
    var session := s.sessions[sid];
    var rows := NewRows(session.phase.maximum, Batch(session.phase.call));
    assert |session.batches + [Batch(session.phase.call)]| == |session.batches| + 1;
    assert Clash(rows, s.committed + session.pending);
    ConflictMeansProgress(s, sid);
  }

  lemma CommitExtendsLog(s: Store, sid: nat)
    requires Invariant(s) && Enabled(s, Commit(sid))
    ensures Numbered(s.committed + s.sessions[sid].pending, 1)
    ensures Events(s.committed + s.sessions[sid].pending) == Flatten(s.batches + s.sessions[sid].batches)
  {
    var session := s.sessions[sid];
    assert SessionInvariant(s.committed, s.commits, session);
    EventsAppend(s.committed, session.pending);
    FlattenAppend(s.batches, session.batches);
  }

  /** A commit leaves the other sessions in order: none of them holds rows unless it added none. */
  lemma CommitKeepsOther(committed: seq<Row>, commits: nat, rows: seq<Row>, other: Session)
    requires SessionInvariant(committed, commits, other) && (rows == [] || other.pending == [])
    ensures SessionInvariant(committed + rows, if rows == [] then commits else commits + 1, other)
  {
    assert rows == [] ==> committed + rows == committed;
  }

  lemma CommitKeepsInvariant(s: Store, sid: nat)
    requires Invariant(s) && Enabled(s, Commit(sid))
    ensures Invariant(Next(s, Commit(sid)))
  {
    var session, s' := s.sessions[sid], Next(s, Commit(sid));
    CommitExtendsLog(s, sid);
    forall other | other in s'.sessions
      ensures SessionInvariant(s'.committed, s'.commits, s'.sessions[other])
    {
      if other != sid {
        assert session.pending == [] || s.sessions[other].pending == [];
        CommitKeepsOther(s.committed, s.commits, session.pending, s.sessions[other]);
      }
    }
  }

  lemma ReadKeepsInvariant(s: Store, sid: nat)
    requires Invariant(s) && Enabled(s, ReadMaximum(sid))
    ensures SessionInvariant(s.committed, s.commits, Next(s, ReadMaximum(sid)).sessions[sid])
  {
    var session := s.sessions[sid];
    assert SessionInvariant(s.committed, s.commits, session);
    MaxOfNumbered(s.committed + session.pending);
  }

  lemma LocalStepKeepsSessions(s: Store, step: Step, other: nat)
    requires Invariant(s) && Enabled(s, step) && !step.Insert? && !step.Commit?
    requires other in Next(s, step).sessions
    ensures SessionInvariant(s.committed, s.commits, Next(s, step).sessions[other])
    ensures Next(s, step).sessions[other].pending != [] ==> other in s.sessions && s.sessions[other].pending != []
  {
    if other in s.sessions {
      assert SessionInvariant(s.committed, s.commits, s.sessions[other]);
      if step == ReadMaximum(other) {
        ReadKeepsInvariant(s, other);
      }
    }
  }

  lemma LocalStepKeepsLog(s: Store, step: Step)
    requires Enabled(s, step) && !step.Commit?
    ensures Next(s, step).committed == s.committed && Next(s, step).batches == s.batches
    ensures Next(s, step).commits == s.commits
  {
  }

  lemma LocalStepKeepsInvariant(s: Store, step: Step)
    requires Invariant(s) && Enabled(s, step) && !step.Insert? && !step.Commit?
    ensures Invariant(Next(s, step))
  {
    var s' := Next(s, step);
    forall other | other in s'.sessions
      ensures SessionInvariant(s.committed, s.commits, s'.sessions[other])
      ensures s'.sessions[other].pending != [] ==> other in s.sessions && s.sessions[other].pending != []
    {
      LocalStepKeepsSessions(s, step, other);
    }
    LocalStepKeepsLog(s, step);
    SameLogKeepsInvariant(s, s');
  }

  lemma StepKeepsInvariant(s: Store, step: Step)
    requires Invariant(s) && Enabled(s, step)
    ensures Invariant(Next(s, step))
  {
    match step
    case Insert(sid) => InsertKeepsInvariant(s, sid);
    case Commit(sid) => CommitKeepsInvariant(s, sid);
    case _ => LocalStepKeepsInvariant(s, step);
  }

  ghost predicate Leads(before: Store, step: Step, after: Store) {
    Enabled(before, step) && after == Next(before, step)
  }

  ghost predicate Reachable(s: Store, steps: nat)
    decreases steps
  {
    if steps == 0 then s == Store([], [], map[], 0)
    else exists before: Store, step: Step :: Reachable(before, steps - 1) && Leads(before, step, s)
  }

  lemma {:induction false} ReachableKeepsInvariant(s: Store, steps: nat)
    requires Reachable(s, steps)
    ensures Invariant(s)
    decreases steps
  {
    if steps > 0 {
      var before: Store, step: Step :| Reachable(before, steps - 1) && Leads(before, step, s);
      ReachableKeepsInvariant(before, steps - 1);
      StepKeepsInvariant(before, step);
    }
  }

  /** Under every interleaving the committed sequences are exactly 1..n in order, and the
      log is the batches of the committed calls, each once and contiguous. */
  lemma LogIsDenseAndWhole(s: Store, steps: nat)
    requires Reachable(s, steps)
    ensures forall i: nat :: i < |s.committed| ==> s.committed[i].sequence == i + 1
    ensures Events(s.committed) == Flatten(s.batches)
  {
    ReachableKeepsInvariant(s, steps);
  }

  /** The other sessions can move a session's store on, but not the session itself. */
  ghost predicate OthersMoved(before: Store, after: Store, sid: nat, race: seq<Event>) {
    && Invariant(after) && sid in before.sessions && sid in after.sessions
    && after.sessions[sid] == before.sessions[sid]
    && after.committed == before.committed + NewRows(|before.committed|, race)
  }

  /** The session after it has read the maximum of a log it has added nothing to. */
  lemma ReadSession(s: Store, sid: nat)
    requires Invariant(s) && Enabled(s, ReadMaximum(sid)) && s.sessions[sid].pending == []
    ensures var Ready(call, attempt, base) := s.sessions[sid].phase;
            Next(s, ReadMaximum(sid)).sessions[sid]
            == s.sessions[sid].(phase := Seen(call, attempt, base, |s.committed|, s.commits))
    ensures Batch(s.sessions[sid].phase.call) != []
  {
    assert SessionInvariant(s.committed, s.commits, s.sessions[sid]);
    assert s.committed + [] == s.committed;
    MaxOfNumbered(s.committed);
  }

  /** Its insert succeeds exactly when nothing was committed in between. */
  lemma RacedSession(committed: seq<Row>, race: seq<Event>, session: Session)
    requires Numbered(committed, 1) && session.pending == [] && session.phase.Seen?
    requires session.phase.maximum == |committed| && Batch(session.phase.call) != []
    ensures var done := AfterInsert(committed + NewRows(|committed|, race), session);
            && (race == [] ==> done.phase.Idle? && done.pending == NewRows(|committed|, Batch(session.phase.call)))
            && (race != [] ==> done.pending == [] && done.batches == session.batches && done.phase == Retried(session.phase))
  {
    var log := committed + NewRows(|committed|, race);
    RaceClashes(committed, race, Batch(session.phase.call));
    assert log + [] == log && [] + NewRows(|committed|, Batch(session.phase.call)) == NewRows(|committed|, Batch(session.phase.call));
  }

  /** What a conflict makes of a call: a batch breaks its transaction, and a single event is
      tried again until its attempts run out. */
  function Retried(phase: Phase): Phase
    requires phase.Seen?
  {
    if phase.call.AppendMany? then Aborted
    else if phase.attempt < MAX_SEQUENCE_ATTEMPTS then Ready(phase.call, phase.attempt + 1, phase.base)
    else Idle
  }

  /** After a session without uncommitted rows has read the maximum, its insert succeeds
      exactly when nothing was committed in between, and a commit then adds its batch to the
      log: what one call of the log's `TryAppend` or `AppendMany` does. */
  lemma RacedInsert(s: Store, sid: nat, race: seq<Event>, after: Store)
    requires Invariant(s) && Enabled(s, ReadMaximum(sid)) && s.sessions[sid].pending == []
    requires OthersMoved(Next(s, ReadMaximum(sid)), after, sid, race) && Enabled(after, Insert(sid))
    ensures Events(Next(after, Insert(sid)).committed) == Events(s.committed) + race
    ensures race == [] ==>
      && Next(after, Insert(sid)).sessions[sid].phase.Idle?
      && Events(Next(Next(after, Insert(sid)), Commit(sid)).committed) == Events(s.committed) + Batch(s.sessions[sid].phase.call)
    ensures race != [] ==>
      && Next(after, Insert(sid)).sessions[sid].phase == Retried(Next(s, ReadMaximum(sid)).sessions[sid].phase)
      && Next(after, Insert(sid)).sessions[sid].pending == []
      && Next(after, Insert(sid)).sessions[sid].batches == s.sessions[sid].batches
  {
    ReadSession(s, sid);
    RacedSession(s.committed, race, after.sessions[sid]);
    RacedEvents(s.committed, race, Batch(s.sessions[sid].phase.call));
    InsertThenCommit(after, sid);
    if race == [] {
      NothingRaced(s.committed, race);
    }
  }

  lemma NothingRaced(rows: seq<Row>, race: seq<Event>)
    requires race == []
    ensures rows + NewRows(|rows|, race) == rows
  {
  }

  lemma InsertThenCommit(s: Store, sid: nat)
    requires Enabled(s, Insert(sid))
    ensures var done := AfterInsert(s.committed, s.sessions[sid]);
            && Next(s, Insert(sid)).committed == s.committed && Next(s, Insert(sid)).sessions[sid] == done
            && (done.phase.Idle? ==> Next(Next(s, Insert(sid)), Commit(sid)).committed == s.committed + done.pending)
  {
  }

  /** Rows numbered from the end of a log clash exactly with what was added to it meanwhile. */
  lemma RaceClashes(rows: seq<Row>, race: seq<Event>, batch: seq<Event>)
    requires Numbered(rows, 1) && batch != []
    ensures Clash(NewRows(|rows|, batch), rows + NewRows(|rows|, race)) <==> race != []
  {
    if race != [] {
      assert NewRows(|rows|, batch)[0].sequence == (rows + NewRows(|rows|, race))[|rows|].sequence;
    }
  }

  lemma NewRowsExtend(maximum: nat, events: seq<Event>, i: nat)
    requires i < |events|
    ensures NewRows(maximum, events[..i + 1]) == NewRows(maximum, events[..i]) + [Row(maximum + 1 + i, events[i])]
  {
  }

  /** The events of a log to which a race and then a batch were added. */
  lemma RacedEvents(rows: seq<Row>, race: seq<Event>, batch: seq<Event>)
    ensures Events(rows + NewRows(|rows|, race)) == Events(rows) + race
    ensures Events(rows + NewRows(|rows|, race) + NewRows(|rows|, batch)) == Events(rows) + race + batch
    ensures Events(rows + NewRows(|rows|, batch)) == Events(rows) + batch
  {
    EventsAppend(rows, NewRows(|rows|, race));
    EventsAppend(rows, NewRows(|rows|, batch));
    EventsAppend(rows + NewRows(|rows|, race), NewRows(|rows|, batch));
    EventsOfNew(|rows|, race);
    EventsOfNew(|rows|, batch);
  }

  lemma RacedNumbers(rows: seq<Row>, race: seq<Event>, batch: seq<Event>)
    requires Numbered(rows, 1)
    ensures Numbered(rows + NewRows(|rows|, race), 1)
    ensures race == [] ==> Numbered(rows + NewRows(|rows|, race) + NewRows(|rows|, batch), 1)
  {
  }

  lemma EventsOfNew(maximum: nat, batch: seq<Event>)
    ensures Events(NewRows(maximum, batch)) == batch
  {
  }

  // --- One appender's calls, with the commits of others as an input ---

  /** The commits of other appenders before attempt `n` of a call, in order. */
  function Raced(race: nat -> seq<Event>, n: nat): seq<Event> {
    if n == 0 then [] else Raced(race, n - 1) + race(n - 1)
  }

  lemma RacedOnce(before: seq<Event>, race: nat -> seq<Event>, n: nat)
    ensures before + Raced(race, n) + race(n) == before + Raced(race, n + 1)
  {
  }

  /** The log of one run, as one appender sees it. `race(i)` are the events that others
      commit between the read and the insert of the appender's attempt `i`. */
  class EventLog {
    var rows: seq<Row>

    constructor ()
      ensures rows == [] && Valid()
    {
      rows := [];
    }

    ghost predicate Valid()
      reads this
    {
      Numbered(rows, 1)
    }

    /** Another appender's commit. */
    method Interfere(events: seq<Event>)
      requires Valid()
      modifies this
      ensures Valid() && rows == old(rows) + NewRows(|old(rows)|, events)
    {
      rows := rows + NewRows(|rows|, events);
    }

    /** The insert under the unique constraint: all rows or none. */
    method InsertRows(more: seq<Row>) returns (ok: bool)
      modifies this
      ensures ok <==> !Clash(more, old(rows))
      ensures rows == if ok then old(rows) + more else old(rows)
    {
      ok := !Clash(more, rows);
      if ok {
        rows := rows + more;
      }
    }

    /** Succeeds exactly when one of the first three attempts is not raced, and then the
        event is appended once, after everything that others committed meanwhile. */
    method Append(event: Event, race: nat -> seq<Event>) returns (appended: bool, ghost attempts: nat)
      requires Valid()
      modifies this
      ensures Valid()
      ensures 1 <= attempts <= 3
      ensures appended <==> exists i: nat :: i < 3 && race(i) == []
      ensures forall i: nat :: i < attempts - 1 ==> race(i) != []
      ensures appended <==> race(attempts - 1) == []
      ensures appended ==> Events(rows) == Events(old(rows)) + Raced(race, attempts) + [event]
      ensures !appended ==> Events(rows) == Events(old(rows)) + Raced(race, attempts)
    {
      var attempt: nat := 0;
      ghost var before := Events(rows);
      assert before + [] == before;
      while attempt < MAX_SEQUENCE_ATTEMPTS
        invariant attempt <= MAX_SEQUENCE_ATTEMPTS && Valid()
        invariant Events(rows) == before + Raced(race, attempt)
        invariant forall i: nat :: i < attempt ==> race(i) != []
      {
        RacedOnce(before, race, attempt);
        var ok := TryAppend(event, race(attempt));
        attempt := attempt + 1;
        if ok {
          return true, attempt;
        }
      }
      return false, attempt;
    }

    /** One attempt: read the maximum, let others commit, insert the next sequence. */
    method TryAppend(event: Event, race: seq<Event>) returns (ok: bool)
      requires Valid()
      modifies this
      ensures Valid() && (ok <==> race == [])
      ensures ok ==> Events(rows) == Events(old(rows)) + race + [event]
      ensures !ok ==> Events(rows) == Events(old(rows)) + race
    {
      MaxOfNumbered(rows);
      ghost var before := rows;
      var nextSequence := MaxSequence(rows) + 1;
      Interfere(race);
      RaceClashes(before, race, [event]);
      RacedEvents(before, race, [event]);
      RacedNumbers(before, race, [event]);
      assert [Row(nextSequence, event)] == NewRows(|before|, [event]);
      ok := InsertRows([Row(nextSequence, event)]);
    }

    /** Succeeds exactly when nothing races it; the batch is appended whole or not at all. */
    method AppendMany(events: seq<Event>, race: seq<Event>) returns (appended: bool)
      requires Valid()
      modifies this
      ensures Valid() && (appended <==> events == [] || race == [])
      ensures events == [] ==> rows == old(rows)
      ensures events != [] && appended ==> Events(rows) == Events(old(rows)) + race + events
      ensures !appended ==> Events(rows) == Events(old(rows)) + race
    {
      if events == [] {
        return true;
      }
      MaxOfNumbered(rows);
      ghost var before := rows;
      var nextSequence := MaxSequence(rows);
      ghost var maximum := nextSequence;
      assert maximum == |before|;
      var more: seq<Row> := [];
      for i := 0 to |events|
        invariant nextSequence == maximum + i && more == NewRows(maximum, events[..i])
        invariant rows == before
      {
        nextSequence := nextSequence + 1;
        NewRowsExtend(maximum, events, i);
        more := more + [Row(nextSequence, events[i])];
      }
      assert events[..|events|] == events;
      Interfere(race);
      RaceClashes(before, race, events);
      RacedEvents(before, race, events);
      RacedNumbers(before, race, events);
      appended := InsertRows(more);
    }
  }
}
