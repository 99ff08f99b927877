/** What the steps of the event log achieve: a call that nothing disturbs goes through, a
    commit publishes what is held, and a rollback forgets it. */
module EventProgress {
  import opened EventStore

  ghost predicate Leads(s: Store, steps: seq<Step>, s': Store)
    decreases |steps|
  {
    if steps == [] then s' == s else Enabled(s, steps[0]) && Leads(Next(s, steps[0]), steps[1..], s')
  }

  lemma LeadsStep(s: Store, step: Step, rest: seq<Step>, s': Store)
    requires Enabled(s, step) && Leads(Next(s, step), rest, s')
    ensures Leads(s, [step] + rest, s')
  {
    assert ([step] + rest)[1..] == rest;
  }

  /** No session but this one holds uncommitted rows. */
  ghost predicate Undisturbed(s: Store, sid: nat) {
    forall other :: other in s.sessions && other != sid ==> s.sessions[other].pending == []
  }

  lemma OwnMaximum(s: Store, sid: nat)
    requires Invariant(s) && sid in s.sessions
    ensures MaxSequence(s.committed + s.sessions[sid].pending) == |s.committed| + |s.sessions[sid].pending|
  {
    assert SessionInvariant(s.committed, s.commits, s.sessions[sid]);
    MaxOfNumbered(s.committed + s.sessions[sid].pending);
  }

  lemma NewRowsClashWithNothing(s: Store, sid: nat, batch: seq<string>)
    requires Invariant(s) && sid in s.sessions && Undisturbed(s, sid)
    ensures var rows := NewRows(|s.committed| + |s.sessions[sid].pending|, batch);
            && !Clash(rows, s.committed + s.sessions[sid].pending)
            && forall other :: other in s.sessions && other != sid ==> !Clash(rows, s.sessions[other].pending)
  {
    var held := s.committed + s.sessions[sid].pending;
    assert SessionInvariant(s.committed, s.commits, s.sessions[sid]);
    assert Numbered(held, 1);
    var rows := NewRows(|held|, batch);
    assert forall i, j :: 0 <= i < |rows| && 0 <= j < |held| ==> rows[i].sequence > |held| >= held[j].sequence;
  }

  /** The rows of these events when the last sequence so far is `n`. */
  function RowsAfter(n: nat, events: seq<string>): seq<Row> {
    seq(|events|, i requires 0 <= i < |events| => Row(n + 1 + i, events[i]))
  }

  function Reading(s: Store, sid: nat, call: Call): Store
    requires sid in s.sessions
  {
    var n := |s.committed| + |s.sessions[sid].pending|;
    s.(sessions := s.sessions[sid := s.sessions[sid].(phase := Seen(call, 1, s.commits, n, s.commits))])
  }

  lemma BeginAndRead(s: Store, sid: nat, call: Call)
    requires Invariant(s) && sid in s.sessions && s.sessions[sid].phase == Idle && Batch(call) != []
    ensures Enabled(s, Begin(sid, call)) && Enabled(Next(s, Begin(sid, call)), ReadMaximum(sid))
    ensures Next(Next(s, Begin(sid, call)), ReadMaximum(sid)) == Reading(s, sid, call)
  {
    OwnMaximum(s, sid);
    assert Next(Next(s, Begin(sid, call)), ReadMaximum(sid)).sessions == Reading(s, sid, call).sessions;
  }

  lemma InsertFollows(s: Store, sid: nat, call: Call)
    requires Invariant(s) && sid in s.sessions && Undisturbed(s, sid)
    ensures var session, read := s.sessions[sid], Reading(s, sid, call);
            && Enabled(read, Insert(sid))
            && var rows := RowsAfter(|s.committed| + |session.pending|, Batch(call));
               Next(read, Insert(sid))
               == s.(sessions := s.sessions[sid := Session(session.pending + rows, session.batches + [Batch(call)], Idle)])
  {
    var session, read := s.sessions[sid], Reading(s, sid, call);
    var n := |s.committed| + |session.pending|;
    NewRowsClashWithNothing(s, sid, Batch(call));
    assert forall other :: other in read.sessions && other != sid ==> read.sessions[other] == s.sessions[other];
    assert RowsAfter(n, Batch(call)) == NewRows(n, Batch(call));
    var done := Session(session.pending + NewRows(n, Batch(call)), session.batches + [Batch(call)], Idle);
    assert read.sessions[sid := done] == s.sessions[sid := done];
  }

  /** A call in an idle session that nothing disturbs goes through: its events follow the
      rows of the log and of its own transaction, numbered one after the other. */
  lemma CallGoesThrough(s: Store, sid: nat, call: Call, events: seq<string>) returns (s': Store)
    requires Invariant(s) && sid in s.sessions && s.sessions[sid].phase == Idle && Undisturbed(s, sid)
    requires events != [] && (call == AppendMany(events) || (|events| == 1 && call == Append(events[0])))
    ensures Leads(s, [Begin(sid, call)] + ([ReadMaximum(sid)] + ([Insert(sid)] + [])), s')
    ensures var session := s.sessions[sid];
            var rows := RowsAfter(|s.committed| + |session.pending|, events);
            s' == s.(sessions := s.sessions[sid := Session(session.pending + rows, session.batches + [events], Idle)])
  {
    assert Batch(call) == events;
    BeginAndRead(s, sid, call);
    InsertFollows(s, sid, call);
    var read := Reading(s, sid, call);
    s' := Next(read, Insert(sid));
    LeadsStep(read, Insert(sid), [], s');
    LeadsStep(Next(s, Begin(sid, call)), ReadMaximum(sid), [Insert(sid)] + [], s');
    LeadsStep(s, Begin(sid, call), [ReadMaximum(sid)] + ([Insert(sid)] + []), s');
  }

  /** A batch of no events is no call. */
  lemma EmptyBatchDoesNothing(s: Store, sid: nat)
    requires Enabled(s, Begin(sid, AppendMany([])))
    ensures Next(s, Begin(sid, AppendMany([]))) == s
  {
  }

  /** A commit, possible whenever no call is under way, moves what the session holds to the end
      of the log and leaves the session empty; an opened session is. */
  lemma CommitPublishes(s: Store, sid: nat)
    requires sid in s.sessions && s.sessions[sid].phase == Idle
    ensures Enabled(s, Commit(sid))
    ensures var session, s' := s.sessions[sid], Next(s, Commit(sid));
            && s'.committed == s.committed + session.pending && s'.batches == s.batches + session.batches
            && s'.sessions == s.sessions[sid := Session([], [], Idle)]
            && s'.commits == if session.pending != [] then s.commits + 1 else s.commits
  {
  }

  /** A rollback, possible at any time, forgets what the session holds and changes nothing else. */
  lemma RollBackForgets(s: Store, sid: nat)
    requires sid in s.sessions
    ensures Enabled(s, RollBack(sid))
    ensures Next(s, RollBack(sid)) == s.(sessions := s.sessions[sid := Session([], [], Idle)])
  {
  }

  /** The log grows by commits of held rows, and by nothing else. */
  lemma OnlyCommitsGrowTheLog(s: Store, step: Step)
    requires Enabled(s, step)
    ensures Next(s, step).commits == if Next(s, step).committed != s.committed then s.commits + 1 else s.commits
    ensures Next(s, step).committed != s.committed <==> step.Commit? && s.sessions[step.sid].pending != []
  {
    if step.Commit? {
      var pending := s.sessions[step.sid].pending;
      assert |Next(s, step).committed| == |s.committed| + |pending|;
      assert pending == [] ==> s.committed + pending == s.committed;
    }
  }

  lemma {:induction false} LeadsAppend(s: Store, a: seq<Step>, middle: Store, b: seq<Step>, s': Store)
    requires Leads(s, a, middle) && Leads(middle, b, s')
    ensures Leads(s, a + b, s')
    decreases |a|
  {
    if a == [] {
      assert a + b == b;
    } else {
      assert (a + b)[1..] == a[1..] + b;
      LeadsAppend(Next(s, a[0]), a[1..], middle, b, s');
    }
  }

  /** A fresh session that nothing disturbs can append an event and commit it. */
  lemma AppendAndCommit(s: Store, sid: nat, event: string) returns (steps: seq<Step>, s': Store)
    requires Invariant(s) && sid !in s.sessions
    requires forall other :: other in s.sessions ==> s.sessions[other].pending == []
    ensures Leads(s, steps, s')
    ensures s'.committed == s.committed + [Row(|s.committed| + 1, event)] && s'.batches == s.batches + [[event]]
  {
    var joined := Next(s, Open(sid));
    StepKeepsInvariant(s, Open(sid));
    var called := CallGoesThrough(joined, sid, Append(event), [event]);
    assert called.sessions[sid] == Session([] + RowsAfter(|s.committed|, [event]), [] + [[event]], Idle);
    assert [] + RowsAfter(|s.committed|, [event]) == [Row(|s.committed| + 1, event)];
    assert [] + [[event]] == [[event]];
    CommitPublishes(called, sid);
    s' := Next(called, Commit(sid));
    var call := [Begin(sid, Append(event))] + ([ReadMaximum(sid)] + ([Insert(sid)] + []));
    LeadsStep(called, Commit(sid), [], s');
    LeadsAppend(joined, call, called, [Commit(sid)] + [], s');
    LeadsStep(s, Open(sid), call + ([Commit(sid)] + []), s');
    steps := [Open(sid)] + (call + ([Commit(sid)] + []));
  }
}
