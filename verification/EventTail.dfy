/** Cursor replay with reconnects: a client that resumes from the last id it received,
    over a log that concurrent appenders keep extending. */
module EventTail {
  import opened Results
  import opened EventStore
  import EventProgress

  /** One subscription: the cursor, and the frames sent but not yet received. */
  datatype Connection = Connection(lastSequence: nat, inFlight: seq<Row>)

  datatype System = System(store: Store, received: seq<Row>, connection: Option<Connection>)

  datatype Move =
    | StoreMove(step: Step)
    | Connect
    | Poll(frames: seq<Row>)
    | Receive
    | Disconnect

  /** The rows after the cursor, ordered by sequence. */
  ghost predicate IsReplay(rows: seq<Row>, cursor: nat, frames: seq<Row>) {
    && (forall r :: r in frames <==> r in rows && r.sequence > cursor)
    && (forall i, j :: 0 <= i < j < |frames| ==> frames[i].sequence < frames[j].sequence)
  }

  /** The cursor a reconnecting client sends: the id of the last frame it received. */
  function Cursor(received: seq<Row>): nat {
    if received == [] then 0 else received[|received| - 1].sequence
  }

  ghost predicate Allowed(s: System, move: Move) {
    match move
    case StoreMove(step) => Enabled(s.store, step)
    case Connect => s.connection.None?
    case Poll(frames) => s.connection.Some? && IsReplay(s.store.committed, s.connection.value.lastSequence, frames)
    case Receive => s.connection.Some? && s.connection.value.inFlight != []
    case Disconnect => s.connection.Some?
  }

  function Advance(cursor: nat, frames: seq<Row>): nat {
    if frames == [] then cursor else frames[|frames| - 1].sequence
  }

  ghost function After(s: System, move: Move): System
    requires Allowed(s, move)
  {
    match move
    case StoreMove(step) => s.(store := Next(s.store, step))
    case Connect => s.(connection := Some(Connection(Cursor(s.received), [])))
    case Poll(frames) =>
      var c := s.connection.value;
      s.(connection := Some(Connection(Advance(c.lastSequence, frames), c.inFlight + frames)))
    case Receive =>
      var c := s.connection.value;
      s.(received := s.received + [c.inFlight[0]], connection := Some(c.(inFlight := c.inFlight[1..])))
    case Disconnect => s.(connection := None)
  }

  /** What the client has, followed by what is on its way, is the log up to the cursor. */
  ghost predicate Synced(s: System) {
    && EventStore.Invariant(s.store)
    && s.received <= s.store.committed
    && (s.connection.Some? ==>
          var c := s.connection.value;
          && c.lastSequence <= |s.store.committed|
          && s.received + c.inFlight == s.store.committed[..c.lastSequence])
  }

  /** Two ascending sequences with the same rows are equal. */
  lemma {:induction false} AscendingUnique(a: seq<Row>, b: seq<Row>)
    requires forall i, j :: 0 <= i < j < |a| ==> a[i].sequence < a[j].sequence
    requires forall i, j :: 0 <= i < j < |b| ==> b[i].sequence < b[j].sequence
    requires forall r :: r in a <==> r in b
    ensures a == b
  {
    assert a != [] ==> a[0] in a;
    assert b != [] ==> b[0] in b;
    if a != [] && b != [] {
      assert a[0] == b[0];
      forall r
        ensures r in a[1..] <==> r in b[1..]
      {
        assert r in a <==> r == a[0] || r in a[1..];
        assert r in b <==> r == b[0] || r in b[1..];
      }
      AscendingUnique(a[1..], b[1..]);
    }
  }

  /** On a densely numbered log a replay is the part after the cursor. */
  lemma ReplayIsSuffix(rows: seq<Row>, cursor: nat, frames: seq<Row>)
    requires Numbered(rows, 1) && cursor <= |rows|
    ensures IsReplay(rows, cursor, frames) <==> frames == rows[cursor..]
  {
    var suffix := rows[cursor..];
    forall r
      ensures r in suffix <==> r in rows && r.sequence > cursor
    {
      if r in rows && r.sequence > cursor {
        var i: nat :| i < |rows| && rows[i] == r;
        assert suffix[i - cursor] == r;
      }
    }
    if IsReplay(rows, cursor, frames) {
      AscendingUnique(frames, suffix);
    }
  }

  lemma StoreMoveGrowsLog(s: Store, step: Step)
    requires Enabled(s, step)
    ensures s.committed <= Next(s, step).committed
  {
  }

  lemma PollReachesEnd(received: seq<Row>, inFlight: seq<Row>, rows: seq<Row>, cursor: nat, frames: seq<Row>)
    requires Numbered(rows, 1) && cursor <= |rows| && received + inFlight == rows[..cursor] && IsReplay(rows, cursor, frames)
    ensures Advance(cursor, frames) == |rows|
    ensures received + (inFlight + frames) == rows == rows[..|rows|]
  {
    ReplayIsSuffix(rows, cursor, frames);
    assert rows == rows[..cursor] + rows[cursor..];
    assert received + (inFlight + frames) == (received + inFlight) + frames;
  }

  lemma PollKeepsSynced(s: System, frames: seq<Row>)
    requires Synced(s) && Allowed(s, Poll(frames))
    ensures Synced(After(s, Poll(frames)))
  {
    var c := s.connection.value;
    PollReachesEnd(s.received, c.inFlight, s.store.committed, c.lastSequence, frames);
  }

  lemma ReceiveKeepsSynced(s: System)
    requires Synced(s) && Allowed(s, Receive)
    ensures Synced(After(s, Receive))
  {
    var c, rows := s.connection.value, s.store.committed;
    var received := s.received + [c.inFlight[0]];
    assert received + c.inFlight[1..] == rows[..c.lastSequence];
    assert received <= rows[..c.lastSequence] <= rows;
  }

  lemma MoveKeepsSynced(s: System, move: Move)
    requires Synced(s) && Allowed(s, move)
    ensures Synced(After(s, move))
  {
    match move
    case StoreMove(step) =>
      EventStore.StepKeepsInvariant(s.store, step);
      StoreMoveGrowsLog(s.store, step);
    case Connect =>
      assert Cursor(s.received) == |s.received|;
      assert s.received + [] == s.store.committed[..|s.received|];
    case Poll(frames) => PollKeepsSynced(s, frames);
    case Receive => ReceiveKeepsSynced(s);
    case Disconnect =>
  }

  ghost predicate Leads(before: System, move: Move, after: System) {
    Allowed(before, move) && after == After(before, move)
  }

  ghost predicate Reachable(s: System, moves: nat)
    decreases moves
  {
    if moves == 0 then s == System(Store([], [], map[], 0), [], None)
    else exists before: System, move: Move :: Reachable(before, moves - 1) && Leads(before, move, s)
  }

  lemma {:induction false} ReachableIsSynced(s: System, moves: nat)
    requires Reachable(s, moves)
    ensures Synced(s)
    decreases moves
  {
    if moves > 0 {
      var before: System, move: Move :| Reachable(before, moves - 1) && Leads(before, move, s);
      ReachableIsSynced(before, moves - 1);
      MoveKeepsSynced(before, move);
    }
  }

  /** However appends, polls, deliveries, disconnects and reconnects interleave, the client
      has received the first rows of the log: in order, without gap and without duplicate. */
  lemma ClientSeesAPrefix(s: System, moves: nat)
    requires Reachable(s, moves)
    ensures s.received <= s.store.committed
    ensures forall i: nat :: i < |s.received| ==> s.received[i].sequence == i + 1
  {
    ReachableIsSynced(s, moves);
  }

  /** A connected client that polls and then receives everything in flight has the whole log. */
  lemma PollCatchesUp(s: System, frames: seq<Row>)
    requires Synced(s) && Allowed(s, Poll(frames))
    ensures s.received + After(s, Poll(frames)).connection.value.inFlight == s.store.committed
  {
    var c := s.connection.value;
    PollReachesEnd(s.received, c.inFlight, s.store.committed, c.lastSequence, frames);
  }

  // --- A client can always catch up ---

  ghost predicate LeadsBy(s: System, moves: seq<Move>, s': System)
    decreases |moves|
  {
    if moves == [] then s' == s else Allowed(s, moves[0]) && LeadsBy(After(s, moves[0]), moves[1..], s')
  }

  lemma LeadsByFirst(s: System, move: Move, rest: seq<Move>, s': System)
    requires Allowed(s, move) && LeadsBy(After(s, move), rest, s')
    ensures LeadsBy(s, [move] + rest, s')
  {
    assert ([move] + rest)[1..] == rest;
  }

  lemma {:induction false} DeliverAll(s: System) returns (moves: seq<Move>, s': System)
    requires s.connection.Some?
    ensures LeadsBy(s, moves, s') && s'.store == s.store
    ensures s'.received == s.received + s.connection.value.inFlight
    decreases |s.connection.value.inFlight|
  {
    var frames := s.connection.value.inFlight;
    if frames == [] {
      moves, s' := [], s;
    } else {
      var rest;
      rest, s' := DeliverAll(After(s, Receive));
      moves := [Receive] + rest;
      LeadsByFirst(s, Receive, rest, s');
      assert s.received + [frames[0]] + frames[1..] == s.received + frames;
    }
  }

  /** A dropped connection loses only what was in flight, and the next one starts right after
      what the client has received. */
  lemma ReconnectResumes(s: System)
    requires Synced(s) && s.connection.Some?
    ensures Allowed(s, Disconnect) && Allowed(After(s, Disconnect), Connect)
    ensures After(After(s, Disconnect), Connect) == s.(connection := Some(Connection(|s.received|, [])))
  {
    assert s.received != [] ==> s.received[|s.received| - 1] == s.store.committed[|s.received| - 1];
  }

  lemma PollAndDeliver(s: System) returns (moves: seq<Move>, s': System)
    requires Synced(s) && s.connection.Some?
    ensures LeadsBy(s, moves, s') && s'.store == s.store && s'.received == s.store.committed
  {
    var frames := s.store.committed[s.connection.value.lastSequence..];
    ReplayIsSuffix(s.store.committed, s.connection.value.lastSequence, frames);
    PollCatchesUp(s, frames);
    var rest;
    rest, s' := DeliverAll(After(s, Poll(frames)));
    moves := [Poll(frames)] + rest;
    LeadsByFirst(s, Poll(frames), rest, s');
  }

  /** From every state of a run, connected or not, the client can come to have the whole log. */
  lemma ClientCanCatchUp(s: System) returns (moves: seq<Move>, s': System)
    requires Synced(s)
    ensures LeadsBy(s, moves, s') && s'.store == s.store && s'.received == s.store.committed
  {
    if s.connection.Some? {
      moves, s' := PollAndDeliver(s);
    } else {
      MoveKeepsSynced(s, Connect);
      var rest;
      rest, s' := PollAndDeliver(After(s, Connect));
      moves := [Connect] + rest;
      LeadsByFirst(s, Connect, rest, s');
    }
  }

  lemma {:induction false} LeadsByAppend(s: System, a: seq<Move>, middle: System, b: seq<Move>, s': System)
    requires LeadsBy(s, a, middle) && LeadsBy(middle, b, s')
    ensures LeadsBy(s, a + b, s')
    decreases |a|
  {
    if a == [] {
      assert a + b == b;
    } else {
      assert (a + b)[1..] == a[1..] + b;
      LeadsByAppend(After(s, a[0]), a[1..], middle, b, s');
    }
  }

  /** What the log's own steps lead to they lead to beside any client. */
  lemma {:induction false} StoreMoves(s: System, steps: seq<Step>, store': Store) returns (moves: seq<Move>)
    requires EventProgress.Leads(s.store, steps, store')
    ensures LeadsBy(s, moves, s.(store := store'))
    decreases |steps|
  {
    if steps == [] {
      moves := [];
    } else {
      var next := After(s, StoreMove(steps[0]));
      assert next.store == Next(s.store, steps[0]);
      var rest := StoreMoves(next, steps[1..], store');
      assert next.(store := store') == s.(store := store');
      moves := [StoreMove(steps[0])] + rest;
      LeadsByFirst(s, StoreMove(steps[0]), rest, s.(store := store'));
    }
  }

  /** From every state in which no session holds uncommitted rows, an event can be appended and
      reach the client, as the next row after all that were committed. */
  lemma EventReachesClient(s: System, sid: nat, event: string) returns (moves: seq<Move>, s': System)
    requires Synced(s) && sid !in s.store.sessions
    requires forall other :: other in s.store.sessions ==> s.store.sessions[other].pending == []
    ensures LeadsBy(s, moves, s') && s'.received == s.store.committed + [Row(|s.store.committed| + 1, event)]
  {
    var steps, store' := EventProgress.AppendAndCommit(s.store, sid, event);
    moves := StoreMoves(s, steps, store');
    var appended := s.(store := store');
    AppendedIsSynced(s, steps, store');
    var rest;
    rest, s' := ClientCanCatchUp(appended);
    LeadsByAppend(s, moves, appended, rest, s');
    moves := moves + rest;
  }

  lemma {:induction false} AppendedIsSynced(s: System, steps: seq<Step>, store': Store)
    requires Synced(s) && EventProgress.Leads(s.store, steps, store')
    ensures Synced(s.(store := store'))
    decreases |steps|
  {
    if steps != [] {
      var next := s.(store := Next(s.store, steps[0]));
      MoveKeepsSynced(s, StoreMove(steps[0]));
      AppendedIsSynced(next, steps[1..], store');
    }
  }
}
