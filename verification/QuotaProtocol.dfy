/** Run admission under concurrency: every store operation is one atomic step, and any
    number of admissions, purges, releases and clock ticks interleave between them. */
module QuotaProtocol {
  import opened Quotas
  import opened Sets

  /** Where an admission stands between two awaits. */
  datatype Phase =
    | Stamped
    | Added
    | OverLimit
    | PurgeTimed(cutoff: int)
    | Purging(cutoff: int, todo: set<Member>)
    | Purged
    | RollingBack
    | Admitted
    | Refused

  datatype Admission = Admission(member: Member, phase: Phase)

  /** `released` are the run ids some caller has asked to release. */
  datatype State = State(now: int, members: set<Member>, admissions: map<string, Admission>, released: set<string>)

  datatype Step =
    | Tick(later: int)
    | Begin(id: string, ttl: nat)
    | Add(id: string)
    | Count(id: string)
    | PurgeClock(id: string)
    | PurgeSnapshot(id: string)
    | PurgeRemove(id: string, member: Member)
    | PurgeEnd(id: string)
    | Recount(id: string)
    | RollBack(id: string)
    | ReleaseCall(id: string)
    | ReleaseRemove(member: Member)

  predicate In(s: State, id: string, phase: Phase) {
    id in s.admissions && s.admissions[id].phase == phase
  }

  function To(s: State, id: string, phase: Phase): State
    requires id in s.admissions
  {
    s.(admissions := s.admissions[id := s.admissions[id].(phase := phase)])
  }

  predicate Enabled(s: State, step: Step) {
    match step
    case Tick(later) => s.now <= later
    case Begin(id, _) => id !in s.admissions
    case Add(id) => In(s, id, Stamped)
    case Count(id) => In(s, id, Added)
    case PurgeClock(id) => In(s, id, OverLimit)
    case PurgeSnapshot(id) => id in s.admissions && s.admissions[id].phase.PurgeTimed?
    case PurgeRemove(id, m) => id in s.admissions && s.admissions[id].phase.Purging? && m in s.admissions[id].phase.todo
    case PurgeEnd(id) => id in s.admissions && s.admissions[id].phase.Purging? && s.admissions[id].phase.todo == {}
    case Recount(id) => In(s, id, Purged)
    case RollBack(id) => In(s, id, RollingBack)
    case ReleaseCall(_) => true
    case ReleaseRemove(m) => m.runId in s.released
  }

  function Next(s: State, step: Step, limit: int): State
    requires Enabled(s, step)
  {
    match step
    case Tick(later) => s.(now := later)
    case Begin(id, ttl) => s.(admissions := s.admissions[id := Admission(Member(id, s.now + ttl), Stamped)])
    case Add(id) => To(s, id, Added).(members := s.members + {s.admissions[id].member})
    case Count(id) => To(s, id, if |s.members| <= limit then Admitted else OverLimit)
    case PurgeClock(id) => To(s, id, PurgeTimed(s.now))
    case PurgeSnapshot(id) =>
      var cutoff := s.admissions[id].phase.cutoff;
      To(s, id, Purging(cutoff, set m | m in s.members && m.deadline < cutoff))
    case PurgeRemove(id, m) =>
      var phase := s.admissions[id].phase;
      To(s, id, phase.(todo := phase.todo - {m})).(members := s.members - {m})
    case PurgeEnd(id) => To(s, id, Purged)
    case Recount(id) => To(s, id, if |s.members| <= limit then Admitted else RollingBack)
    case RollBack(id) => To(s, id, Refused).(members := s.members - {s.admissions[id].member})
    case ReleaseCall(id) => s.(released := s.released + {id})
    case ReleaseRemove(m) => s.(members := s.members - {m})
  }

  /** Admitted, not released, not expired: a run that counts against the limit. */
  predicate Counts(s: State, id: string) {
    && id in s.admissions && s.admissions[id].phase == Admitted
    && id !in s.released && s.admissions[id].member.deadline >= s.now
  }

  function ActiveRuns(s: State): set<string> {
    set id | id in s.admissions && Counts(s, id)
  }

  /** The reservation is still needed: added, and neither refused, released nor expired. */
  predicate Holds(s: State, id: string) {
    && id in s.admissions && !s.admissions[id].phase.Stamped? && !s.admissions[id].phase.Refused?
    && id !in s.released && s.admissions[id].member.deadline >= s.now
  }

  /** The member was added by its own admission, which has not taken it back. */
  ghost predicate IsReserved(s: State, m: Member) {
    && m.runId in s.admissions && s.admissions[m.runId].member == m
    && s.admissions[m.runId].phase !in {Stamped, Refused}
  }

  /** A purge is about members that have expired by now. */
  ghost predicate PurgesExpired(phase: Phase, now: int) {
    match phase
    case PurgeTimed(cutoff) => cutoff <= now
    case Purging(cutoff, todo) => cutoff <= now && forall m :: m in todo ==> m.deadline < cutoff
    case _ => true
  }

  ghost predicate Invariant(s: State, limit: int) {
    && (forall id :: id in s.admissions ==> s.admissions[id].member.runId == id)
    && (forall id :: Holds(s, id) ==> s.admissions[id].member in s.members)
    && (forall m :: m in s.members ==> IsReserved(s, m))
    && (forall id :: id in s.admissions ==> PurgesExpired(s.admissions[id].phase, s.now))
    && |ActiveRuns(s)| <= if limit > 0 then limit else 0
  }

  function Initial(now: int): State {
    State(now, {}, map[], {})
  }

  /** The runs that count all hold a member, so the store's count bounds them. */
  lemma {:induction false} ActiveBoundedByMembers(s: State, ids: set<string>, members: set<Member>)
    requires forall id :: id in ids ==> id in s.admissions && s.admissions[id].member.runId == id
    requires forall id :: id in ids ==> s.admissions[id].member in members
    ensures |ids| <= |members|
  {
    if ids != {} {
      var id :| id in ids;
      var m := s.admissions[id].member;
      forall other | other in ids - {id}
        ensures s.admissions[other].member in members - {m}
      {
        assert s.admissions[other].member.runId == other;
      }
      ActiveBoundedByMembers(s, ids - {id}, members - {m});
    }
  }

  lemma AdmittingKeepsLimit(s: State, step: Step, limit: int)
    requires Invariant(s, limit) && Enabled(s, step) && (step.Count? || step.Recount?)
    ensures |ActiveRuns(Next(s, step, limit))| <= if limit > 0 then limit else 0
  {
    var s' := Next(s, step, limit);
    if |s.members| <= limit && step.id !in s.released && s.admissions[step.id].member.deadline >= s.now {
      assert Holds(s, step.id);
      forall id | id in ActiveRuns(s')
        ensures s'.admissions[id].member in s.members
      {
        assert Holds(s, id);
      }
      ActiveBoundedByMembers(s', ActiveRuns(s'), s.members);
    } else {
      SubsetSize(ActiveRuns(s'), ActiveRuns(s));
    }
  }

  lemma OtherStepsKeepLimit(s: State, step: Step, limit: int)
    requires Invariant(s, limit) && Enabled(s, step) && !step.Count? && !step.Recount?
    ensures |ActiveRuns(Next(s, step, limit))| <= if limit > 0 then limit else 0
  {
    var s' := Next(s, step, limit);
    forall id | id in ActiveRuns(s')
      ensures id in ActiveRuns(s)
    {
      assert Counts(s', id);
      assert Counts(s, id);
    }
    SubsetSize(ActiveRuns(s'), ActiveRuns(s));
  }

  /** A member disappears only because it expired, because its run was released, or
      because its own admission takes it back. */
  lemma MembersLeaveForAReason(s: State, step: Step, limit: int, m: Member)
    requires Invariant(s, limit) && Enabled(s, step) && m in s.members && m !in Next(s, step, limit).members
    ensures m.deadline < s.now || m.runId in s.released || (step == RollBack(m.runId) && In(s, m.runId, RollingBack))
  {
    if step.RollBack? {
      assert s.admissions[step.id].member.runId == step.id;
    }
  }

  lemma StepKeepsMembers(s: State, step: Step, limit: int)
    requires Invariant(s, limit) && Enabled(s, step)
    ensures var s' := Next(s, step, limit);
            && (forall id :: id in s'.admissions ==> s'.admissions[id].member.runId == id)
            && (forall id :: Holds(s', id) ==> s'.admissions[id].member in s'.members)
  {
    var s' := Next(s, step, limit);
    forall id | Holds(s', id)
      ensures s'.admissions[id].member in s'.members
    {
      var m := s'.admissions[id].member;
      if step != Add(id) {
        assert id in s.admissions && s.admissions[id].member == m;
        assert Holds(s, id);
        if m !in s'.members {
          MembersLeaveForAReason(s, step, limit, m);
        }
      }
    }
  }

  lemma StepKeepsReserved(s: State, step: Step, limit: int, m: Member)
    requires Enabled(s, step) && m in Next(s, step, limit).members && m in s.members && IsReserved(s, m)
    requires forall id :: id in s.admissions ==> s.admissions[id].member.runId == id
    ensures IsReserved(Next(s, step, limit), m)
  {
  }

  lemma StepKeepsOwners(s: State, step: Step, limit: int)
    requires Invariant(s, limit) && Enabled(s, step)
    ensures forall m :: m in Next(s, step, limit).members ==> IsReserved(Next(s, step, limit), m)
  {
    forall m | m in Next(s, step, limit).members
      ensures IsReserved(Next(s, step, limit), m)
    {
      if m in s.members {
        StepKeepsReserved(s, step, limit, m);
      }
    }
  }

  lemma PhaseKeepsPurges(s: State, step: Step, limit: int, id: string)
    requires Enabled(s, step) && id in Next(s, step, limit).admissions
    requires id in s.admissions ==> PurgesExpired(s.admissions[id].phase, s.now)
    ensures PurgesExpired(Next(s, step, limit).admissions[id].phase, Next(s, step, limit).now)
  {
  }

  lemma StepKeepsPurges(s: State, step: Step, limit: int)
    requires Invariant(s, limit) && Enabled(s, step)
    ensures var s' := Next(s, step, limit);
            forall id :: id in s'.admissions ==> PurgesExpired(s'.admissions[id].phase, s'.now)
  {
    forall id | id in Next(s, step, limit).admissions
      ensures PurgesExpired(Next(s, step, limit).admissions[id].phase, Next(s, step, limit).now)
    {
      PhaseKeepsPurges(s, step, limit, id);
    }
  }

  lemma StepKeepsInvariant(s: State, step: Step, limit: int)
    requires Invariant(s, limit) && Enabled(s, step)
    ensures Invariant(Next(s, step, limit), limit)
  {
    StepKeepsMembers(s, step, limit);
    StepKeepsOwners(s, step, limit);
    StepKeepsPurges(s, step, limit);
    if step.Count? || step.Recount? {
      AdmittingKeepsLimit(s, step, limit);
    } else {
      OtherStepsKeepLimit(s, step, limit);
    }
  }

  /** `s` is reached from an empty store by some interleaving of that many steps. */
  ghost predicate Reachable(s: State, limit: int, steps: nat)
    decreases steps
  {
    if steps == 0 then exists now :: s == Initial(now)
    else exists before: State, step: Step :: Reachable(before, limit, steps - 1) && Leads(before, step, limit, s)
  }

  ghost predicate Leads(before: State, step: Step, limit: int, after: State) {
    Enabled(before, step) && after == Next(before, step, limit)
  }

  lemma {:induction false} ReachableKeepsInvariant(s: State, limit: int, steps: nat)
    requires Reachable(s, limit, steps)
    ensures Invariant(s, limit)
    decreases steps
  {
    if steps == 0 {
      assert ActiveRuns(s) == {};
    } else {
      var before: State, step: Step :| Reachable(before, limit, steps - 1) && Leads(before, step, limit, s);
      ReachableKeepsInvariant(before, limit, steps - 1);
      StepKeepsInvariant(before, step, limit);
    }
  }

  /** Under every interleaving the admitted, unreleased, unexpired runs never exceed the
      limit, and a refused run leaves no member behind. */
  lemma LimitAlwaysHolds(s: State, limit: int, steps: nat)
    requires Reachable(s, limit, steps)
    ensures var active := set id | id in s.admissions && s.admissions[id].phase == Admitted
                                   && id !in s.released && s.admissions[id].member.deadline >= s.now;
            |active| <= if limit > 0 then limit else 0
    ensures forall id :: In(s, id, Refused) ==> s.admissions[id].member !in s.members
  {
    ReachableKeepsInvariant(s, limit, steps);
    assert ActiveRuns(s) == set id | id in s.admissions && s.admissions[id].phase == Admitted
                                     && id !in s.released && s.admissions[id].member.deadline >= s.now;
  }

  // --- One admission without interleaving ---

  /** A step of this admission after it has begun. */
  predicate Own(step: Step, id: string) {
    match step
    case Tick(_) | Begin(_, _) | ReleaseCall(_) | ReleaseRemove(_) => false
    case _ => step.id == id
  }

  /** The state of an admission that has run alone since `before`. */
  ghost predicate Alone(before: set<Member>, m: Member, now: int, limit: int, s: State) {
    && m.runId in s.admissions && s.admissions[m.runId].member == m && s.now == now
    && match s.admissions[m.runId].phase
       case Stamped => s.members == before
       case Added => s.members == before + {m}
       case OverLimit => s.members == before + {m} && |before| >= limit
       case PurgeTimed(cutoff) => cutoff == now && s.members == before + {m} && |before| >= limit
       case Purging(cutoff, todo) =>
         && cutoff == now && |before| >= limit
         && todo <= before - Live(before, now) && s.members == Live(before, now) + {m} + todo
       case Purged => s.members == Live(before, now) + {m} && |before| >= limit
       case RollingBack => s.members == Live(before, now) + {m} && |Live(before, now)| >= limit
       case Admitted => s.members == Base(before, now, limit) + {m} && |Live(before, now)| < limit
       case Refused => s.members == Live(before, now) && |Live(before, now)| >= limit
  }

  predicate Purges(step: Step) {
    step.PurgeClock? || step.PurgeSnapshot? || step.PurgeRemove? || step.PurgeEnd?
  }

  lemma OwnPurgeStaysAlone(before: set<Member>, m: Member, now: int, limit: int, s: State, step: Step)
    requires m !in before && m.deadline >= now && Alone(before, m, now, limit, s)
    requires Enabled(s, step) && Own(step, m.runId) && Purges(step)
    ensures Alone(before, m, now, limit, Next(s, step, limit))
  {
    if step.PurgeSnapshot? {
      ExpiredOnes(before, m, now);
    }
  }

  lemma OwnOtherStaysAlone(before: set<Member>, m: Member, now: int, limit: int, s: State, step: Step)
    requires m !in before && m.deadline >= now && Alone(before, m, now, limit, s)
    requires Enabled(s, step) && Own(step, m.runId) && !Purges(step)
    ensures Alone(before, m, now, limit, Next(s, step, limit))
  {
    SubsetSize(Live(before, now), before);
    assert |before + {m}| == |before| + 1 && |Live(before, now) + {m}| == |Live(before, now)| + 1;
  }

  lemma OwnStepStaysAlone(before: set<Member>, m: Member, now: int, limit: int, s: State, step: Step)
    requires m !in before && m.deadline >= now && Alone(before, m, now, limit, s)
    requires Enabled(s, step) && Own(step, m.runId)
    ensures Alone(before, m, now, limit, Next(s, step, limit))
  {
    if Purges(step) {
      OwnPurgeStaysAlone(before, m, now, limit, s, step);
    } else {
      OwnOtherStaysAlone(before, m, now, limit, s, step);
    }
  }

  /** The snapshot of a purge is what has expired. */
  lemma ExpiredOnes(before: set<Member>, m: Member, now: int)
    requires m !in before && m.deadline >= now
    ensures (set x | x in before + {m} && x.deadline < now) == before - Live(before, now)
    ensures Live(before, now) + {m} + (before - Live(before, now)) == before + {m}
  {
  }

  ghost predicate OwnRun(s: State, steps: seq<Step>, id: string, limit: int, s': State)
    decreases |steps|
  {
    if steps == [] then s' == s
    else Enabled(s, steps[0]) && Own(steps[0], id) && OwnRun(Next(s, steps[0], limit), steps[1..], id, limit, s')
  }

  lemma {:induction false} OwnRunStaysAlone(before: set<Member>, m: Member, now: int, limit: int, s: State,
                                            steps: seq<Step>, s': State)
    requires m !in before && m.deadline >= now && Alone(before, m, now, limit, s)
    requires OwnRun(s, steps, m.runId, limit, s')
    ensures Alone(before, m, now, limit, s')
    decreases |steps|
  {
    if steps != [] {
      OwnStepStaysAlone(before, m, now, limit, s, steps[0]);
      OwnRunStaysAlone(before, m, now, limit, Next(s, steps[0], limit), steps[1..], s');
    }
  }

  /** An admission whose steps nothing interrupts ends as `QuotaService.Reserve` does. */
  lemma UninterruptedIsReserve(s: State, id: string, ttl: nat, limit: int, steps: seq<Step>, s': State)
    requires Enabled(s, Begin(id, ttl)) && forall m :: m in s.members ==> m.runId != id
    requires OwnRun(Next(s, Begin(id, ttl), limit), steps, id, limit, s')
    requires In(s', id, Admitted) || In(s', id, Refused)
    ensures In(s', id, Admitted) <==> |Live(s.members, s.now)| < limit
    ensures In(s', id, Admitted) ==> s'.members == Base(s.members, s.now, limit) + {Member(id, s.now + ttl)}
    ensures In(s', id, Refused) ==> s'.members == Live(s.members, s.now)
  {
    OwnRunStaysAlone(s.members, Member(id, s.now + ttl), s.now, limit, Next(s, Begin(id, ttl), limit), steps, s');
  }

  // --- Nothing blocks ---

  function Remaining(phase: Phase): nat {
    match phase
    case Stamped => 8
    case Added => 7
    case OverLimit => 6
    case PurgeTimed(_) => 5
    case Purging(_, _) => 4
    case Purged => 3
    case RollingBack => 2
    case _ => 1
  }

  function Todo(phase: Phase): set<Member> {
    if phase.Purging? then phase.todo else {}
  }

  /** The step an admission takes next. */
  lemma NextOwnStep(s: State, id: string, limit: int) returns (step: Step)
    requires id in s.admissions && !In(s, id, Admitted) && !In(s, id, Refused)
    ensures Enabled(s, step) && Own(step, id) && id in Next(s, step, limit).admissions
    ensures var before, after := s.admissions[id].phase, Next(s, step, limit).admissions[id].phase;
            Remaining(after) < Remaining(before) || (Remaining(after) == Remaining(before) && Todo(after) < Todo(before))
  {
    match s.admissions[id].phase
    case Stamped => step := Add(id);
    case Added => step := Count(id);
    case OverLimit => step := PurgeClock(id);
    case PurgeTimed(_) => step := PurgeSnapshot(id);
    case Purging(_, todo) =>
      if todo == {} {
        step := PurgeEnd(id);
      } else {
        var m :| m in todo;
        step := PurgeRemove(id, m);
        assert m !in todo - {m};
      }
    case Purged => step := Recount(id);
    case RollingBack => step := RollBack(id);
  }

  /** From every state, whatever other calls are doing, an admission can go on to its end by
      its own steps alone. */
  lemma {:induction false} AdmissionCanEnd(s: State, id: string, limit: int) returns (steps: seq<Step>, s': State)
    requires id in s.admissions
    ensures OwnRun(s, steps, id, limit, s') && (In(s', id, Admitted) || In(s', id, Refused))
    decreases Remaining(s.admissions[id].phase), Todo(s.admissions[id].phase)
  {
    if In(s, id, Admitted) || In(s, id, Refused) {
      steps, s' := [], s;
    } else {
      var step := NextOwnStep(s, id, limit);
      var rest;
      rest, s' := AdmissionCanEnd(Next(s, step, limit), id, limit);
      steps := [step] + rest;
      assert steps[1..] == rest;
    }
  }

  /** And run alone it is admitted if and only if fewer live members than the limit are there. */
  lemma AdmissionIsDecided(s: State, id: string, ttl: nat, limit: int) returns (steps: seq<Step>, s': State)
    requires id !in s.admissions && forall m :: m in s.members ==> m.runId != id
    ensures Enabled(s, Begin(id, ttl)) && OwnRun(Next(s, Begin(id, ttl), limit), steps, id, limit, s')
    ensures if |set m | m in s.members && m.deadline >= s.now| < limit then In(s', id, Admitted) else In(s', id, Refused)
  {
    steps, s' := AdmissionCanEnd(Next(s, Begin(id, ttl), limit), id, limit);
    UninterruptedIsReserve(s, id, ttl, limit, steps, s');
    assert Live(s.members, s.now) == set m | m in s.members && m.deadline >= s.now;
  }

  /** A release can be asked for at any time, and then takes back any member of its run. */
  lemma ReleaseTakesBack(s: State, m: Member, limit: int)
    ensures Enabled(s, ReleaseCall(m.runId)) && Enabled(Next(s, ReleaseCall(m.runId), limit), ReleaseRemove(m))
    ensures var s' := Next(Next(s, ReleaseCall(m.runId), limit), ReleaseRemove(m), limit);
            s'.members == s.members - {m} && s'.admissions == s.admissions && s'.released == s.released + {m.runId}
  {
  }

  /** Time passes between any two steps, and changes nothing else. */
  lemma TimePasses(s: State, later: int, limit: int)
    requires s.now <= later
    ensures Enabled(s, Tick(later)) && Next(s, Tick(later), limit) == State(later, s.members, s.admissions, s.released)
  {
  }
}
