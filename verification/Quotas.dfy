/** Concurrent-run admission by a set of deadline-stamped members: one call at a time. */
module Quotas {
  import opened Results
  import opened Sets

  /** A reserved slot, stored as "<run id>@<deadline>". */
  datatype Member = Member(runId: string, deadline: int)

  datatype Limits = Limits(enabled: bool, maxConcurrentRuns: int, maxTokens: int, maxCost: real)

  datatype Ticket = Ticket(tenant: string, runId: string)

  datatype QuotaError = TokensExceeded | CostExceeded | RunsExceeded(used: int)

  /** The members whose deadline has not passed. */
  function Live(members: set<Member>, now: int): set<Member> {
    set m | m in members && m.deadline >= now
  }

  /** The members an admission joins: expired ones are purged only when the limit is reached. */
  function Base(members: set<Member>, now: int, limit: int): set<Member> {
    if |members| < limit then members else Live(members, now)
  }

  function Others(members: set<Member>, runId: string): set<Member> {
    set m | m in members && m.runId != runId
  }

  class QuotaService {
    const limits: Limits
    var runs: map<string, set<Member>>
    var tokens: map<string, int>
    var cost: map<string, real>

    constructor (limits: Limits)
      ensures this.limits == limits && runs == map[] && tokens == map[] && cost == map[]
    {
      this.limits, this.runs, this.tokens, this.cost := limits, map[], map[], map[];
    }

    function MembersOf(tenant: string): set<Member>
      reads this
    {
      if tenant in runs then runs[tenant] else {}
    }

    function TokensOf(tenant: string): int
      reads this
    {
      if tenant in tokens then tokens[tenant] else 0
    }

    function CostOf(tenant: string): real
      reads this
    {
      if tenant in cost then cost[tenant] else 0.0
    }

    method SetAdd(tenant: string, member: Member)
      modifies this`runs
      ensures MembersOf(tenant) == old(MembersOf(tenant)) + {member}
      ensures forall other :: other != tenant ==> MembersOf(other) == old(MembersOf(other))
    {
      runs := runs[tenant := MembersOf(tenant) + {member}];
    }

    method SetRemove(tenant: string, member: Member)
      modifies this`runs
      ensures MembersOf(tenant) == old(MembersOf(tenant)) - {member}
      ensures forall other :: other != tenant ==> MembersOf(other) == old(MembersOf(other))
    {
      if member in MembersOf(tenant) {
        runs := runs[tenant := MembersOf(tenant) - {member}];
      }
    }

    /** Remove every member whose deadline has passed. */
    method PurgeExpiredRuns(tenant: string, now: int)
      modifies this`runs
      ensures MembersOf(tenant) == Live(old(MembersOf(tenant)), now)
      ensures forall m :: m in MembersOf(tenant) <==> m in old(MembersOf(tenant)) && m.deadline >= now
      ensures forall other :: other != tenant ==> MembersOf(other) == old(MembersOf(other))
    {
      var members := MembersOf(tenant);
      var todo := members;
      while todo != {}
        invariant todo <= members
        invariant MembersOf(tenant) == todo + Live(members - todo, now)
        invariant forall other :: other != tenant ==> MembersOf(other) == old(MembersOf(other))
        decreases todo
      {
        var member :| member in todo;
        todo := todo - {member};
        if member.deadline < now {
          SetRemove(tenant, member);
        }
      }
    }

    /** Reserve a slot: add a member, count, purge and recount when over the limit, and
        take the member back when still over. */
    method AdmitRun(tenant: string, runId: string, now: int, ttl: nat) returns (r: Result<Ticket, QuotaError>)
      requires forall m :: m in MembersOf(tenant) ==> m.runId != runId
      modifies this`runs
      ensures !limits.enabled ==> r == Ok(Ticket(tenant, "disabled")) && runs == old(runs)
      ensures var used, spent := if tenant in tokens then tokens[tenant] else 0, if tenant in cost then cost[tenant] else 0.0;
              && (limits.enabled && used >= limits.maxTokens ==> r == Err(TokensExceeded) && runs == old(runs))
              && (limits.enabled && used < limits.maxTokens && spent >= limits.maxCost ==>
                    r == Err(CostExceeded) && runs == old(runs))
              && (limits.enabled && used < limits.maxTokens && spent < limits.maxCost ==>
                var before := old(MembersOf(tenant));
                && (r.Ok? <==> |Live(before, now)| < limits.maxConcurrentRuns)
                && (r.Ok? ==> r.value == Ticket(tenant, runId))
                && (r.Ok? ==> MembersOf(tenant) == Base(before, now, limits.maxConcurrentRuns) + {Member(runId, now + ttl)})
                && (r.Err? ==> r.error == RunsExceeded(|Live(before, now)|) && MembersOf(tenant) == Live(before, now)))
      ensures forall other :: other != tenant ==> MembersOf(other) == old(MembersOf(other))
    {
      if !limits.enabled {
        return Ok(Ticket(tenant, "disabled"));
      }
      if TokensOf(tenant) >= limits.maxTokens {
        return Err(TokensExceeded);
      }
      if CostOf(tenant) >= limits.maxCost {
        return Err(CostExceeded);
      }
      r := Reserve(tenant, runId, now, ttl);
    }

    method Reserve(tenant: string, runId: string, now: int, ttl: nat) returns (r: Result<Ticket, QuotaError>)
      requires forall m :: m in MembersOf(tenant) ==> m.runId != runId
      modifies this`runs
      ensures var before := old(MembersOf(tenant));
                && (r.Ok? <==> |Live(before, now)| < limits.maxConcurrentRuns)
                && (r.Ok? ==> r.value == Ticket(tenant, runId))
                && (r.Ok? ==> MembersOf(tenant) == Base(before, now, limits.maxConcurrentRuns) + {Member(runId, now + ttl)})
                && (r.Err? ==> r.error == RunsExceeded(|Live(before, now)|) && MembersOf(tenant) == Live(before, now))
      ensures forall other :: other != tenant ==> MembersOf(other) == old(MembersOf(other))
    {
      ghost var before := MembersOf(tenant);
      var member := Member(runId, now + ttl);
      assert member !in before;
      SubsetSize(Live(before, now), before);
      SetAdd(tenant, member);
      if |MembersOf(tenant)| > limits.maxConcurrentRuns {
        PurgeExpiredRuns(tenant, now);
        assert MembersOf(tenant) == Live(before, now) + {member};
        var size := |MembersOf(tenant)|;
        if size > limits.maxConcurrentRuns {
          SetRemove(tenant, member);
          return Err(RunsExceeded(size - 1));
        }
      }
      return Ok(Ticket(tenant, runId));
    }

    /** Remove every member of the run; repeating it changes nothing. */
    method ReleaseRun(tenant: string, runId: string)
      modifies this`runs
      ensures !limits.enabled || runId == "" || runId == "disabled" ==> runs == old(runs)
      ensures limits.enabled && runId != "" && runId != "disabled" ==>
                MembersOf(tenant) == Others(old(MembersOf(tenant)), runId)
      ensures forall other :: other != tenant ==> MembersOf(other) == old(MembersOf(other))
    {
      if !limits.enabled || runId == "" || runId == "disabled" {
        return;
      }
      var members := MembersOf(tenant);
      var todo := members;
      while todo != {}
        invariant todo <= members
        invariant MembersOf(tenant) == todo + Others(members - todo, runId)
        invariant forall other :: other != tenant ==> MembersOf(other) == old(MembersOf(other))
        decreases todo
      {
        var member :| member in todo;
        todo := todo - {member};
        if member.runId == runId {
          SetRemove(tenant, member);
        }
      }
    }
  }

  /** Releasing gives back exactly the slot that admission took, and only once. */
  lemma ReleaseUndoesAdmission(before: set<Member>, runId: string, deadline: int)
    requires forall m :: m in before ==> m.runId != runId
    ensures Others(before + {Member(runId, deadline)}, runId) == before
    ensures Others(Others(before + {Member(runId, deadline)}, runId), runId) == before
  {
  }
}
