/** Exactly-once allocation of cumulative per-model usage counters among stages. */
module UsageMeter {
  import opened Results

  type Counters = map<string, real>

  /** A missing counter reads as zero. */
  function Get(c: Counters, key: string): real {
    if key in c then c[key] else 0.0
  }

  /** The counters that grew, by how much. */
  function Delta(before: Counters, current: Counters): Counters {
    map key | key in current && current[key] - Get(before, key) > 0.0 :: current[key] - Get(before, key)
  }

  datatype Meter = Meter(initialized: bool, lastClaimed: Counters)

  /** One locked region: a stage begins, or claims; the snapshot may be unavailable. */
  datatype Step =
    | Begin(model: string, snapshot: Option<Counters>)
    | Claim(model: string, snapshot: Option<Counters>)

  function MeterOf(meters: map<string, Meter>, model: string): Meter {
    if model in meters then meters[model] else Meter(false, map[])
  }

  function Begun(meter: Meter, snapshot: Option<Counters>): Meter {
    match snapshot
    case None => meter
    case Some(current) => if meter.initialized then meter else Meter(true, current)
  }

  /** The meter after a claim, and what the claiming stage is given. */
  function Claimed(meter: Meter, snapshot: Option<Counters>): (Meter, Option<Counters>) {
    match snapshot
    case None => (meter, None)
    case Some(current) =>
      if !meter.initialized then (meter, None)
      else
        var delta := Delta(meter.lastClaimed, current);
        (meter.(lastClaimed := current), if delta == map[] then None else Some(delta))
  }

  /** Exactly the counters that grew, by how much, a new counter having grown from zero. */
  ghost predicate GivesGrowth(before: Counters, current: Counters, usage: Option<Counters>) {
    var given := if usage.None? then map[] else usage.value;
    && usage != Some(map[])
    && (forall key :: key in given <==> key in current && current[key] > (if key in before then before[key] else 0.0))
    && (forall key :: key in given ==> given[key] == current[key] - (if key in before then before[key] else 0.0))
  }

  class LLMUsageCoordinator {
    var slots: map<string, Meter>

    constructor ()
      ensures slots == map[]
    {
      slots := map[];
    }

    /** The model's slot, made on first use. */
    method SlotFor(model: string) returns (meter: Meter)
      modifies this
      ensures meter == MeterOf(old(slots), model) && slots == old(slots)[model := meter]
    {
      meter := MeterOf(slots, model);
      slots := slots[model := meter];
    }

    /** The first available snapshot of a model is its baseline; later ones change nothing. */
    method BeginStage(model: string, snapshot: Option<Counters>) returns (ready: bool)
      modifies this
      ensures model in slots && forall other :: other != model ==>
                (other in slots <==> other in old(slots)) && (other in slots ==> slots[other] == old(slots)[other])
      ensures if model in old(slots) && old(slots)[model].initialized then slots == old(slots)
              else if snapshot.Some? then slots[model] == Meter(true, snapshot.value)
              else slots[model] == if model in old(slots) then old(slots)[model] else Meter(false, map[])
      ensures slots == old(slots)[model := Begun(MeterOf(old(slots), model), snapshot)]
      ensures ready <==> snapshot.Some?
    {
      var meter := SlotFor(model);
      if snapshot.None? {
        return false;
      }
      if meter.initialized {
        return true;
      }
      slots := slots[model := Meter(true, snapshot.value)];
      return true;
    }

    /** A claim after a baseline gives out, counter by counter, what was added since the last
        snapshot, and nothing when no counter grew; other claims give out nothing. */
    method ClaimUsage(model: string, snapshot: Option<Counters>) returns (usage: Option<Counters>)
      modifies this
      ensures if snapshot.Some? && model in old(slots) && old(slots)[model].initialized
              then slots == old(slots)[model := Meter(true, snapshot.value)]
                   && GivesGrowth(old(slots)[model].lastClaimed, snapshot.value, usage)
              else usage == None && slots == old(slots)[model := MeterOf(old(slots), model)]
      ensures var (meter, given) := Claimed(MeterOf(old(slots), model), snapshot);
              slots == old(slots)[model := meter] && usage == given
    {
      var meter := SlotFor(model);
      if snapshot.None? || !meter.initialized {
        return None;
      }
      var before := meter.lastClaimed;
      var delta := Delta(before, snapshot.value);
      slots := slots[model := meter.(lastClaimed := snapshot.value)];
      return if delta == map[] then None else Some(delta);
    }
  }

  // --- Runs: any interleaving of stages ---

  /** The meters, and how much of each counter has been given out per model. */
  datatype Ledger = Ledger(meters: map<string, Meter>, given: map<string, Counters>)

  function GivenTo(l: Ledger, model: string): Counters {
    if model in l.given then l.given[model] else map[]
  }

  function Sum(a: Counters, b: Counters): Counters {
    map key | key in a.Keys + b.Keys :: Get(a, key) + Get(b, key)
  }

  function Apply(l: Ledger, step: Step): Ledger {
    match step
    case Begin(model, snapshot) => l.(meters := l.meters[model := Begun(MeterOf(l.meters, model), snapshot)])
    case Claim(model, snapshot) =>
      var (meter, usage) := Claimed(MeterOf(l.meters, model), snapshot);
      Ledger(l.meters[model := meter],
             if usage.None? then l.given else l.given[model := Sum(GivenTo(l, model), usage.value)])
  }

  function Run(l: Ledger, steps: seq<Step>): Ledger {
    if steps == [] then l else Apply(Run(l, steps[..|steps| - 1]), steps[|steps| - 1])
  }

  function Empty(): Ledger {
    Ledger(map[], map[])
  }

  /** The snapshots that count for a model: the first one a begin sees, and every later
      one a claim sees. */
  function Counted(steps: seq<Step>, model: string): seq<Counters> {
    if steps == [] then []
    else
      var earlier := Counted(steps[..|steps| - 1], model);
      match steps[|steps| - 1]
      case Begin(m, Some(current)) => if m == model && earlier == [] then [current] else earlier
      case Claim(m, Some(current)) => if m == model && earlier != [] then earlier + [current] else earlier
      case _ => earlier
  }

  /** The counter never goes down from one counted snapshot to the next. */
  ghost predicate Monotone(snapshots: seq<Counters>, key: string) {
    forall i: nat :: i < |snapshots| - 1 ==> Get(snapshots[i], key) <= Get(snapshots[i + 1], key)
  }

  /** A meter holds the last counted snapshot of its model. */
  lemma {:induction false} MeterHoldsLast(steps: seq<Step>, model: string)
    ensures var c := Counted(steps, model);
            MeterOf(Run(Empty(), steps).meters, model)
            == if c == [] then Meter(false, map[]) else Meter(true, c[|c| - 1])
  {
    if steps != [] {
      MeterHoldsLast(steps[..|steps| - 1], model);
      var step := steps[|steps| - 1];
      if step.model != model {
        assert MeterOf(Run(Empty(), steps).meters, model) == MeterOf(Run(Empty(), steps[..|steps| - 1]).meters, model);
      }
    }
  }

  /** The growth of a counter over consecutive snapshots, counting increases only. */
  function Growth(snapshots: seq<Counters>, key: string): real {
    if |snapshots| < 2 then 0.0
    else
      var n := |snapshots| - 1;
      var d := Get(snapshots[n], key) - Get(snapshots[n - 1], key);
      Growth(snapshots[..n], key) + if d > 0.0 then d else 0.0
  }

  /** What a claim gives out for a key is that key's increase. */
  lemma ClaimAddsGrowth(l: Ledger, step: Step, last: Counters, key: string)
    requires step.Claim? && step.snapshot.Some? && Get(last, key) >= 0.0
    requires MeterOf(l.meters, step.model) == Meter(true, last)
    ensures var d := Get(step.snapshot.value, key) - Get(last, key);
            Get(GivenTo(Apply(l, step), step.model), key)
            == Get(GivenTo(l, step.model), key) + if d > 0.0 then d else 0.0
  {
    var delta := Delta(last, step.snapshot.value);
    assert key in delta <==> Get(step.snapshot.value, key) - Get(last, key) > 0.0;
    assert delta == map[] ==> key !in delta;
  }

  /** Nothing else gives anything out for the model. */
  lemma OtherStepsGiveNothing(l: Ledger, step: Step, model: string)
    requires step.model != model || step.Begin? || step.snapshot.None? || !MeterOf(l.meters, model).initialized
    ensures GivenTo(Apply(l, step), model) == GivenTo(l, model)
  {
  }

  lemma GrowthExtends(earlier: seq<Counters>, current: Counters, key: string)
    requires earlier != []
    ensures var d := Get(current, key) - Get(earlier[|earlier| - 1], key);
            Growth(earlier + [current], key) == Growth(earlier, key) + if d > 0.0 then d else 0.0
  {
    assert (earlier + [current])[..|earlier|] == earlier;
  }

  /** How the last step extends the counted snapshots of a model. */
  lemma CountedExtends(steps: seq<Step>, model: string)
    requires steps != []
    ensures var earlier, step := Counted(steps[..|steps| - 1], model), steps[|steps| - 1];
            Counted(steps, model)
            == if step.model != model || step.snapshot.None? then earlier
               else if step.Begin? then (if earlier == [] then [step.snapshot.value] else earlier)
               else if earlier == [] then earlier
               else earlier + [step.snapshot.value]
  {
  }

  /** Over a run, claims give out exactly the increases of the counted snapshots. */
  lemma {:induction false} GivenIsGrowth(steps: seq<Step>, model: string, key: string)
    requires forall i: nat :: i < |Counted(steps, model)| ==> Get(Counted(steps, model)[i], key) >= 0.0
    ensures Get(GivenTo(Run(Empty(), steps), model), key) == Growth(Counted(steps, model), key)
  {
    if steps != [] {
      var shorter, step := steps[..|steps| - 1], steps[|steps| - 1];
      var earlier := Counted(shorter, model);
      CountedExtends(steps, model);
      assert forall i: nat :: i < |earlier| ==> earlier[i] == Counted(steps, model)[i];
      GivenIsGrowth(shorter, model, key);
      MeterHoldsLast(shorter, model);
      if step.model == model && step.Claim? && step.snapshot.Some? && earlier != [] {
        ClaimAddsGrowth(Run(Empty(), shorter), step, earlier[|earlier| - 1], key);
        GrowthExtends(earlier, step.snapshot.value, key);
      } else {
        OtherStepsGiveNothing(Run(Empty(), shorter), step, model);
      }
    }
  }

  /** Increases alone add up to the net change exactly when nothing went down. */
  lemma {:induction false} GrowthIsNetIff(snapshots: seq<Counters>, key: string)
    requires snapshots != []
    ensures var net := Get(snapshots[|snapshots| - 1], key) - Get(snapshots[0], key);
            Growth(snapshots, key) >= net && (Growth(snapshots, key) == net <==> Monotone(snapshots, key))
  {
    var n := |snapshots| - 1;
    if n > 0 {
      var shorter := snapshots[..n];
      GrowthIsNetIff(shorter, key);
      if Monotone(snapshots, key) {
        forall i: nat | i < |shorter| - 1
          ensures Get(shorter[i], key) <= Get(shorter[i + 1], key)
        {
          assert Get(snapshots[i], key) <= Get(snapshots[i + 1], key);
        }
        assert Get(snapshots[n - 1], key) <= Get(snapshots[n - 1 + 1], key);
      } else if Monotone(shorter, key) {
        var i: nat :| i < n && !(Get(snapshots[i], key) <= Get(snapshots[i + 1], key));
        assert i < n - 1 ==> Get(shorter[i], key) <= Get(shorter[i + 1], key);
      }
    }
  }

  /** Exactly once: over any interleaving of stages, what the claims on a model give out for
      a counter is its last counted value minus its baseline, precisely when the counter
      never went down. */
  lemma ClaimsAddUpIff(steps: seq<Step>, model: string, key: string)
    requires Counted(steps, model) != []
    requires forall i: nat :: i < |Counted(steps, model)| ==> Get(Counted(steps, model)[i], key) >= 0.0
    ensures var c := Counted(steps, model);
            Get(GivenTo(Run(Empty(), steps), model), key) == Get(c[|c| - 1], key) - Get(c[0], key)
            <==> Monotone(c, key)
  {
    GivenIsGrowth(steps, model, key);
    GrowthIsNetIff(Counted(steps, model), key);
  }

  /** Two ledgers agree on a model: its meter, and what was given out for it. */
  ghost predicate Agree(l: Ledger, m: Ledger, model: string) {
    MeterOf(l.meters, model) == MeterOf(m.meters, model) && GivenTo(l, model) == GivenTo(m, model)
  }

  /** What a step does for a model depends on that model's meter and allotment alone. */
  lemma StepIsPerModel(l: Ledger, m: Ledger, step: Step, model: string)
    requires Agree(l, m, model)
    ensures Agree(Apply(l, step), Apply(m, step), model)
  {
  }

  lemma OtherStepAgrees(l: Ledger, step: Step, model: string)
    requires step.model != model
    ensures Agree(Apply(l, step), l, model)
  {
  }

  lemma RunAppend(l: Ledger, steps: seq<Step>, step: Step)
    ensures Run(l, steps + [step]) == Apply(Run(l, steps), step)
  {
    assert (steps + [step])[..|steps|] == steps;
  }

  lemma {:induction false} RunsAgree(before: seq<Step>, other: Step, after: seq<Step>, model: string)
    requires other.model != model
    ensures Agree(Run(Empty(), before + [other] + after), Run(Empty(), before + after), model)
  {
    if after == [] {
      assert before + [other] + after == before + [other] && before + after == before;
      RunAppend(Empty(), before, other);
      OtherStepAgrees(Run(Empty(), before), other, model);
    } else {
      var earlier, last := after[..|after| - 1], after[|after| - 1];
      assert before + [other] + after == before + [other] + earlier + [last];
      assert before + after == before + earlier + [last];
      RunsAgree(before, other, earlier, model);
      RunAppend(Empty(), before + [other] + earlier, last);
      RunAppend(Empty(), before + earlier, last);
      StepIsPerModel(Run(Empty(), before + [other] + earlier), Run(Empty(), before + earlier), last, model);
    }
  }

  /** A step on another model, wherever it stands in a run, changes nothing for this one. */
  lemma ModelsAreIndependent(before: seq<Step>, other: Step, after: seq<Step>, model: string)
    requires other.model != model
    ensures MeterOf(Run(Empty(), before + [other] + after).meters, model) == MeterOf(Run(Empty(), before + after).meters, model)
    ensures GivenTo(Run(Empty(), before + [other] + after), model) == GivenTo(Run(Empty(), before + after), model)
  {
    RunsAgree(before, other, after, model);
  }
}
