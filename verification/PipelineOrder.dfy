/** The order in which the pipeline runs its modules. */
module PipelineOrder {
  import opened Waf
  import opened Pipeline

  function Rank(phase: Phase): nat
  {
    match phase
    case Connection => 0
    case RequestLine => 1
    case Headers => 2
    case Body => 3
    case Response => 4
  }

  predicate Runs<R>(m: Module<R>, structuralOnly: bool) { !structuralOnly || m.structural }

  /** In an earlier phase, or registered earlier in the same one. */
  predicate Before<R>(ms: seq<Module<R>>, x: nat, y: nat)
    requires x < |ms| && y < |ms|
  {
    Rank(ms[x].phase) < Rank(ms[y].phase) || (Rank(ms[x].phase) == Rank(ms[y].phase) && x < y)
  }

  /** `order` lists the modules of `run` by their places in `ms`, each one before the next. */
  ghost predicate Places<R>(ms: seq<Module<R>>, run: seq<Module<R>>, order: seq<nat>)
  {
    && |order| == |run|
    && (forall k :: 0 <= k < |order| ==> order[k] < |ms| && run[k] == ms[order[k]])
    && (forall a, b :: 0 <= a < b < |order| ==> Before(ms, order[a], order[b]))
  }

  /** The whole schedule is all modules that may run, each once, by phase and within a phase in the order
      of registration. */
  lemma ScheduleIsStable<R>(ms: seq<Module<R>>, structuralOnly: bool) returns (order: seq<nat>)
    ensures Places(ms, Schedule(ms, PHASE_ORDER, structuralOnly), order)
    ensures forall i :: 0 <= i < |ms| ==> (i in order <==> Runs(ms[i], structuralOnly))
  {
    order := ScheduleFrom(ms, PHASE_ORDER, 0, structuralOnly);
  }

  /** And inspection is the same without the connection phase. */
  lemma InspectionIsStable<R>(ms: seq<Module<R>>, structuralOnly: bool) returns (order: seq<nat>)
    ensures Places(ms, Schedule(ms, INSPECTION_PHASES, structuralOnly), order)
    ensures forall i :: 0 <= i < |ms| ==>
              (i in order <==> Runs(ms[i], structuralOnly) && ms[i].phase != Connection)
  {
    order := ScheduleFrom(ms, INSPECTION_PHASES, 1, structuralOnly);
  }

  lemma PlacesConcat<R>(ms: seq<Module<R>>, r: seq<Module<R>>, r': seq<Module<R>>, o: seq<nat>, o': seq<nat>)
    requires Places(ms, r, o) && Places(ms, r', o')
    requires forall a, b :: 0 <= a < |o| && 0 <= b < |o'| ==> Before(ms, o[a], o'[b])
    ensures Places(ms, r + r', o + o')
  {
  }

  lemma {:induction false} ScheduleFrom<R>(ms: seq<Module<R>>, phases: seq<Phase>, first: nat, structuralOnly: bool)
    returns (order: seq<nat>)
    requires first + |phases| == 5 && forall k :: 0 <= k < |phases| ==> Rank(phases[k]) == first + k
    ensures Places(ms, Schedule(ms, phases, structuralOnly), order)
    ensures forall i: nat :: i < |ms| ==> (i in order <==> Runs(ms[i], structuralOnly) && Rank(ms[i].phase) >= first)
    decreases |phases|
  {
    if phases == [] {
      order := [];
    } else {
      var here := PhasePlaces(ms, phases[0], structuralOnly);
      var later := ScheduleFrom(ms, phases[1..], first + 1, structuralOnly);
      order := here + later;
      PhaseIsFirst(ms, phases[0], here, later);
      PlacesConcat(ms, InPhase(ms, phases[0], structuralOnly), Schedule(ms, phases[1..], structuralOnly), here, later);
    }
  }

  lemma PhaseIsFirst<R>(ms: seq<Module<R>>, phase: Phase, here: seq<nat>, later: seq<nat>)
    requires forall k :: 0 <= k < |here| ==> here[k] < |ms|
    requires forall k :: 0 <= k < |later| ==> later[k] < |ms|
    requires forall i: nat :: i < |ms| && i in here ==> ms[i].phase == phase
    requires forall i: nat :: i < |ms| && i in later ==> Rank(ms[i].phase) > Rank(phase)
    ensures forall a, b :: 0 <= a < |here| && 0 <= b < |later| ==> Before(ms, here[a], later[b])
  {
    forall a, b | 0 <= a < |here| && 0 <= b < |later|
      ensures Before(ms, here[a], later[b])
    {
      assert here[a] in here && later[b] in later;
    }
  }

  lemma PhasePlaces<R>(ms: seq<Module<R>>, phase: Phase, structuralOnly: bool) returns (order: seq<nat>)
    ensures Places(ms, InPhase(ms, phase, structuralOnly), order)
    ensures forall i: nat :: i < |ms| ==> (i in order <==> Runs(ms[i], structuralOnly) && ms[i].phase == phase)
  {
    order := PhaseFrom(ms, 0, phase, structuralOnly);
    assert ms[0..] == ms;
  }

  lemma {:induction false} PhaseFrom<R>(ms: seq<Module<R>>, from: nat, phase: Phase, structuralOnly: bool)
    returns (order: seq<nat>)
    requires from <= |ms|
    ensures Places(ms, InPhase(ms[from..], phase, structuralOnly), order)
    ensures forall i: nat :: i < |ms| ==>
              (i in order <==> i >= from && Runs(ms[i], structuralOnly) && ms[i].phase == phase)
    decreases |ms| - from
  {
    if from == |ms| {
      order := [];
    } else {
      order := PhaseFrom(ms, from + 1, phase, structuralOnly);
      InPhaseStep(ms, from, phase, structuralOnly);
      if ms[from].phase == phase && Runs(ms[from], structuralOnly) {
        NextIsLater(ms, from, order);
        PlacesConcat(ms, [ms[from]], InPhase(ms[from + 1..], phase, structuralOnly), [from], order);
        order := [from] + order;
      }
    }
  }

  lemma NextIsLater<R>(ms: seq<Module<R>>, from: nat, later: seq<nat>)
    requires from < |ms| && forall k :: 0 <= k < |later| ==> later[k] < |ms|
    requires forall i: nat :: i < |ms| && i in later ==> i > from && ms[i].phase == ms[from].phase
    ensures forall b :: 0 <= b < |later| ==> Before(ms, from, later[b])
  {
    forall b | 0 <= b < |later|
      ensures Before(ms, from, later[b])
    {
      assert later[b] in later;
    }
  }
}
