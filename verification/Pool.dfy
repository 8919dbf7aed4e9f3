/** The pool of WASM instances: a mutex-guarded stack and a condition variable, as interleaved
    steps of any number of threads. Between two steps of one thread any other thread may run. */
module Pool {
  import opened Bits
  import opened Seqs

  type Tid = nat
  type Instance = nat

  /** Where a thread stands in `inspect`: its place in `checkout`, in the guest, or in `checkin`.
      In the loop, `woken` tells a thread back from its wait from one that has just come in. */
  datatype Pc =
    | Idle
    | Entering
    | InLoop(deadline: nat, woken: bool)
    | SawEmpty(deadline: nat)
    | Parked(deadline: nat)
    | Woken(deadline: nat)
    | Holding(instance: Instance)
    | Returning(instance: Instance)
    | MustNotify

  /** `lock` is the thread inside the mutex between two of its steps; `lost` are the instances
      dropped by a panic of the guest call. */
  datatype State = State(pool: seq<Instance>, lock: Option<Tid>, pcs: seq<Pc>, clock: nat, lost: multiset<Instance>)

  datatype Step =
    | Call(t: Tid)
    | Enter(t: Tid)
    | Pop(t: Tid)
    | FindEmpty(t: Tid)
    | GiveUp(t: Tid)
    | Park(t: Tid)
    | Wake(t: Tid)
    | Relock(t: Tid)
    | Finish(t: Tid)
    | Panic(t: Tid)
    | PushBack(t: Tid)
    | Notify(t: Tid, woken: Option<Tid>)
    | Tick

  function At(s: State, t: Tid): Pc { if t < |s.pcs| then s.pcs[t] else Idle }

  predicate NobodyParked(s: State) { forall u :: 0 <= u < |s.pcs| ==> !s.pcs[u].Parked? }

  predicate Enabled(s: State, step: Step)
  {
    match step
    case Call(t) => t < |s.pcs| && At(s, t).Idle?
    case Enter(t) => At(s, t).Entering? && s.lock == None
    case Pop(t) => At(s, t).InLoop? && s.pool != []
    case FindEmpty(t) => At(s, t).InLoop? && s.pool == []
    case GiveUp(t) => At(s, t).SawEmpty? && s.clock >= At(s, t).deadline
    case Park(t) => At(s, t).SawEmpty? && s.clock < At(s, t).deadline
    case Wake(t) => At(s, t).Parked?
    case Relock(t) => At(s, t).Woken? && s.lock == None
    case Finish(t) => At(s, t).Holding?
    case Panic(t) => At(s, t).Holding?
    case PushBack(t) => At(s, t).Returning? && s.lock == None
    case Notify(t, woken) => At(s, t).MustNotify?
      && (if woken.None? then NobodyParked(s) else At(s, woken.value).Parked?)
    case Tick => true
  }

  function Move(s: State, t: Tid, pc: Pc): State
    requires t < |s.pcs|
  {
    s.(pcs := s.pcs[t := pc])
  }

  /** `wake` stands for a timeout as much as for a spurious wakeup. */
  function Apply(s: State, step: Step, timeout: nat): State
    requires Enabled(s, step)
  {
    match step
    case Call(t) => Move(s, t, Entering)
    case Enter(t) => Move(s, t, InLoop(s.clock + timeout, false)).(lock := Some(t))
    case Pop(t) =>
      var last := |s.pool| - 1;
      Move(s, t, Holding(s.pool[last])).(lock := None, pool := s.pool[..last])
    case FindEmpty(t) => Move(s, t, SawEmpty(At(s, t).deadline))
    case GiveUp(t) => Move(s, t, Idle).(lock := None)
    case Park(t) => Move(s, t, Parked(At(s, t).deadline)).(lock := None)
    case Wake(t) => Move(s, t, Woken(At(s, t).deadline))
    case Relock(t) => Move(s, t, InLoop(At(s, t).deadline, true)).(lock := Some(t))
    case Finish(t) => Move(s, t, Returning(At(s, t).instance))
    case Panic(t) => Move(s, t, Idle).(lost := s.lost + multiset{At(s, t).instance})
    case PushBack(t) => Move(s, t, MustNotify).(pool := s.pool + [At(s, t).instance])
    case Notify(t, woken) =>
      var rest := Move(s, t, Idle);
      if woken.None? then rest else Move(rest, woken.value, Woken(At(s, woken.value).deadline))
    case Tick => s.(clock := s.clock + 1)
  }

  // ---- the critical sections, as methods on the shared object ----

  class Runtime {
    const checkoutTimeout: nat
    var pool: seq<Instance>
    var lock: Option<Tid>
    var pcs: seq<Pc>
    var clock: nat
    ghost var lost: multiset<Instance>

    ghost function View(): State
      reads this
    {
      State(pool, lock, pcs, clock, lost)
    }

    constructor (poolSize: nat, threads: nat, checkoutTimeout: nat)
      ensures View() == Initial(poolSize, threads) && this.checkoutTimeout == checkoutTimeout
    {
      this.checkoutTimeout := checkoutTimeout;
      pool := seq(Max(poolSize, 1), i => i);
      lock, clock, lost := None, 0, multiset{};
      pcs := seq(threads, _ => Idle);
    }

    method LockFirst(t: Tid)
      requires Enabled(View(), Enter(t))
      modifies this
      ensures View() == Apply(old(View()), Enter(t), checkoutTimeout)
    {
      lock := Some(t);
      pcs := pcs[t := InLoop(clock + checkoutTimeout, false)];
    }

    /** `guard.pop()`: the last instance pushed, or nothing. */
    method TryPop(t: Tid) returns (r: Option<Instance>)
      requires pcs != [] && t < |pcs| && pcs[t].InLoop?
      modifies this
      ensures r.Some? <==> old(pool) != []
      ensures View() == Apply(old(View()), if r.Some? then Pop(t) else FindEmpty(t), checkoutTimeout)
      ensures r.Some? ==> old(pool) == pool + [r.value] && pcs[t] == Holding(r.value)
    {
      if pool == [] {
        pcs := pcs[t := SawEmpty(pcs[t].deadline)];
        return None;
      }
      r := Some(pool[|pool| - 1]);
      pool := pool[..|pool| - 1];
      lock := None;
      pcs := pcs[t := Holding(r.value)];
    }

    /** The pool was empty: give up at the deadline, or release the lock and park. */
    method WaitOrGiveUp(t: Tid) returns (gaveUp: bool)
      requires t < |pcs| && pcs[t].SawEmpty?
      modifies this
      ensures gaveUp <==> old(clock) >= old(pcs)[t].deadline
      ensures View() == Apply(old(View()), if gaveUp then GiveUp(t) else Park(t), checkoutTimeout)
    {
      gaveUp := clock >= pcs[t].deadline;
      lock := None;
      pcs := pcs[t := if gaveUp then Idle else Parked(pcs[t].deadline)];
    }

    /** The lock is taken and released around the push; the notification is a step of its own. */
    method Return(t: Tid)
      requires Enabled(View(), PushBack(t))
      modifies this
      ensures View() == Apply(old(View()), PushBack(t), checkoutTimeout)
    {
      pool := pool + [pcs[t].instance];
      pcs := pcs[t := MustNotify];
    }

    /** `notify_one()`: some parked thread if there is any; which one is not determined. */
    method NotifyOne(t: Tid, candidate: Option<Tid>)
      requires Enabled(View(), Notify(t, candidate))
      modifies this
      ensures View() == Apply(old(View()), Notify(t, candidate), checkoutTimeout)
    {
      pcs := pcs[t := Idle];
      if candidate.Some? {
        pcs := pcs[candidate.value := Woken(pcs[candidate.value].deadline)];
      }
    }
  }

  function Initial(poolSize: nat, threads: nat): State
  {
    State(seq(Max(poolSize, 1), i => i), None, seq(threads, _ => Idle), 0, multiset{})
  }

  // ---- runs ----

  ghost predicate ValidRun(s: State, run: seq<Step>, timeout: nat)
    decreases |run|
  {
    run == [] || (Enabled(s, run[0]) && ValidRun(Apply(s, run[0], timeout), run[1..], timeout))
  }

  function After(s: State, run: seq<Step>, timeout: nat): State
    requires ValidRun(s, run, timeout)
    decreases |run|
  {
    if run == [] then s else After(Apply(s, run[0], timeout), run[1..], timeout)
  }

  // ---- counting over threads ----

  function Sum(pcs: seq<Pc>, weight: Pc -> nat): nat
  {
    if pcs == [] then 0 else weight(pcs[0]) + Sum(pcs[1..], weight)
  }

  lemma {:induction false} SumUpdate(pcs: seq<Pc>, t: nat, pc: Pc, weight: Pc -> nat)
    requires t < |pcs|
    ensures Sum(pcs[t := pc], weight) + weight(pcs[t]) == Sum(pcs, weight) + weight(pc)
    decreases |pcs|
  {
    if t > 0 {
      SumUpdate(pcs[1..], t - 1, pc, weight);
      assert pcs[t := pc][1..] == pcs[1..][t - 1 := pc];
    }
  }

  lemma {:induction false} SumZero(pcs: seq<Pc>, weight: Pc -> nat)
    ensures Sum(pcs, weight) == 0 <==> forall u :: 0 <= u < |pcs| ==> weight(pcs[u]) == 0
    decreases |pcs|
  {
    if pcs != [] {
      SumZero(pcs[1..], weight);
      assert forall u :: 1 <= u < |pcs| ==> pcs[1..][u - 1] == pcs[u];
    }
  }

  lemma {:induction false} SumHas(pcs: seq<Pc>, t: nat, weight: Pc -> nat)
    requires t < |pcs|
    ensures weight(pcs[t]) <= Sum(pcs, weight)
    decreases |pcs|
  {
    if t > 0 { SumHas(pcs[1..], t - 1, weight); }
  }

  lemma SumHasTwo(pcs: seq<Pc>, t: nat, u: nat, weight: Pc -> nat)
    requires t < u < |pcs| && weight(Idle) == 0
    ensures weight(pcs[t]) + weight(pcs[u]) <= Sum(pcs, weight)
  {
    SumUpdate(pcs, t, Idle, weight);
    SumHas(pcs[t := Idle], u, weight);
  }

  // ---- conservation ----

  predicate Has(pc: Pc, i: Instance) { (pc.Holding? || pc.Returning?) && pc.instance == i }

  function Holder(i: Instance): Pc -> nat { pc => if Has(pc, i) then 1 else 0 }

  function Holders(pc: Pc): nat { if pc.Holding? || pc.Returning? then 1 else 0 }

  /** Places an instance is in: the pool, a thread's hands, the lost ones. */
  function Places(s: State, i: Instance): nat { multiset(s.pool)[i] + Sum(s.pcs, Holder(i)) + s.lost[i] }

  /** What the change of one thread's place does to the count of an instance. */
  lemma MoveCounts(s: State, t: Tid, pc: Pc, i: Instance)
    requires t < |s.pcs|
    ensures Sum(s.pcs[t := pc], Holder(i)) + (if Has(s.pcs[t], i) then 1 else 0)
      == Sum(s.pcs, Holder(i)) + (if Has(pc, i) then 1 else 0)
  {
    SumUpdate(s.pcs, t, pc, Holder(i));
  }

  lemma LastPopped(pool: seq<Instance>)
    requires pool != []
    ensures multiset(pool) == multiset(pool[..|pool| - 1]) + multiset{pool[|pool| - 1]}
  {
    assert pool == pool[..|pool| - 1] + [pool[|pool| - 1]];
  }

  lemma OnePushed(pool: seq<Instance>, i: Instance)
    ensures multiset(pool + [i]) == multiset(pool) + multiset{i}
  {
  }

  lemma PopConserves(s: State, t: Tid, timeout: nat, i: Instance)
    requires Enabled(s, Pop(t))
    ensures Places(Apply(s, Pop(t), timeout), i) == Places(s, i)
  {
    LastPopped(s.pool);
    MoveCounts(s, t, Holding(s.pool[|s.pool| - 1]), i);
  }

  lemma PushConserves(s: State, t: Tid, timeout: nat, i: Instance)
    requires Enabled(s, PushBack(t))
    ensures Places(Apply(s, PushBack(t), timeout), i) == Places(s, i)
  {
    OnePushed(s.pool, At(s, t).instance);
    MoveCounts(s, t, MustNotify, i);
  }

  lemma NotifyConserves(s: State, t: Tid, woken: Option<Tid>, timeout: nat, i: Instance)
    requires Enabled(s, Notify(t, woken))
    ensures Places(Apply(s, Notify(t, woken), timeout), i) == Places(s, i)
  {
    MoveCounts(s, t, Idle, i);
    if woken.Some? { MoveCounts(Move(s, t, Idle), woken.value, Woken(At(s, woken.value).deadline), i); }
  }

  /** Every step keeps every instance, once: pooled, held, or lost to a panic. */
  lemma StepConserves(s: State, step: Step, timeout: nat, i: Instance)
    requires Enabled(s, step)
    ensures Places(Apply(s, step, timeout), i) == Places(s, i)
  {
    match step
    case Tick =>
    case Notify(t, woken) => NotifyConserves(s, t, woken, timeout, i);
    case Pop(t) => PopConserves(s, t, timeout, i);
    case PushBack(t) => PushConserves(s, t, timeout, i);
    case Panic(t) => MoveCounts(s, t, Idle, i);
    case Finish(t) => MoveCounts(s, t, Returning(At(s, t).instance), i);
    case _ => WaitingConserves(s, step, timeout, i);
  }

  /** Steps of a thread that has no instance. */
  lemma WaitingConserves(s: State, step: Step, timeout: nat, i: Instance)
    requires Enabled(s, step)
    requires step.Call? || step.Enter? || step.FindEmpty? || step.GiveUp? || step.Park? || step.Wake? || step.Relock?
    ensures Places(Apply(s, step, timeout), i) == Places(s, i)
  {
    MoveCounts(s, step.t, Apply(s, step, timeout).pcs[step.t], i);
  }

  lemma StepKeepsSize(s: State, step: Step, timeout: nat)
    requires Enabled(s, step)
    ensures var n := Apply(s, step, timeout);
            |n.pool| + Sum(n.pcs, Holders) + |n.lost| == |s.pool| + Sum(s.pcs, Holders) + |s.lost|
    ensures |Apply(s, step, timeout).lost| == |s.lost| + if step.Panic? then 1 else 0
  {
    match step
    case Tick =>
    case Notify(t, woken) => NotifyKeepsHolders(s, t, woken, timeout);
    case _ => OneThreadMoves(s, step, timeout);
  }

  lemma OneThreadMoves(s: State, step: Step, timeout: nat)
    requires Enabled(s, step) && !step.Tick? && !step.Notify?
    ensures var n := Apply(s, step, timeout);
            |n.pool| + Sum(n.pcs, Holders) + |n.lost| == |s.pool| + Sum(s.pcs, Holders) + |s.lost|
  {
    SumUpdate(s.pcs, step.t, Apply(s, step, timeout).pcs[step.t], Holders);
  }

  lemma NotifyKeepsHolders(s: State, t: Tid, woken: Option<Tid>, timeout: nat)
    requires Enabled(s, Notify(t, woken))
    ensures Sum(Apply(s, Notify(t, woken), timeout).pcs, Holders) == Sum(s.pcs, Holders)
  {
    SumUpdate(s.pcs, t, Idle, Holders);
    if woken.Some? { SumUpdate(s.pcs[t := Idle], woken.value, Woken(At(s, woken.value).deadline), Holders); }
  }

  function Panics(run: seq<Step>): nat
  {
    if run == [] then 0 else (if run[0].Panic? then 1 else 0) + Panics(run[1..])
  }

  lemma {:induction false} RunConserves(s: State, run: seq<Step>, timeout: nat, i: Instance)
    requires ValidRun(s, run, timeout)
    ensures var n := After(s, run, timeout);
            && Places(n, i) == Places(s, i)
            && |n.pool| + Sum(n.pcs, Holders) + |n.lost| == |s.pool| + Sum(s.pcs, Holders) + |s.lost|
            && |n.lost| == |s.lost| + Panics(run)
    decreases |run|
  {
    if run != [] {
      StepConserves(s, run[0], timeout, i);
      StepKeepsSize(s, run[0], timeout);
      RunConserves(Apply(s, run[0], timeout), run[1..], timeout, i);
    }
  }

  lemma DistinctInstances(n: nat, i: Instance)
    ensures multiset(seq(n, k => k))[i] == if i < n then 1 else 0
    decreases n
  {
    if n > 0 {
      DistinctInstances(n - 1, i);
      var fewer := seq(n - 1, k => k);
      assert seq(n, k => k) == fewer + [n - 1];
      OnePushed(fewer, n - 1);
    }
  }

  lemma InitialPlaces(poolSize: nat, threads: nat, i: Instance)
    ensures var s := Initial(poolSize, threads);
            Places(s, i) == (if i < Max(poolSize, 1) then 1 else 0) && Sum(s.pcs, Holders) == 0
  {
    var s := Initial(poolSize, threads);
    DistinctInstances(Max(poolSize, 1), i);
    SumZero(s.pcs, Holder(i));
    SumZero(s.pcs, Holders);
  }

  /** In every run each instance built at the start is in exactly one place, and there are no
      others; pooled, held and lost together make up the pool size, and one is lost to each panic. */
  lemma InstancesAreConserved(poolSize: nat, threads: nat, run: seq<Step>, timeout: nat, i: Instance)
    requires ValidRun(Initial(poolSize, threads), run, timeout)
    ensures var s := After(Initial(poolSize, threads), run, timeout);
            && Places(s, i) == (if i < Max(poolSize, 1) then 1 else 0)
            && |s.pool| + Sum(s.pcs, Holders) + Panics(run) == Max(poolSize, 1)
            && ((forall u :: 0 <= u < |s.pcs| ==> s.pcs[u].Idle?) ==> |s.pool| == Max(poolSize, 1) - Panics(run))
  {
    var first := Initial(poolSize, threads);
    var s := After(first, run, timeout);
    RunConserves(first, run, timeout, i);
    InitialPlaces(poolSize, threads, i);
    SumZero(s.pcs, Holders);
  }

  /** No instance has two holders, and none is held and pooled. */
  lemma HoldersDiffer(poolSize: nat, threads: nat, run: seq<Step>, timeout: nat, t: Tid, u: Tid, i: Instance)
    requires ValidRun(Initial(poolSize, threads), run, timeout)
    requires var s := After(Initial(poolSize, threads), run, timeout); t < u < |s.pcs|
    ensures var s := After(Initial(poolSize, threads), run, timeout);
            !(Has(s.pcs[t], i) && Has(s.pcs[u], i)) && !(Has(s.pcs[t], i) && i in s.pool)
  {
    var s := After(Initial(poolSize, threads), run, timeout);
    InstancesAreConserved(poolSize, threads, run, timeout, i);
    SumHasTwo(s.pcs, t, u, Holder(i));
    SumHas(s.pcs, t, Holder(i));
    assert i in s.pool ==> multiset(s.pool)[i] > 0;
  }

  // ---- checkout and checkin ----

  /** The pool is a stack: a caller that takes the mutex next, coming in or back from its wait and
      before anybody is notified, gets the instance just returned, and leaves the pool as it was
      before the return. */
  lemma ReturnedIsNext(s: State, t: Tid, lock: Step, timeout: nat)
    requires (lock.Enter? || lock.Relock?) && Enabled(s, PushBack(t)) && Enabled(s, lock)
    ensures var pushed := Apply(s, PushBack(t), timeout);
            Enabled(pushed, lock) && At(pushed, t).MustNotify?
    ensures var locked := Apply(Apply(s, PushBack(t), timeout), lock, timeout);
            && Enabled(locked, Pop(lock.t)) && !Enabled(locked, FindEmpty(lock.t))
            && At(Apply(locked, Pop(lock.t), timeout), lock.t) == Holding(At(s, t).instance)
            && Apply(locked, Pop(lock.t), timeout).pool == s.pool
  {
    assert (s.pool + [At(s, t).instance])[..|s.pool|] == s.pool;
  }

  // ---- the lock and the wakeups ----

  function Waiters(pc: Pc): nat { if pc.Parked? then 1 else 0 }

  /** Threads woken that have not yet looked at the pool, and notifications to come. */
  function Attentive(pc: Pc): nat { if pc.Woken? || (pc.InLoop? && pc.woken) || pc.MustNotify? then 1 else 0 }

  predicate InMutex(pc: Pc) { pc.InLoop? || pc.SawEmpty? }

  /** The thread in the mutex is the one between two of its steps; nobody else is. And a thread
      that saw the pool empty still finds it empty. */
  ghost predicate MutexHeld(s: State)
  {
    && (forall t :: 0 <= t < |s.pcs| ==> (InMutex(s.pcs[t]) <==> s.lock == Some(t)))
    && (s.lock.Some? ==> s.lock.value < |s.pcs|)
    && (forall t :: 0 <= t < |s.pcs| && s.pcs[t].SawEmpty? ==> s.pool == [])
  }

  /** With a thread parked, every pooled instance is matched by a wakeup. */
  ghost predicate WakeupsKept(s: State)
  {
    Sum(s.pcs, Waiters) > 0 ==> |s.pool| <= Sum(s.pcs, Attentive)
  }

  ghost predicate Inv(s: State) { MutexHeld(s) && WakeupsKept(s) }

  lemma InitialInv(poolSize: nat, threads: nat)
    ensures Inv(Initial(poolSize, threads))
  {
    SumZero(Initial(poolSize, threads).pcs, Waiters);
  }

  lemma StepKeepsMutex(s: State, step: Step, timeout: nat)
    requires MutexHeld(s) && Enabled(s, step)
    ensures MutexHeld(Apply(s, step, timeout))
  {
  }

  lemma StepKeepsWakeups(s: State, step: Step, timeout: nat)
    requires Inv(s) && Enabled(s, step)
    ensures WakeupsKept(Apply(s, step, timeout))
  {
    match step
    case Tick =>
    case Notify(t, woken) => NotifyKeepsWakeups(s, t, woken, timeout);
    case Park(t) =>
      assert s.pool == [];
    case _ =>
      var pc := Apply(s, step, timeout).pcs[step.t];
      SumUpdate(s.pcs, step.t, pc, Attentive);
      SumUpdate(s.pcs, step.t, pc, Waiters);
  }

  lemma NotifyKeepsWakeups(s: State, t: Tid, woken: Option<Tid>, timeout: nat)
    requires Inv(s) && Enabled(s, Notify(t, woken))
    ensures WakeupsKept(Apply(s, Notify(t, woken), timeout))
  {
    SumUpdate(s.pcs, t, Idle, Attentive);
    SumUpdate(s.pcs, t, Idle, Waiters);
    match woken
    case None =>
      SumZero(s.pcs, Waiters);
    case Some(u) =>
      SumUpdate(s.pcs[t := Idle], u, Woken(At(s, u).deadline), Attentive);
      SumUpdate(s.pcs[t := Idle], u, Woken(At(s, u).deadline), Waiters);
  }

  lemma StepKeepsInv(s: State, step: Step, timeout: nat)
    requires Inv(s) && Enabled(s, step)
    ensures Inv(Apply(s, step, timeout))
  {
    StepKeepsMutex(s, step, timeout);
    StepKeepsWakeups(s, step, timeout);
  }

  lemma {:induction false} RunKeepsInv(s: State, run: seq<Step>, timeout: nat)
    requires Inv(s) && ValidRun(s, run, timeout)
    ensures Inv(After(s, run, timeout))
    decreases |run|
  {
    if run != [] {
      StepKeepsInv(s, run[0], timeout);
      RunKeepsInv(Apply(s, run[0], timeout), run[1..], timeout);
    }
  }

  /** No wakeup is lost, in every interleaving: while a thread is parked, pooled instances are at
      most the woken threads that have not yet looked and the notifications to come, however many
      others barge in; so once those are gone, an instance cannot lie in the pool while a caller
      waits for one. */
  lemma NoLostWakeup(poolSize: nat, threads: nat, run: seq<Step>, timeout: nat)
    requires ValidRun(Initial(poolSize, threads), run, timeout)
    ensures var s := After(Initial(poolSize, threads), run, timeout);
            && (!NobodyParked(s) ==> |s.pool| <= Sum(s.pcs, Attentive))
            && (!NobodyParked(s) && (forall t :: 0 <= t < |s.pcs| ==> Attentive(s.pcs[t]) == 0) ==> s.pool == [])
  {
    var s := After(Initial(poolSize, threads), run, timeout);
    InitialInv(poolSize, threads);
    RunKeepsInv(Initial(poolSize, threads), run, timeout);
    SumZero(s.pcs, Waiters);
    SumZero(s.pcs, Attentive);
  }

  /** A checkout comes back empty-handed only from an empty pool, at or after its deadline; and it
      pops whenever the pool is not empty. */
  lemma GivesUpOnlyEmpty(poolSize: nat, threads: nat, run: seq<Step>, timeout: nat, t: Tid)
    requires ValidRun(Initial(poolSize, threads), run, timeout)
    ensures var s := After(Initial(poolSize, threads), run, timeout);
            && (Enabled(s, GiveUp(t)) ==> s.pool == [] && s.clock >= s.pcs[t].deadline)
            && (At(s, t).InLoop? && s.pool != [] ==> Enabled(s, Pop(t)) && !Enabled(s, FindEmpty(t)))
  {
    InitialInv(poolSize, threads);
    RunKeepsInv(Initial(poolSize, threads), run, timeout);
  }

  /** Steps a thread can take by itself, without waiting for the lock or a notification. */
  predicate CanMove(s: State, t: Tid)
  {
    || Enabled(s, Call(t)) || Enabled(s, Enter(t)) || Enabled(s, Pop(t)) || Enabled(s, FindEmpty(t))
    || Enabled(s, GiveUp(t)) || Enabled(s, Park(t)) || Enabled(s, Wake(t)) || Enabled(s, Relock(t))
    || Enabled(s, Finish(t)) || Enabled(s, PushBack(t)) || Enabled(s, Notify(t, None))
    || exists u :: 0 <= u < |s.pcs| && Enabled(s, Notify(t, Some(u)))
  }

  /** No deadlock: every thread can move, or the mutex is taken and its holder can. */
  lemma NoDeadlock(poolSize: nat, threads: nat, run: seq<Step>, timeout: nat, t: Tid)
    requires ValidRun(Initial(poolSize, threads), run, timeout)
    requires t < |After(Initial(poolSize, threads), run, timeout).pcs|
    ensures var s := After(Initial(poolSize, threads), run, timeout);
            CanMove(s, t) || (s.lock.Some? && s.lock.value != t && CanMove(s, s.lock.value))
  {
    var s := After(Initial(poolSize, threads), run, timeout);
    InitialInv(poolSize, threads);
    RunKeepsInv(Initial(poolSize, threads), run, timeout);
    if s.lock.Some? { HolderMoves(s); }
    if s.pcs[t].MustNotify? && !NobodyParked(s) {
      var u :| 0 <= u < |s.pcs| && s.pcs[u].Parked?;
      assert Enabled(s, Notify(t, Some(u)));
    }
  }

  lemma HolderMoves(s: State)
    requires Inv(s) && s.lock.Some?
    ensures CanMove(s, s.lock.value)
  {
    var t := s.lock.value;
    assert InMutex(s.pcs[t]);
  }
}
