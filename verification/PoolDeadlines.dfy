/** How long a checkout waits: its deadline is set when it gets the lock and never moves. */
module PoolDeadlines {
  import opened Seqs
  import opened Pool

  function DeadlineOf(pc: Pc): Option<nat>
  {
    match pc
    case InLoop(deadline, _) => Some(deadline)
    case SawEmpty(deadline) => Some(deadline)
    case Parked(deadline) => Some(deadline)
    case Woken(deadline) => Some(deadline)
    case _ => None
  }

  /** A step leaves a thread's deadline as it is, ends its checkout, or is the thread's own entry. */
  lemma StepKeepsDeadline(s: State, step: Step, timeout: nat, t: Tid)
    requires Enabled(s, step) && step != Enter(t)
    ensures var d := DeadlineOf(At(Apply(s, step, timeout), t)); d == None || d == DeadlineOf(At(s, t))
  {
  }

  lemma {:induction false} RunKeepsDeadline(s: State, run: seq<Step>, timeout: nat, t: Tid)
    requires ValidRun(s, run, timeout) && Enter(t) !in run
    ensures var d := DeadlineOf(At(After(s, run, timeout), t)); d == None || d == DeadlineOf(At(s, t))
    decreases |run|
  {
    if run != [] {
      StepKeepsDeadline(s, run[0], timeout, t);
      RunKeepsDeadline(Apply(s, run[0], timeout), run[1..], timeout, t);
    }
  }

  /** Whatever happens in between, however often it is woken for nothing: a thread gives up only when the
      timeout has passed since it entered, and waits again only when it has not. */
  lemma WaitsTheTimeout(s: State, run: seq<Step>, timeout: nat, t: Tid)
    requires Enabled(s, Enter(t)) && ValidRun(Apply(s, Enter(t), timeout), run, timeout) && Enter(t) !in run
    ensures var end := After(Apply(s, Enter(t), timeout), run, timeout);
            && (Enabled(end, GiveUp(t)) ==> end.clock >= s.clock + timeout)
            && (Enabled(end, Park(t)) ==> end.clock < s.clock + timeout)
  {
    RunKeepsDeadline(Apply(s, Enter(t), timeout), run, timeout, t);
  }
}
