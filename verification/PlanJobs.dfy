/**
 Cancelling planned discovery jobs: the worker registers the job it runs, a cancel
 either stops that run or is remembered until the job's turn comes.
 */
module PlanJobs {
  import opened Options

  const MAX_REMEMBERED := 64

  /** The running job and its cancel function, and the jobs a cancel came early for. */
  datatype State<C> = State(running: string, cancel: Option<C>, cancelled: set<string>)

  function Started<C>(s: State<C>, job: string, cancel: C): (State<C>, bool) {
    if job in s.cancelled then (s.(cancelled := s.cancelled - {job}), false)
    else (s.(running := job, cancel := Some(cancel)), true)
  }

  function Finished<C>(s: State<C>, job: string): State<C> {
    if s.running == job then s.(running := "", cancel := None) else s
  }

  predicate Stops<C>(s: State<C>, job: string) { s.running == job && s.cancel.Some? }

  /** Must a remembered cancel make room for this one? */
  predicate IsFull<C>(s: State<C>, job: string) { !Stops(s, job) && |s.cancelled| >= MAX_REMEMBERED }

  function Cancelled<C>(s: State<C>, job: string, evicted: string): State<C> {
    if Stops(s, job) then s
    else s.(cancelled := (if IsFull(s, job) then s.cancelled - {evicted} else s.cancelled) + {job})
  }

  // ---------- the operations ----------

  class Context {
    var stopped: bool
  }

  class PlanJobState {
    var running: string
    var cancel: Context?
    var cancelled: set<string>

    function Current(): State<Context?>
      reads this
    {
      State(running, if cancel == null then None else Some(cancel), cancelled)
    }

    method Start(job: string, context: Context) returns (ok: bool)
      modifies this
      ensures (Current(), ok) == Started(old(Current()), job, context)
    {
      if job in cancelled {
        cancelled := cancelled - {job};
        return false;
      }
      running, cancel := job, context;
      return true;
    }

    method Finish(job: string)
      modifies this
      ensures Current() == Finished(old(Current()), job)
    {
      if running == job {
        running, cancel := "", null;
      }
    }

    /** Which remembered cancel is forgotten when there are too many is left open, as
        it is by a map's iteration order. */
    method Cancel(job: string) returns (stopped: bool, ghost evicted: string)
      modifies this, cancel
      ensures Current() == Cancelled(old(Current()), job, evicted)
      ensures old(IsFull(Current(), job)) ==> evicted in old(cancelled)
      ensures stopped <==> old(Stops(Current(), job))
      ensures old(cancel) != null ==> old(cancel).stopped == (stopped || old(cancel.stopped))
    {
      evicted := "";
      if running == job && cancel != null {
        cancel.stopped := true;
        return true, "";
      }
      if |cancelled| >= MAX_REMEMBERED {
        var k :| k in cancelled;
        cancelled := cancelled - {k};
        evicted := k;
      }
      cancelled := cancelled + {job};
      stopped := false;
    }
  }

  // ---------- every interleaving of the worker and the cancels ----------

  datatype Worker = Idle | Working(job: string, run: nat)

  /** `stopped` holds the runs whose context a cancel has ended. */
  datatype System = System(jobs: State<nat>, worker: Worker, runs: nat, stopped: set<nat>)

  datatype Step = Begin(job: string) | End | Cancel(job: string, evicted: string)

  /** One worker, so nothing begins while a job runs; job ids are never empty. */
  predicate Enabled(sys: System, step: Step) {
    match step
    case Begin(job) => sys.worker.Idle? && job != ""
    case End => sys.worker.Working?
    case Cancel(job, evicted) => job != "" && (IsFull(sys.jobs, job) ==> evicted in sys.jobs.cancelled)
  }

  function Next(sys: System, step: Step): System {
    match step
    case Begin(job) =>
      var (jobs, ok) := Started(sys.jobs, job, sys.runs);
      sys.(jobs := jobs, runs := sys.runs + 1, worker := if ok then Working(job, sys.runs) else Idle)
    case End => if sys.worker.Idle? then sys else sys.(jobs := Finished(sys.jobs, sys.worker.job), worker := Idle)
    case Cancel(job, evicted) =>
      sys.(jobs := Cancelled(sys.jobs, job, evicted),
           stopped := sys.stopped + if Stops(sys.jobs, job) then {sys.jobs.cancel.value} else {})
  }

  const INITIAL := System(State("", None, {}), Idle, 0, {})

  function After(steps: seq<Step>): System {
    if steps == [] then INITIAL else Next(After(steps[..|steps| - 1]), steps[|steps| - 1])
  }

  ghost predicate IsRun(steps: seq<Step>) {
    steps != [] ==> IsRun(steps[..|steps| - 1]) && Enabled(After(steps[..|steps| - 1]), steps[|steps| - 1])
  }

  /** The state agrees with the worker: the running job is never also remembered as
      cancelled, and never more than 64 are remembered. */
  ghost predicate Invariant(sys: System) {
    && |sys.jobs.cancelled| <= MAX_REMEMBERED
    && "" !in sys.jobs.cancelled
    && (forall r :: r in sys.stopped ==> r < sys.runs)
    && match sys.worker
       case Idle => sys.jobs.running == "" && sys.jobs.cancel == None
       case Working(job, run) =>
         job != "" && run < sys.runs && sys.jobs.running == job && sys.jobs.cancel == Some(run)
         && job !in sys.jobs.cancelled
  }

  lemma StepKeeps(sys: System, step: Step)
    requires Invariant(sys) && Enabled(sys, step)
    ensures Invariant(Next(sys, step))
  {
    if step.Cancel? && IsFull(sys.jobs, step.job) {
      assert |sys.jobs.cancelled - {step.evicted}| == |sys.jobs.cancelled| - 1;
    }
  }

  lemma {:induction false} EveryRunKeeps(steps: seq<Step>)
    requires IsRun(steps)
    ensures Invariant(After(steps))
  {
    if steps != [] {
      EveryRunKeeps(steps[..|steps| - 1]);
      StepKeeps(After(steps[..|steps| - 1]), steps[|steps| - 1]);
    }
  }

  ghost predicate IsRunning(sys: System, job: string) { sys.worker.Working? && sys.worker.job == job }

  /** Does this step forget the cancel remembered for a job? */
  ghost predicate Forgets(sys: System, step: Step, job: string) {
    || step == Begin(job)
    || (step.Cancel? && step.job != job && IsFull(sys.jobs, step.job) && step.evicted == job)
  }

  /** A cancel for the job came at step `i` while it did not run, and no turn of the
      job has used it up and no later cancel has pushed it out. */
  ghost predicate Pending(steps: seq<Step>, i: int, job: string) {
    && 0 <= i < |steps|
    && steps[i].Cancel? && steps[i].job == job && !IsRunning(After(steps[..i]), job)
    && forall k :: i < k < |steps| ==> !Forgets(After(steps[..k]), steps[k], job)
  }

  /** Extending a run by one step keeps exactly the pending cancels it does not
      forget, and adds its own. */
  lemma PendingStep(steps: seq<Step>, i: int, job: string)
    requires steps != []
    ensures var n := |steps| - 1;
            Pending(steps, i, job) <==>
              if i == n then steps[n].Cancel? && steps[n].job == job && !IsRunning(After(steps[..n]), job)
              else Pending(steps[..n], i, job) && !Forgets(After(steps[..n]), steps[n], job)
  {
    hide After, Forgets, IsRunning;
    var n := |steps| - 1;
    var front := steps[..n];
    assert forall k :: 0 <= k < n ==> front[..k] == steps[..k] && front[k] == steps[k];
  }

  /** The remembered set is exactly the set of pending cancels. */
  lemma {:induction false} RememberedExactly(steps: seq<Step>, job: string)
    requires IsRun(steps)
    ensures job in After(steps).jobs.cancelled <==> exists i :: Pending(steps, i, job)
  {
    if steps != [] {
      var n := |steps| - 1;
      RememberedExactly(steps[..n], job);
      EveryRunKeeps(steps[..n]);
      RememberedStep(After(steps[..n]), steps[n], job);
      forall i ensures Pending(steps, i, job) <==>
                         if i == n then steps[n].Cancel? && steps[n].job == job && !IsRunning(After(steps[..n]), job)
                         else Pending(steps[..n], i, job) && !Forgets(After(steps[..n]), steps[n], job)
      {
        PendingStep(steps, i, job);
      }
      assert !Pending(steps[..n], n, job);
      hide Pending, Forgets, IsRunning, Next, Enabled;
      assert Pending(steps, n, job) <==> steps[n].Cancel? && steps[n].job == job && !IsRunning(After(steps[..n]), job);
    }
  }

  lemma RememberedStep(sys: System, step: Step, job: string)
    requires Invariant(sys) && Enabled(sys, step)
    ensures job in Next(sys, step).jobs.cancelled <==>
              || (step.Cancel? && step.job == job && !IsRunning(sys, job))
              || (job in sys.jobs.cancelled && !Forgets(sys, step, job))
  {
  }

  /** When a job's turn comes it is dropped exactly if a cancel for it is pending, and
      then nothing runs; otherwise it runs. */
  lemma DroppedExactlyWhen(steps: seq<Step>, job: string)
    requires IsRun(steps + [Begin(job)])
    ensures var after := After(steps + [Begin(job)]);
            && (after.worker.Idle? <==> exists i :: Pending(steps, i, job))
            && (after.worker.Working? ==> after.worker.job == job && after.worker.run !in after.stopped)
            && job !in after.jobs.cancelled
  {
    assert (steps + [Begin(job)])[..|steps|] == steps;
    RememberedExactly(steps, job);
    EveryRunKeeps(steps);
    hide Pending;
  }

  /** The cancel at step `i` named the job of this run, while it ran. */
  ghost predicate StopsRun(steps: seq<Step>, i: int, run: nat) {
    && 0 <= i < |steps| && steps[i].Cancel?
    && After(steps[..i]).worker == Working(steps[i].job, run)
  }

  lemma StopsRunStep(steps: seq<Step>, i: int, run: nat)
    requires steps != []
    ensures var n := |steps| - 1;
            StopsRun(steps, i, run) <==>
              if i == n then steps[n].Cancel? && After(steps[..n]).worker == Working(steps[n].job, run)
              else StopsRun(steps[..n], i, run)
  {
    hide After;
    var n := |steps| - 1;
    assert 0 <= i < n ==> steps[..n][..i] == steps[..i];
  }

  /** A run's context is stopped exactly when some cancel named its job while it ran. */
  lemma {:induction false} StoppedExactlyWhen(steps: seq<Step>, run: nat)
    requires IsRun(steps)
    ensures run in After(steps).stopped <==> exists i :: StopsRun(steps, i, run)
  {
    if steps != [] {
      var n := |steps| - 1;
      StoppedExactlyWhen(steps[..n], run);
      EveryRunKeeps(steps[..n]);
      forall i ensures StopsRun(steps, i, run) <==>
                         if i == n then steps[n].Cancel? && After(steps[..n]).worker == Working(steps[n].job, run)
                         else StopsRun(steps[..n], i, run)
      {
        StopsRunStep(steps, i, run);
      }
      assert !StopsRun(steps[..n], n, run);
      StoppedStep(After(steps[..n]), steps[n], run);
      hide StopsRun, Next, Enabled, Invariant;
      assert StopsRun(steps, n, run) <==> steps[n].Cancel? && After(steps[..n]).worker == Working(steps[n].job, run);
    }
  }

  lemma StoppedStep(sys: System, step: Step, run: nat)
    requires Invariant(sys) && Enabled(sys, step)
    ensures run in Next(sys, step).stopped <==>
              run in sys.stopped || (step.Cancel? && sys.worker == Working(step.job, run))
  {
  }

  /** A cancel for a job that does not run is remembered with all that were, or, where 64
      are already, in place of one of them; for one that runs nothing is remembered. */
  lemma CancelRemembers(sys: System, job: string, evicted: string)
    requires Invariant(sys) && Enabled(sys, Cancel(job, evicted))
    ensures var was, now := sys.jobs.cancelled, Next(sys, Cancel(job, evicted)).jobs.cancelled;
            && |was| <= 64 && |now| <= 64
            && (IsRunning(sys, job) ==> now == was)
            && (!IsRunning(sys, job) && |was| < 64 ==> now == was + {job})
            && (!IsRunning(sys, job) && |was| == 64 ==> now == was - {evicted} + {job} && evicted in was)
  {
    StepKeeps(sys, Cancel(job, evicted));
  }

  /** A job that ends leaves nothing running if it is the one that was; what is
      remembered stays. */
  lemma FinishLeaves<C>(s: State<C>, job: string)
    ensures Finished(s, job).cancelled == s.cancelled
    ensures s.running == job ==> Finished(s, job).running == "" && Finished(s, job).cancel == None
    ensures s.running != job ==> Finished(s, job) == s
  {
  }
}
