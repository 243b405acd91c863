/**
 Restarts asked for from the console: the platform says how long ago it was asked,
 and a process that has run for longer than that stops. Times are in nanoseconds.
 */
module Restart {
  const SECOND := 1_000_000_000

  /** The latest restart request, if there was one, by the platform's clock. */
  datatype Request = Never | Asked(at: int)

  function Age(r: Request, now: int): int {
    match r
    case Never => 0
    case Asked(at) => if now - at <= 0 then 0 else now - at
  }

  function WireSeconds(r: Request, now: int): int {
    var age := Age(r, now);
    if age <= 0 then 0
    else age / SECOND + if age % SECOND != 0 then 1 else 0
  }

  /** The wire carries the least number of whole seconds not below the age, so a
      request is never older than it says and never a full second younger. */
  lemma RoundedUp(r: Request, now: int)
    ensures Age(r, now) <= WireSeconds(r, now) * 1_000_000_000 < Age(r, now) + 1_000_000_000
    ensures WireSeconds(r, now) == 0 <==> r == Never || now <= r.at
  {
    var age := Age(r, now);
    assert age == age / SECOND * SECOND + age % SECOND;
  }

  predicate ShouldRestart(uptime: int, requestAge: int) { requestAge > 0 && uptime > requestAge }

  class RestartCoordinator {
    const startedAt: int
    /** Has `stop` been called? */
    var done: bool
    var stops: nat

    constructor (startedAt: int)
      ensures this.startedAt == startedAt && !done && stops == 0
    {
      this.startedAt := startedAt;
      done := false;
      stops := 0;
    }

    function Current(): Process
      reads this
    {
      Process(startedAt, done)
    }

    /** `now` is read from the device's clock. */
    method OnRequest(now: int, requestAge: int)
      modifies this
      ensures Current() == Heard(old(Current()), now, requestAge)
      ensures stops == old(stops) + if done && !old(done) then 1 else 0
    {
      if !ShouldRestart(now - startedAt, requestAge) {
        return;
      }
      if !done {
        done := true;
        stops := stops + 1;
      }
    }
  }

  /** A running process: since when, by the device's clock, and whether it is stopping. */
  datatype Process = Process(startedAt: int, stopping: bool)

  function Heard(p: Process, now: int, requestAge: int): Process {
    if ShouldRestart(now - p.startedAt, requestAge) then p.(stopping := true) else p
  }

  // ---------- every run of a platform and a device ----------

  /** How far each clock is ahead of true time. */
  datatype Clocks = Clocks(platform: int, device: int)

  /** `now` is true time; `stops` counts the calls of stop by all processes so far. */
  datatype System = System(now: int, request: Request, process: Process, asks: nat, stops: nat)

  /** A process may also end and start again for reasons of its own. */
  datatype Step = Tick(elapsed: nat) | Ask | Heartbeat | Respawn

  function Next(c: Clocks, sys: System, step: Step): System {
    match step
    case Tick(dt) => sys.(now := sys.now + dt)
    case Ask => sys.(request := Asked(sys.now + c.platform), asks := sys.asks + 1)
    case Heartbeat =>
      var age := WireSeconds(sys.request, sys.now + c.platform) * SECOND;
      var p := Heard(sys.process, sys.now + c.device, age);
      sys.(process := p, stops := sys.stops + if p.stopping && !sys.process.stopping then 1 else 0)
    case Respawn => sys.(process := Process(sys.now + c.device, false))
  }

  function After(c: Clocks, start: int, steps: seq<Step>): System {
    if steps == [] then System(start, Never, Process(start + c.device, false), 0, 0)
    else Next(c, After(c, start, steps[..|steps| - 1]), steps[|steps| - 1])
  }

  function AskedAt(c: Clocks, sys: System): int
    requires sys.request.Asked?
  {
    sys.request.at - c.platform
  }

  function StartedAt(c: Clocks, sys: System): int { sys.process.startedAt - c.device }

  /** Can the latest request still stop the process there is? */
  predicate Outstanding(c: Clocks, sys: System) {
    sys.request.Asked? && !sys.process.stopping && StartedAt(c, sys) < AskedAt(c, sys)
  }

  predicate Invariant(c: Clocks, sys: System) {
    && StartedAt(c, sys) <= sys.now
    && (sys.request.Asked? ==> AskedAt(c, sys) <= sys.now)
    && sys.stops + (if Outstanding(c, sys) then 1 else 0) <= sys.asks
  }

  lemma StepKeeps(c: Clocks, sys: System, step: Step)
    requires Invariant(c, sys)
    ensures Invariant(c, Next(c, sys, step))
    ensures Next(c, sys, step).stops > sys.stops ==> Outstanding(c, sys) && !Outstanding(c, Next(c, sys, step))
    ensures Outstanding(c, Next(c, sys, step)) && !Outstanding(c, sys) ==> step.Ask?
  {
    RoundedUp(sys.request, sys.now + c.platform);
  }

  /** In every run, at most one restart for each time an operator asked. */
  lemma {:induction false} EveryRunKeeps(c: Clocks, start: int, steps: seq<Step>)
    ensures Invariant(c, After(c, start, steps))
    ensures After(c, start, steps).stops <= After(c, start, steps).asks
  {
    if steps != [] {
      EveryRunKeeps(c, start, steps[..|steps| - 1]);
      StepKeeps(c, After(c, start, steps[..|steps| - 1]), steps[|steps| - 1]);
    }
  }

  /** Is a process stopped by step `i`? */
  ghost predicate StopsAt(c: Clocks, start: int, steps: seq<Step>, i: int) {
    0 <= i < |steps| && After(c, start, steps[..i + 1]).stops > After(c, start, steps[..i]).stops
  }

  lemma PrefixStep(c: Clocks, start: int, steps: seq<Step>, i: int)
    requires 0 <= i < |steps|
    ensures After(c, start, steps[..i + 1]) == Next(c, After(c, start, steps[..i]), steps[i])
    ensures Invariant(c, After(c, start, steps[..i]))
  {
    assert steps[..i + 1][..i] == steps[..i];
    EveryRunKeeps(c, start, steps[..i]);
  }

  /** One request never restarts the device twice: between two restarts somebody asked. */
  lemma {:induction false} AskedInBetween(c: Clocks, start: int, steps: seq<Step>, i: int, j: int)
    requires i < j && StopsAt(c, start, steps, i) && StopsAt(c, start, steps, j)
    ensures exists k :: i < k < j && steps[k].Ask?
  {
    PrefixStep(c, start, steps, i);
    StepKeeps(c, After(c, start, steps[..i]), steps[i]);
    PrefixStep(c, start, steps, j);
    StepKeeps(c, After(c, start, steps[..j]), steps[j]);
    var k := i + 1;
    while k < j && !Outstanding(c, After(c, start, steps[..k + 1]))
      invariant i < k <= j
      invariant !Outstanding(c, After(c, start, steps[..k]))
    {
      k := k + 1;
    }
    if k < j {
      PrefixStep(c, start, steps, k);
      StepKeeps(c, After(c, start, steps[..k]), steps[k]);
    }
  }

  /** A heartbeat stops the process exactly if it ran, at the request, for as long as
      rounding the age up to whole seconds adds, and longer. */
  lemma {:induction false} StopsExactlyWhen(c: Clocks, start: int, steps: seq<Step>)
    requires !After(c, start, steps).process.stopping
    ensures var sys := After(c, start, steps);
            var after := Next(c, sys, Heartbeat);
            && (after.process.stopping <==>
                  && sys.request.Asked? && AskedAt(c, sys) < sys.now
                  && AskedAt(c, sys) - StartedAt(c, sys) > (AskedAt(c, sys) - sys.now) % SECOND)
            && (after.process.stopping <==> after.stops == sys.stops + 1)
  {
    EveryRunKeeps(c, start, steps);
    hide After;
    var sys := After(c, start, steps);
    if sys.request.Asked? { PaddingIsExact(sys.now - AskedAt(c, sys)); }
  }

  /** Rounding up adds what is missing to a whole second. */
  lemma PaddingIsExact(age: int)
    ensures age / SECOND * SECOND + (if age % SECOND != 0 then SECOND else 0) == age + (-age) % SECOND
  {
    var q, r := age / SECOND, age % SECOND;
    assert age == q * SECOND + r;
    if r != 0 {
      assert -age == (-q - 1) * SECOND + (SECOND - r);
    } else {
      assert -age == (-q) * SECOND;
    }
  }

  /** So never a process started at or after the request, and always one started a
      second or more before it, at the first heartbeat after the request. */
  lemma {:induction false} OldEnoughAlwaysStops(c: Clocks, start: int, steps: seq<Step>)
    ensures var sys := After(c, start, steps);
            var after := Next(c, sys, Heartbeat);
            && (after.stops > sys.stops ==>
                  sys.request.Asked? && StartedAt(c, sys) < AskedAt(c, sys) < sys.now)
            && (sys.request.Asked? && StartedAt(c, sys) + SECOND <= AskedAt(c, sys) < sys.now ==>
                  after.process.stopping)
  {
    EveryRunKeeps(c, start, steps);
    hide After;
    var sys := After(c, start, steps);
    RoundedUp(sys.request, sys.now + c.platform);
  }

  /** What the clocks read makes no difference: every run stops the same processes at
      the same steps as with clocks that are right. */
  lemma {:induction false} ClocksCancel(c: Clocks, start: int, steps: seq<Step>)
    ensures var sys, ideal := After(c, start, steps), After(Clocks(0, 0), start, steps);
            && sys.now == ideal.now && sys.stops == ideal.stops && sys.asks == ideal.asks
            && sys.process.stopping == ideal.process.stopping
            && StartedAt(c, sys) == ideal.process.startedAt
            && (sys.request.Asked? <==> ideal.request.Asked?)
            && (sys.request.Asked? ==> AskedAt(c, sys) == ideal.request.at)
  {
    if steps != [] {
      ClocksCancel(c, start, steps[..|steps| - 1]);
    }
  }
}
