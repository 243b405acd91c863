/**
 Turning the host-inventory loop on and off as the platform says, beat after beat,
 and changing how often it runs.
 */
module HostInventory {
  const MIN_INTERVAL := 3600 * 1_000_000_000
  const DEFAULT_INTERVAL := 24 * 3600 * 1_000_000_000

  /** One start of the loop: the interval it waits on and its stop channel. */
  class Loop {
    var interval: int
    var closed: bool

    constructor (interval: int)
      ensures this.interval == interval && !closed
    {
      this.interval, closed := interval, false;
    }
  }

  class Supervisor {
    /** Was there anything to run? */
    const canRun: bool
    var iv: Loop?
    var stop: Loop?
    var enabled: bool
    var interval: int
    /** Every loop that was ever started. */
    ghost var started: set<Loop>

    /** At most one loop has not been told to stop; there is one exactly while the
        supervisor is on and has something to run, and it waits on the interval
        last set. */
    ghost predicate Valid()
      reads this, started
    {
      && (iv == null || iv in started) && (stop == null || stop == iv)
      && (forall l :: l in started ==> (l.closed <==> l != stop))
      && (iv != null ==> iv.interval == interval)
      && (stop != null <==> enabled && canRun)
    }

    constructor (interval: int, canRun: bool)
      ensures Valid() && started == {} && !enabled && this.canRun == canRun
      ensures this.interval == if interval <= 0 then 86_400_000_000_000 else interval
    {
      this.interval := if interval <= 0 then DEFAULT_INTERVAL else interval;
      this.canRun, iv, stop, enabled, started := canRun, null, null, false, {};
    }

    /** Fails only where there is nothing to run; then it is on all the same, and the
        next beat does not fail. */
    method SetEnabled(on: bool) returns (failed: bool)
      requires Valid()
      modifies this`iv, this`stop, this`enabled, this`started, stop
      ensures Valid() && enabled == on && interval == old(interval)
      ensures failed <==> on && !old(enabled) && !canRun
      ensures on == old(enabled) || !canRun ==> started == old(started) && stop == old(stop)
      ensures on && !old(enabled) && canRun ==> fresh(started - old(started)) && started == old(started) + {stop}
      ensures !on ==> started == old(started)
    {
      if on == enabled {
        return false;
      }
      enabled := on;
      if !on {
        if stop != null {
          stop.closed := true;
          stop := null;
        }
        return false;
      }
      if !canRun {
        return true;
      }
      iv := new Loop(interval);
      stop := iv;
      started := started + {iv};
      return false;
    }

    method SetInterval(d: int) returns (refused: bool)
      requires Valid()
      modifies this`interval, iv
      ensures Valid() && (refused <==> d < 3_600_000_000_000)
      ensures interval == if refused then old(interval) else d
    {
      if d < MIN_INTERVAL {
        return true;
      }
      interval := d;
      if iv != null {
        iv.interval := d;
      }
      return false;
    }

    /** The loops that have not been told to stop. */
    ghost function Live(): (live: set<Loop>)
      requires Valid()
      reads this, started
      ensures live == if enabled && canRun then {stop} else {}
      ensures forall l :: l in live ==> l.interval == interval
    {
      set l | l in started && !l.closed
    }
  }
}
