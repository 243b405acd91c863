/**
 A managed interval and the one loop that waits on it, as steps any interleaving
 of setters, the waiter, the clock and the stop signal is made of. Setting stores
 under the lock and posts the wake-up after it; both are steps of their own.
 */
module Cadence {
  import opened Numbers

  const MINUTE := 60_000_000_000

  /** Where the waiter is in `waitCycle`. `slowest` remembers the longest wait asked
      for since the cycle began. */
  datatype Waiter =
    | Away
    | Reading(started: int, slowest: int)
    | Deciding(started: int, slowest: int, seen: int, wait: int)
    | Blocked(started: int, slowest: int, seen: int, wait: int)
    | Finishing(started: int, slowest: int, wait: int)
    | Done(started: int, slowest: int, wait: int, fired: bool)

  /** `posting` counts setters between their unlock and their wake-up. */
  datatype State = State(now: int, stored: int, token: bool, posting: nat, stopped: bool, waiter: Waiter)

  datatype Step =
    | Tick(elapsed: nat)
    | Store(value: int)
    | Post
    | CloseStop
    | Begin
    | Read(wait: int)
    | Decide
    | WakeByChange
    | WakeByTimer
    | WakeByStop
    | Finish
    | Leave

  /** How a stored interval may be shaped into a wait; jitter makes it a relation. */
  type Shape = (int, int) -> bool

  function Base(d: int): int { if d <= 0 then MINUTE else d }

  predicate Enabled(s: State, step: Step, shape: Shape) {
    match step
    case Tick(_) => true
    case Store(_) => true
    case Post => s.posting > 0
    case CloseStop => true
    case Begin => s.waiter.Away?
    case Read(wait) => s.waiter.Reading? && shape(Base(s.stored), wait)
    case Decide => s.waiter.Deciding?
    case WakeByChange => s.waiter.Blocked? && s.token
    case WakeByTimer => s.waiter.Blocked? && s.now >= s.waiter.started + s.waiter.wait
    case WakeByStop => s.waiter.Blocked? && s.stopped
    case Finish => s.waiter.Finishing?
    case Leave => s.waiter.Done?
  }

  function Apply(s: State, step: Step, shape: Shape): State
    requires Enabled(s, step, shape)
  {
    var w := s.waiter;
    match step
    case Tick(dt) => s.(now := s.now + dt)
    case Store(d) => s.(stored := d, posting := if d == s.stored then s.posting else s.posting + 1)
    case Post => s.(token := true, posting := s.posting - 1)
    case CloseStop => s.(stopped := true)
    case Begin => s.(waiter := Reading(s.now, 0))
    case Read(wait) => s.(waiter := Deciding(w.started, Max(w.slowest, wait), s.stored, wait))
    case Decide =>
      if w.wait - (s.now - w.started) <= 0 then s.(waiter := Finishing(w.started, w.slowest, w.wait))
      else s.(waiter := Blocked(w.started, w.slowest, w.seen, w.wait))
    case WakeByChange => s.(token := false, waiter := Reading(w.started, w.slowest))
    case WakeByTimer => s.(waiter := Finishing(w.started, w.slowest, w.wait))
    case WakeByStop => s.(waiter := Done(w.started, w.slowest, w.wait, false))
    case Finish => s.(waiter := Done(w.started, w.slowest, w.wait, !s.stopped))
    case Leave => s.(waiter := Away)
  }

  function Init(now: int, d: int): State { State(now, d, false, 0, false, Away) }

  ghost predicate Run(trace: seq<State>, steps: seq<Step>, shape: Shape) {
    && |trace| == |steps| + 1
    && trace[0] == Init(trace[0].now, trace[0].stored)
    && forall i :: 0 <= i < |steps| ==> Enabled(trace[i], steps[i], shape) && trace[i + 1] == Apply(trace[i], steps[i], shape)
  }

  // ---------- no wake-up is lost, no wait is cut short ----------

  /** A waiter holding an outdated interval has a wake-up waiting for it, or one
      that a setter is about to post. */
  ghost predicate WakeIsComing(s: State) {
    (s.waiter.Deciding? || s.waiter.Blocked?) && s.waiter.seen != s.stored ==> s.token || s.posting > 0
  }

  /** Whoever is past waiting has waited as long as the interval last read asked,
      and what it asked was a shape of an interval that was stored. */
  ghost predicate WaitedEnough(s: State, shape: Shape) {
    && (s.waiter.Deciding? || s.waiter.Blocked? ==> shape(Base(s.waiter.seen), s.waiter.wait))
    && (s.waiter.Finishing? || (s.waiter.Done? && s.waiter.fired) ==>
          s.now >= s.waiter.started + s.waiter.wait && exists d :: shape(Base(d), s.waiter.wait))
  }

  ghost predicate Keeps(s: State, shape: Shape) { WakeIsComing(s) && WaitedEnough(s, shape) }

  lemma {:induction false} EveryRunKeeps(trace: seq<State>, steps: seq<Step>, shape: Shape, i: nat)
    requires Run(trace, steps, shape) && i < |trace|
    ensures Keeps(trace[i], shape)
  {
    if i > 0 {
      EveryRunKeeps(trace, steps, shape, i - 1);
      assert Enabled(trace[i - 1], steps[i - 1], shape) && trace[i] == Apply(trace[i - 1], steps[i - 1], shape);
      if trace[i - 1].waiter.Deciding? || trace[i - 1].waiter.Blocked? {
        assert shape(Base(trace[i - 1].waiter.seen), trace[i - 1].waiter.wait);
      }
    }
  }

  /** No lost wake-up, in any interleaving: once every setter has come to its end, a
      waiter that no wake-up is waiting for sleeps on exactly the stored interval. */
  lemma NoLostWakeUp(trace: seq<State>, steps: seq<Step>, shape: Shape, i: nat)
    requires Run(trace, steps, shape) && i < |trace|
    requires trace[i].waiter.Blocked? && trace[i].posting == 0 && !trace[i].token
    ensures trace[i].waiter.seen == trace[i].stored
    ensures shape(Base(trace[i].stored), trace[i].waiter.wait)
  {
    EveryRunKeeps(trace, steps, shape, i);
  }

  /** A shape that never asks for less than a floor. */
  ghost predicate NotUnder(shape: Shape, floor: int) {
    forall d, w :: shape(Base(d), w) ==> w >= floor
  }

  /** However often the interval changes, a cycle that ends by firing has lasted at
      least the floor of its shape. */
  lemma NeverUnderTheFloor(trace: seq<State>, steps: seq<Step>, shape: Shape, i: nat, floor: int)
    requires Run(trace, steps, shape) && i < |trace| && NotUnder(shape, floor)
    requires trace[i].waiter.Done? && trace[i].waiter.fired
    ensures trace[i].now - trace[i].waiter.started >= trace[i].waiter.wait >= floor
  {
    EveryRunKeeps(trace, steps, shape, i);
  }

  /** The host-inventory shape: at least the floor, plus up to a tenth of jitter. */
  predicate HostInventoryShape(floor: int, d: int, w: int) {
    var b := Max(d, floor);
    if b <= 0 || b / 10 <= 0 then w == b else b <= w < b + b / 10
  }

  lemma JitterStaysOverTheFloor(floor: int)
    ensures NotUnder((d, w) => HostInventoryShape(floor, d, w), floor)
  {
  }

  // ---------- and no wait is put off ----------

  /** Time does not pass while something is due: the waiter has a step to take, or
      its timer has run out. */
  predicate Prompt(s: State, step: Step) {
    step.Tick? && step.elapsed > 0 ==>
      match s.waiter
      case Away => true
      case Blocked(started, _, _, wait) => !s.token && s.now + step.elapsed <= started + wait
      case _ => false
  }

  ghost predicate PromptRun(trace: seq<State>, steps: seq<Step>, shape: Shape) {
    Run(trace, steps, shape) && forall i :: 0 <= i < |steps| ==> Prompt(trace[i], steps[i])
  }

  /** The cycle has lasted no longer than the slowest wait asked for in it. */
  ghost predicate InTime(s: State) {
    s.waiter.Away? ||
    (s.now <= s.waiter.started + s.waiter.slowest && s.waiter.slowest >= 0
     && (s.waiter.Deciding? || s.waiter.Blocked? ==> s.waiter.wait <= s.waiter.slowest))
  }

  /** On a system that acts when something is due, changing the interval again and
      again never puts a cycle off beyond the longest wait that was asked for. */
  lemma {:induction false} NeverPutOff(trace: seq<State>, steps: seq<Step>, shape: Shape, i: nat)
    requires PromptRun(trace, steps, shape) && i < |trace|
    ensures InTime(trace[i])
  {
    if i > 0 {
      NeverPutOff(trace, steps, shape, i - 1);
      assert Prompt(trace[i - 1], steps[i - 1]);
      assert Enabled(trace[i - 1], steps[i - 1], shape) && trace[i] == Apply(trace[i - 1], steps[i - 1], shape);
    }
  }

  /** And a blocked waiter can always go on as soon as its time is up or a wake-up
      is there: the step it needs is one it can take. */
  lemma BlockedWaiterCanGoOn(trace: seq<State>, steps: seq<Step>, shape: Shape, i: nat)
    requires Run(trace, steps, shape) && i < |trace| && trace[i].waiter.Blocked?
    requires trace[i].waiter.seen != trace[i].stored
    ensures Enabled(trace[i], WakeByChange, shape)
         || (Enabled(trace[i], Post, shape) && Enabled(Apply(trace[i], Post, shape), WakeByChange, shape))
  {
    EveryRunKeeps(trace, steps, shape, i);
  }

  // ---------- the object the steps are steps of ----------

  /** The lock-protected value and the one-place wake channel. `set` is the two
      atomic sections `Store` and `Post`, with anything in between. */
  class Interval {
    var d: int
    var changed: bool

    /** What the machine above sees of this object. */
    ghost predicate Shows(s: State)
      reads this
    {
      s.stored == d && s.token == changed
    }

    constructor (d: int)
      ensures Shows(Init(0, d))
    {
      this.d, changed := d, false;
    }

    method Get() returns (value: int)
      ensures forall s :: Shows(s) ==> value == s.stored
    {
      value := d;
    }

    method StoreValue(value: int, shape: Shape) returns (mustPost: bool)
      modifies this`d
      ensures forall s :: old(Shows(s)) ==>
        Shows(Apply(s, Store(value), shape)) && (mustPost <==> Apply(s, Store(value), shape).posting > s.posting)
    {
      var same := d == value;
      d := value;
      mustPost := !same;
    }

    method PostWake(shape: Shape)
      modifies this`changed
      ensures forall s :: old(Shows(s)) && s.posting > 0 ==> Shows(Apply(s, Post, shape))
    {
      if !changed {
        changed := true;
      }
    }

    method TakeWake(shape: Shape) returns (taken: bool)
      modifies this`changed
      ensures forall s :: old(Shows(s)) && s.waiter.Blocked? ==> (taken <==> Enabled(s, WakeByChange, shape))
      ensures forall s :: old(Shows(s)) && s.waiter.Blocked? && taken ==> Shows(Apply(s, WakeByChange, shape))
    {
      taken := changed;
      if changed {
        changed := false;
      }
    }
  }

  // ---------- how long a wait is ----------

  /** Whoever waits asks for a shape of the interval that is stored at that moment, of
      a minute if that is no interval at all. */
  lemma WaitIsOfTheInterval(s: State, wait: int, shape: Shape)
    requires Enabled(s, Read(wait), shape)
    ensures shape(if s.stored > 0 then s.stored else 60_000_000_000, wait)
    ensures var t := Apply(s, Read(wait), shape); t.waiter.Deciding? && t.waiter.wait == wait && t.waiter.seen == s.stored
  {
  }

  /** A cycle waits where less than its wait has passed since it began, and is over where
      not. */
  lemma CycleLastsItsWait(s: State, shape: Shape)
    requires Enabled(s, Decide, shape)
    ensures Apply(s, Decide, shape).waiter.Blocked? <==> s.now - s.waiter.started < s.waiter.wait
    ensures !Apply(s, Decide, shape).waiter.Blocked? ==> Apply(s, Decide, shape).waiter.Finishing?
  {
  }

  /** What wakes a blocked waiter: a posted change, its time, or the stop signal; and it
      can always be woken once it is there. */
  lemma WakesExactlyWhen(s: State, shape: Shape)
    requires s.waiter.Blocked?
    ensures Enabled(s, WakeByChange, shape) <==> s.token
    ensures Enabled(s, WakeByTimer, shape) <==> s.now - s.waiter.started >= s.waiter.wait
    ensures Enabled(s, WakeByStop, shape) <==> s.stopped
    ensures Enabled(s, WakeByTimer, shape) ==> Apply(s, WakeByTimer, shape).waiter.Finishing?
  {
  }

  lemma PlainWait(trace: seq<State>, steps: seq<Step>, i: nat)
    requires Run(trace, steps, (d, w) => w == d) && i < |trace|
    requires trace[i].waiter.Blocked? && trace[i].posting == 0 && !trace[i].token
    ensures trace[i].waiter.wait == if trace[i].stored > 0 then trace[i].stored else 60_000_000_000
  {
    NoLostWakeUp(trace, steps, (d, w) => w == d, i);
  }

  /** The host-inventory wait is at least the interval and its floor, and less than a
      tenth longer than the greater of them. */
  lemma JitterIsATenth(floor: int, d: int, w: int)
    requires HostInventoryShape(floor, d, w)
    ensures d <= w && floor <= w && (w == d || w == floor || 10 * (w - d) < d || 10 * (w - floor) < floor)
  {
  }

  /** A cycle that has waited fires unless the stop signal has come; a waiter that the
      signal wakes does not. */
  lemma FiresUnlessStopped(s: State, shape: Shape)
    ensures Enabled(s, Finish, shape) ==> var w := Apply(s, Finish, shape).waiter; w.Done? && w.fired == !s.stopped
    ensures Enabled(s, WakeByStop, shape) ==>
              s.stopped && var w := Apply(s, WakeByStop, shape).waiter; w.Done? && !w.fired
  {
  }

  /** Storing the value there is asks for no wake-up, storing another one does. */
  lemma PostsOnlyOnChange(s: State, d: int, shape: Shape)
    ensures var t := Apply(s, Store(d), shape);
            t.stored == d && t.posting == s.posting + if d == s.stored then 0 else 1
  {
  }

  ghost predicate Waiting(w: Waiter) { !w.Away? && !w.Done? }

  /** What has passed of a cycle counts, whatever changes in it: it began when it began,
      and a waiter that is woken by a change looks at the interval again. */
  lemma ElapsedCounts(s: State, step: Step, shape: Shape)
    requires Enabled(s, step, shape) && Waiting(s.waiter)
    ensures var w := Apply(s, step, shape).waiter; !w.Away? && w.started == s.waiter.started
    ensures step.WakeByChange? ==> Apply(s, step, shape).waiter.Reading? && !Apply(s, step, shape).token
    ensures !(step.Tick? || step.Store? || step.Post? || step.CloseStop?) ==> Apply(s, step, shape).waiter != s.waiter
  {
  }

  lemma CycleBegins(s: State, shape: Shape)
    requires Enabled(s, Begin, shape)
    ensures Apply(s, Begin, shape).waiter.Reading? && Apply(s, Begin, shape).waiter.started == s.now
  {
  }
}
