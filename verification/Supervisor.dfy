/**
 A sensor as a service: its loop, the statuses it reports and the stop it passes on.
 The loop's `select` may take any ready event, so a run is any sequence of events;
 the report channel is the list of statuses reported so far.
 */
module Supervisor {
  import opened Options

  datatype Phase = StartPending | Running | StopPending

  /** One status report; the wait hint is the same constant in every pending one. */
  datatype Status = Status(phase: Phase, acceptsStop: bool, checkPoint: nat, hinted: bool)

  datatype Command = Interrogate | Stop | Shutdown | Other

  datatype Event = Started | Progress | Control(cmd: Command) | Finished(restart: bool)

  datatype Reason = StopRequested | SystemShutdown

  const WRAP := 0x1_0000_0000

  /** `exit` is set once the run is over; `sent` is what went down the stop channel,
      which has room for one. */
  datatype State = State(
    current: Status, reports: seq<Status>, startSeen: bool, stopRequested: bool,
    sent: seq<Reason>, exit: Option<nat>)

  const FIRST := Status(StartPending, false, 1, true)

  function Init(): State { State(FIRST, [FIRST], false, false, [], None) }

  function Report(s: State, st: Status): State { s.(current := st, reports := s.reports + [st]) }

  /** The started channel is taken out of the select once it has fired. */
  predicate Enabled(s: State, e: Event) { s.exit.None? && (e.Started? ==> !s.startSeen) }

  function Next(s: State, e: Event): State {
    match e
    case Started =>
      var t := s.(startSeen := true);
      if s.current.phase == StartPending then Report(t, Status(Running, true, 0, false)) else t
    case Progress =>
      if s.current.phase != Running then Report(s, s.current.(checkPoint := (s.current.checkPoint + 1) % WRAP)) else s
    case Control(Interrogate) => Report(s, s.current)
    case Control(Other) => s
    case Control(cmd) =>
      if s.stopRequested then s
      else
        Report(s, Status(StopPending, false, 1, true))
        .(stopRequested := true, sent := s.sent + [if cmd.Shutdown? then SystemShutdown else StopRequested])
    case Finished(restart) => s.(exit := Some(if restart && !s.stopRequested then 1 else 0))
  }

  function After(events: seq<Event>): State {
    if events == [] then Init() else Next(After(events[..|events| - 1]), events[|events| - 1])
  }

  /** Events a run can be made of. */
  ghost predicate IsRun(events: seq<Event>) {
    forall i :: 0 <= i < |events| ==> Enabled(After(events[..i]), events[i])
  }

  /** The loop itself, over the events as they come. */
  method Supervise(events: seq<Event>) returns (reports: seq<Status>, sent: seq<Reason>, exit: Option<nat>)
    requires IsRun(events)
    ensures reports == After(events).reports && sent == After(events).sent && exit == After(events).exit
  {
    var current := Status(StartPending, false, 1, true);
    reports := [current];
    var stopRequested, startSeen := false, false;
    sent := [];
    exit := None;
    for i := 0 to |events|
      invariant State(current, reports, startSeen, stopRequested, sent, exit) == After(events[..i])
    {
      assert events[..i + 1][..i] == events[..i];
      match events[i] {
        case Started =>
          startSeen := true;
          if current.phase == StartPending {
            current := Status(Running, true, 0, false);
            reports := reports + [current];
          }
        case Progress =>
          if current.phase != Running {
            current := current.(checkPoint := (current.checkPoint + 1) % WRAP);
            reports := reports + [current];
          }
        case Control(cmd) =>
          match cmd {
            case Interrogate =>
              reports := reports + [current];
            case Other =>
            case _ =>
              if stopRequested {
                continue;
              }
              stopRequested := true;
              current := Status(StopPending, false, 1, true);
              reports := reports + [current];
              sent := sent + [if cmd == Shutdown then SystemShutdown else StopRequested];
          }
        case Finished(restart) =>
          exit := Some(if restart && !stopRequested then 1 else 0);
      }
    }
    assert events[..|events|] == events;
  }

  // ---------- what every run keeps ----------

  /** n reports of one phase, then the rest of the trace. */
  ghost predicate AllIn(reports: seq<Status>, from: nat, to: nat, phase: Phase) {
    from <= to <= |reports| && forall i :: from <= i < to ==> reports[i].phase == phase
  }

  /** The trace has the form StartPending+ Running* StopPending*, cut at a and b. */
  ghost predicate HasForm(reports: seq<Status>, a: nat, b: nat) {
    && 0 < a <= b <= |reports|
    && AllIn(reports, 0, a, StartPending) && AllIn(reports, a, b, Running)
    && AllIn(reports, b, |reports|, StopPending)
  }

  /** Stop is accepted while running and only then; pending states carry the hint. */
  ghost predicate Faithful(reports: seq<Status>) {
    forall i :: 0 <= i < |reports| ==>
      (reports[i].acceptsStop <==> reports[i].phase == Running) && (reports[i].hinted <==> reports[i].phase != Running)
      && (reports[i].phase == Running ==> reports[i].checkPoint == 0) && reports[i].checkPoint < WRAP
  }

  /** Within a phase the checkpoint stays or, modulo 2^32, goes up by one; a pending
      phase starts at 1. */
  ghost predicate Advances(reports: seq<Status>) {
    && reports != [] && reports[0].checkPoint == 1
    && forall i :: 0 < i < |reports| ==>
         if reports[i].phase == reports[i - 1].phase
         then reports[i].checkPoint == reports[i - 1].checkPoint
              || (reports[i].phase != Running && reports[i].checkPoint == (reports[i - 1].checkPoint + 1) % WRAP)
         else reports[i].phase == Running || reports[i].checkPoint == 1
  }

  ghost predicate Invariant(s: State) {
    && s.reports != [] && s.current == s.reports[|s.reports| - 1]
    && (exists a, b :: HasForm(s.reports, a, b))
    && Faithful(s.reports) && Advances(s.reports)
    && (s.stopRequested <==> s.current.phase == StopPending)
    && |s.sent| == (if s.stopRequested then 1 else 0)
    && (s.current.phase == StartPending ==> !s.startSeen)
  }

  lemma AddReport(reports: seq<Status>, st: Status, a: nat, b: nat) returns (c: nat, d: nat)
    requires HasForm(reports, a, b)
    requires var p := reports[|reports| - 1].phase;
             st.phase == p || (p == StartPending && st.phase == Running) || st.phase == StopPending
    ensures HasForm(reports + [st], c, d)
  {
    var n := |reports|;
    c, d := a, b;
    if st.phase == StartPending { c, d := n + 1, n + 1; }
    else if st.phase == Running { d := n + 1; if reports[n - 1].phase == StartPending { c := n; } }
    else if reports[n - 1].phase == StartPending { c, d := n, n; }
    else if reports[n - 1].phase == Running { d := n; }
  }

  /** What one more report has to be for the trace to stay as it should. */
  ghost predicate Follows(prev: Status, st: Status) {
    && (st.phase == prev.phase || (prev.phase == StartPending && st.phase == Running) || st.phase == StopPending)
    && (if st.phase == prev.phase
        then st.checkPoint == prev.checkPoint
             || (st.phase != Running && st.checkPoint == (prev.checkPoint + 1) % WRAP)
        else st.phase == Running || st.checkPoint == 1)
  }

  ghost predicate Proper(st: Status) {
    && (st.acceptsStop <==> st.phase == Running) && (st.hinted <==> st.phase != Running)
    && (st.phase == Running ==> st.checkPoint == 0) && st.checkPoint < WRAP
  }

  lemma NextFollows(s: State, e: Event)
    requires Proper(s.current) && (s.stopRequested <==> s.current.phase == StopPending)
    requires s.current.phase == StartPending ==> !s.startSeen
    ensures var t := Next(s, e);
            && Proper(t.current) && (t.stopRequested <==> t.current.phase == StopPending)
            && (t.current.phase == StartPending ==> !t.startSeen)
            && ((t.reports == s.reports && t.current == s.current)
                || (t.reports == s.reports + [t.current] && Follows(s.current, t.current)))
            && (t.current.phase == s.current.phase && !e.Progress? ==> t.current.checkPoint == s.current.checkPoint)
            && |t.sent| - |s.sent| == (if t.stopRequested then 1 else 0) - (if s.stopRequested then 1 else 0)
  {
  }

  lemma LongerTrace(reports: seq<Status>, st: Status)
    requires reports != [] && Faithful(reports) && Advances(reports) && (exists a, b :: HasForm(reports, a, b))
    requires Proper(st) && Follows(reports[|reports| - 1], st)
    ensures Faithful(reports + [st]) && Advances(reports + [st]) && exists a, b :: HasForm(reports + [st], a, b)
  {
    var a, b :| HasForm(reports, a, b);
    var c, d := AddReport(reports, st, a, b);
    hide HasForm;
    var longer := reports + [st];
    assert forall i :: 0 <= i < |reports| ==> longer[i] == reports[i];
  }

  lemma NextKeeps(s: State, e: Event)
    requires Invariant(s)
    ensures Invariant(Next(s, e))
  {
    hide Next, Follows, HasForm, Advances;
    assert Proper(s.reports[|s.reports| - 1]);
    NextFollows(s, e);
    var t := Next(s, e);
    if t.reports != s.reports { LongerTrace(s.reports, t.current); }
  }

  lemma RunPrefix(events: seq<Event>)
    requires IsRun(events) && events != []
    ensures IsRun(events[..|events| - 1]) && Enabled(After(events[..|events| - 1]), events[|events| - 1])
  {
    hide Enabled, After;
    var n := |events| - 1;
    assert forall i :: 0 <= i < n ==> events[..n][..i] == events[..i];
  }

  lemma {:induction false} EveryRunKeeps(events: seq<Event>)
    requires IsRun(events)
    ensures Invariant(After(events))
  {
    if events == [] {
      assert HasForm(Init().reports, 1, 1);
    } else {
      RunPrefix(events);
      EveryRunKeeps(events[..|events| - 1]);
      NextKeeps(After(events[..|events| - 1]), events[|events| - 1]);
    }
  }

  /** The SCM is told a start, a run and a stop in this order, it may send Stop only
      while running, and at most one stop request is ever sent — so sending never blocks. */
  lemma {:induction false} ReportsAreOrderly(events: seq<Event>)
    requires IsRun(events)
    ensures exists a, b :: HasForm(After(events).reports, a, b)
    ensures Faithful(After(events).reports) && Advances(After(events).reports)
    ensures |After(events).sent| <= 1
  {
    EveryRunKeeps(events);
  }

  // ---------- every report, event by event ----------

  predicate IsStop(e: Event) { e == Control(Stop) || e == Control(Shutdown) }

  function PhaseNext(phase: Phase, e: Event): Phase {
    if IsStop(e) then StopPending else if e.Started? && phase == StartPending then Running else phase
  }

  /** The phase the events so far have brought about. */
  function PhaseOf(events: seq<Event>): Phase {
    if events == [] then StartPending else PhaseNext(PhaseOf(events[..|events| - 1]), events[|events| - 1])
  }

  /** The progress ticks since that phase began. */
  function TicksInPhase(events: seq<Event>): nat {
    if events == [] then 0
    else
      var init := events[..|events| - 1];
      if PhaseOf(events) != PhaseOf(init) then 0
      else TicksInPhase(init) + if events[|events| - 1] == Progress then 1 else 0
  }

  function Last(reports: seq<Status>): Status
    requires reports != []
  {
    reports[|reports| - 1]
  }

  /** The state has come to this phase and to so many ticks in it. */
  ghost predicate Counts(s: State, phase: Phase, ticks: nat) {
    && s.reports != [] && Last(s.reports) == s.current && s.current.phase == phase
    && s.current.checkPoint == (if phase == Running then 0 else (1 + ticks) % WRAP)
    && (s.stopRequested <==> phase == StopPending) && (phase == StartPending ==> !s.startSeen)
  }

  lemma NextCounts(s: State, e: Event, phase: Phase, ticks: nat)
    requires Counts(s, phase, ticks)
    ensures var phase' := PhaseNext(phase, e);
            Counts(Next(s, e), phase', if phase' != phase then 0 else ticks + if e == Progress then 1 else 0)
  {
    TickOn(ticks);
  }

  lemma TickOn(n: nat)
    ensures ((1 + n) % WRAP + 1) % WRAP == (2 + n) % WRAP
  {
  }

  lemma {:induction false} RunCounts(events: seq<Event>)
    requires IsRun(events)
    ensures Counts(After(events), PhaseOf(events), TicksInPhase(events))
  {
    hide Counts, Next;
    if events == [] {
      FirstCounts();
    } else {
      var init, e := events[..|events| - 1], events[|events| - 1];
      RunPrefix(events);
      RunCounts(init);
      NextCounts(After(init), e, PhaseOf(init), TicksInPhase(init));
      assert PhaseOf(events) == PhaseNext(PhaseOf(init), e);
    }
  }

  lemma FirstCounts()
    ensures Counts(Init(), StartPending, 0)
  {
  }

  /** In every run the last report is the current status: of the phase the events make
      it, and while that is pending with a checkpoint of 1 and one more for each tick
      since it began, as far as 32 bits hold it. */
  lemma {:induction false} CheckPointCounts(events: seq<Event>)
    requires IsRun(events)
    ensures After(events).reports != []
    ensures var st := Last(After(events).reports);
            && st.phase == PhaseOf(events)
            && st.checkPoint == if st.phase == Running then 0 else (1 + TicksInPhase(events)) % 4_294_967_296
  {
    RunCounts(events);
  }

  /** What each event of a run adds to the reports: a tick in a pending phase the same
      status one checkpoint on, an interrogation the last report once more, the start
      and the first stop their phase, and nothing else anything. */
  lemma {:induction false} EachEventReports(events: seq<Event>, e: Event)
    requires IsRun(events + [e])
    ensures After(events).reports != []
    ensures var before := After(events).reports;
            var phase := PhaseOf(events);
            After(events + [e]).reports == before +
              match e
              case Progress =>
                if phase == Running then [] else [Last(before).(checkPoint := (Last(before).checkPoint + 1) % WRAP)]
              case Control(Interrogate) => [Last(before)]
              case Control(Other) => []
              case Control(_) => if phase == StopPending then [] else [Status(StopPending, false, 1, true)]
              case Started => if phase == StartPending then [Status(Running, true, 0, false)] else []
              case Finished(_) => []
  {
    var run := events + [e];
    assert run[..|events|] == events;
    RunPrefix(run);
    RunCounts(events);
    assert After(events).reports + [] == After(events).reports;
  }

  function Ticks(events: seq<Event>): nat {
    if events == [] then 0 else Ticks(events[..|events| - 1]) + (if events[|events| - 1] == Progress then 1 else 0)
  }

  /** No checkpoint has wrapped: none is below the one before it in its phase, and
      no pending one is 0 or above n. */
  ghost predicate Rising(r: seq<Status>, n: nat) {
    forall i :: 0 <= i < |r| ==>
      && (r[i].phase != Running ==> 1 <= r[i].checkPoint <= n)
      && (i > 0 && r[i].phase == r[i - 1].phase ==> r[i].checkPoint >= r[i - 1].checkPoint)
  }

  lemma RisesOn(s: State, e: Event, n: nat)
    requires Invariant(s) && Rising(s.reports, n) && 1 <= n && n + 1 < WRAP
    ensures Rising(Next(s, e).reports, if e.Progress? then n + 1 else n)
  {
    hide Next, HasForm, Advances;
    var t := Next(s, e);
    assert Proper(s.reports[|s.reports| - 1]);
    NextFollows(s, e);
    if t.reports != s.reports {
      assert t.reports == s.reports + [t.current];
      assert forall i :: 0 <= i < |s.reports| ==> t.reports[i] == s.reports[i];
    }
  }

  lemma {:induction false} FewerInPhase(events: seq<Event>)
    ensures TicksInPhase(events) <= Ticks(events)
  {
    if events != [] { FewerInPhase(events[..|events| - 1]); }
  }

  /** Below 2^32 - 2 ticks no checkpoint of a pending phase falls, and the last one is
      1 and one more for each tick since the phase began. */
  lemma {:induction false} CheckPointsRise(events: seq<Event>)
    requires IsRun(events) && Ticks(events) < WRAP - 2
    ensures Rising(After(events).reports, Ticks(events) + 1)
    ensures After(events).reports != []
    ensures PhaseOf(events) != Running ==> Last(After(events).reports).checkPoint == 1 + TicksInPhase(events)
  {
    hide Rising, Next, Invariant, After, PhaseOf;
    CheckPointCounts(events);
    FewerInPhase(events);
    CheckPointsStay(events);
  }

  lemma {:induction false} CheckPointsStay(events: seq<Event>)
    requires IsRun(events) && Ticks(events) < WRAP - 2
    ensures Rising(After(events).reports, Ticks(events) + 1)
  {
    hide Rising, Next, Invariant;
    if events == [] {
      FirstRises();
    } else {
      RunPrefix(events);
      var init := events[..|events| - 1];
      CheckPointsStay(init);
      EveryRunKeeps(init);
      RisesOn(After(init), events[|events| - 1], Ticks(init) + 1);
    }
  }

  lemma FirstRises()
    ensures Rising(Init().reports, 1)
  {
  }

  ghost predicate StopHandled(events: seq<Event>) {
    exists i :: 0 <= i < |events| && IsStop(events[i])
  }

  lemma StopHandledLast(events: seq<Event>)
    requires events != []
    ensures StopHandled(events) <==> StopHandled(events[..|events| - 1]) || IsStop(events[|events| - 1])
  {
    hide IsStop;
    var n := |events| - 1;
    if StopHandled(events[..n]) {
      var i :| 0 <= i < n && IsStop(events[..n][i]);
      assert IsStop(events[i]);
    }
    if StopHandled(events) {
      var i :| 0 <= i < |events| && IsStop(events[i]);
      if i < n { assert IsStop(events[..n][i]); }
    }
  }

  lemma {:induction false} StopIsRemembered(events: seq<Event>)
    requires IsRun(events)
    ensures After(events).stopRequested <==> StopHandled(events)
  {
    hide StopHandled;
    if events == [] {
      NothingHandled();
    } else {
      RunPrefix(events);
      StopIsRemembered(events[..|events| - 1]);
      StopHandledLast(events);
    }
  }

  lemma NothingHandled()
    ensures !StopHandled([])
  {
  }

  lemma ExitIs(s: State, e: Event)
    requires Enabled(s, e)
    ensures Next(s, e).exit == Some(1) <==> e == Finished(true) && !s.stopRequested
  {
  }

  /** The exit code asks for a restart exactly when the sensor did and no stop or
      shutdown was ever handled: a stopped service stays stopped. */
  lemma {:induction false} RestartOnlyUnstopped(events: seq<Event>)
    requires IsRun(events)
    ensures After(events).exit == Some(1) <==>
      events != [] && events[|events| - 1] == Finished(true) && !StopHandled(events)
  {
    if events != [] {
      hide StopHandled, Next, Enabled;
      RunPrefix(events);
      var init, last := events[..|events| - 1], events[|events| - 1];
      assert After(events) == Next(After(init), last);
      hide After;
      ExitIs(After(init), last);
      StopIsRemembered(init);
      StopHandledLast(events);
    }
  }

  /** The sensor is told of the first stop only, and whether the system goes down. */
  lemma {:induction false} FirstStopIsSent(events: seq<Event>, e: Event)
    requires IsRun(events + [e])
    ensures After(events + [e]).sent == After(events).sent +
              if PhaseOf(events) == StopPending then []
              else if e == Control(Stop) then [StopRequested]
              else if e == Control(Shutdown) then [SystemShutdown]
              else []
  {
    var run := events + [e];
    assert run[..|events|] == events;
    RunPrefix(run);
    RunCounts(events);
    assert After(events).sent + [] == After(events).sent;
  }

  /** A run that is over has exit code 1 where a restart is asked for, and else 0. */
  lemma {:induction false} ExitCodes(events: seq<Event>, restart: bool)
    requires IsRun(events + [Finished(restart)])
    ensures After(events + [Finished(restart)]).exit == Some(if restart && !StopHandled(events) then 1 else 0)
    ensures After(events).exit == None
  {
    hide StopHandled;
    var run := events + [Finished(restart)];
    assert run[..|events|] == events;
    RunPrefix(run);
    StopIsRemembered(events);
  }
}
