/**
 What a device's report says about it: which failures count, and the state shown.
 */
module DeviceStatus {
  import opened Options
  import opened Ordering
  import opened Settings
  import opened Reconciliation

  datatype State = NeverReported | NotReporting | Pending | Applied | Failed | AwaitingRestart

  /** `at` is None for the zero time; a revision of "" is none at all. */
  datatype Report = Report(revision: string, at: Option<int>, failures: map<Key, string>, pendingRestart: seq<Key>)

  /** A failure as the console shows it. */
  datatype Failure = AsReported(reason: string) | NeedsUpgrade(version: string)

  // ---------- the unsupported-setting failure ----------

  const OPENING := "this agent ("
  const CLOSING := ") does not support "

  function UnsupportedReason(version: string, k: Key): string { OPENING + version + CLOSING + k }

  /** The version an unsupported-setting failure names, if it is one. The two ends
      cannot overlap: the closing starts with a bracket the opening lacks. */
  function UnsupportedVersion(k: Key, reason: string): (version: Option<string>)
    ensures version.Some? ==> |OPENING| + |CLOSING + k| <= |reason|
  {
    var suffix := CLOSING + k;
    if OPENING <= reason && |suffix| <= |reason| && reason[|reason| - |suffix|..] == suffix then
      assert reason[|reason| - |suffix|] == ')';
      assert forall i :: 0 <= i < |OPENING| ==> reason[i] == OPENING[i] != ')';
      Some(reason[|OPENING|..|reason| - |suffix|])
    else None
  }

  /** Recognising a failure is exactly undoing its wording. */
  lemma UnsupportedIsExact(k: Key, reason: string, version: string)
    ensures UnsupportedVersion(k, reason) == Some(version) <==> reason == UnsupportedReason(version, k)
  {
    var suffix := CLOSING + k;
    assert UnsupportedReason(version, k) == OPENING + version + suffix;
    if reason == UnsupportedReason(version, k) {
      assert reason[|reason| - |suffix|..] == suffix;
      assert reason[|OPENING|..|reason| - |suffix|] == version;
    }
    if UnsupportedVersion(k, reason) == Some(version) {
      assert reason == reason[..|OPENING|] + reason[|OPENING|..|reason| - |suffix|] + reason[|reason| - |suffix|..];
    }
  }

  // ---------- which failures count ----------

  /** A device older than the setting, asked for nothing it is not already doing. */
  predicate IsHidden(reg: Registry, desired: Values, k: Key, reason: string) {
    && UnsupportedVersion(k, reason).Some? && k in reg && reg[k].olderDevicesRunDefault
    && (!IsSet(desired, k) || Lookup(desired, k).Equal(reg[k].default))
  }

  function Shown(k: Key, reason: string): Failure {
    if UnsupportedVersion(k, reason).Some? then NeedsUpgrade(UnsupportedVersion(k, reason).value) else AsReported(reason)
  }

  function VisibleFailures(reg: Registry, desired: Values, reported: map<Key, string>): map<Key, Failure> {
    map k | k in reported && !IsHidden(reg, desired, k, reported[k]) :: Shown(k, reported[k])
  }

  /** The loop over the reported failures, in whatever order they come. */
  method ComputeVisibleFailures(reg: Registry, desired: Values, reported: map<Key, string>)
    returns (out: map<Key, Failure>)
    ensures out == VisibleFailures(reg, desired, reported)
  {
    hide UnsupportedVersion, Value.Equal;
    out := map[];
    var unseen := reported.Keys;
    while unseen != {}
      invariant unseen <= reported.Keys
      invariant out == map k | k in reported && k !in unseen && !IsHidden(reg, desired, k, reported[k])
                         :: Shown(k, reported[k])
    {
      var k :| k in unseen;
      unseen := unseen - {k};
      var version := UnsupportedVersion(k, reported[k]);
      if version.None? {
        out := out[k := AsReported(reported[k])];
        continue;
      }
      if k in reg && reg[k].olderDevicesRunDefault {
        if k !in desired || desired[k].IsZero() || desired[k].Equal(reg[k].default) {
          continue;
        }
      }
      out := out[k := NeedsUpgrade(version.value)];
    }
  }

  /** A failure goes unseen exactly when some version of the device named this
      setting as unsupported, the setting says older devices behave like its
      default, and nothing but the default is asked for. */
  lemma HiddenExactlyWhen(reg: Registry, desired: Values, reported: map<Key, string>, k: Key)
    requires k in reported
    ensures k !in VisibleFailures(reg, desired, reported) <==>
      && (exists version :: reported[k] == UnsupportedReason(version, k))
      && k in reg && reg[k].olderDevicesRunDefault
      && Lookup(desired, k).Content() in {Unset, reg[k].default.Content()}
  {
    hide UnsupportedVersion, UnsupportedReason;
    if UnsupportedVersion(k, reported[k]).Some? {
      UnsupportedIsExact(k, reported[k], UnsupportedVersion(k, reported[k]).value);
    }
    forall version | reported[k] == UnsupportedReason(version, k)
      ensures UnsupportedVersion(k, reported[k]).Some?
    {
      UnsupportedIsExact(k, reported[k], version);
    }
  }

  // ---------- Reconcile ----------

  ghost function Reconcile(reg: Registry, rt: Runtime, desired: Values, rep: Report): State {
    if rep.revision == "" && rep.at.None? then NeverReported
    else if rep.revision == "" then NotReporting
    else if VisibleFailures(reg, desired, rep.failures) != map[] then Failed
    else if rep.revision != Revision(rt, desired) then Pending
    else if rep.pendingRestart != [] then AwaitingRestart
    else Applied
  }

  method ComputeStatus(reg: Registry, rt: Runtime, desired: Values, rep: Report)
    returns (state: State, want: string, failures: map<Key, Failure>)
    ensures state == Reconcile(reg, rt, desired, rep)
    ensures want == Revision(rt, desired) && failures == VisibleFailures(reg, desired, rep.failures)
  {
    hide Revision;
    want := ComputeRevision(rt, desired);
    failures := ComputeVisibleFailures(reg, desired, rep.failures);
    if rep.revision == "" && rep.at.None? {
      state := NeverReported;
    } else if rep.revision == "" {
      state := NotReporting;
    } else if failures.Keys != {} {
      assert failures != map[];
      state := Failed;
    } else if rep.revision != want {
      state := Pending;
    } else if |rep.pendingRestart| > 0 {
      state := AwaitingRestart;
    } else {
      state := Applied;
    }
  }

  lemma RevisionIsNeverEmpty(rt: Runtime, vals: Values)
    ensures Revision(rt, vals) != ""
  {
  }

  /** A device that runs some values and reports their revision. */
  ghost predicate Runs(rep: Report, rt: Runtime, held: Values) { rep.revision == Revision(rt, held) }

  /** Nothing is shown as applied, or as waiting only for a restart, over values
      the device does not hold; and a device that holds them is never pending. */
  lemma AppliedMeansHeld(reg: Registry, rt: Runtime, desired: Values, held: Values, rep: Report)
    requires Clean(desired) && Clean(held) && Runs(rep, rt, held)
    ensures Reconcile(reg, rt, desired, rep) in {Applied, AwaitingRestart} ==> SameContents(held, desired)
    ensures SameContents(held, desired) ==> Reconcile(reg, rt, desired, rep) in {Applied, AwaitingRestart, Failed}
    ensures Reconcile(reg, rt, desired, rep) == Failed <==> VisibleFailures(reg, desired, rep.failures) != map[]
  {
    hide Revision, Clean, SameContents, VisibleFailures;
    RevisionIsExact(rt, held, rt, desired);
    RevisionIsNeverEmpty(rt, held);
  }

  /** A new fleet default turns pending exactly the devices it changes: of those
      that cleanly report the values they were given before, the ones whose
      effective values differ — which is when `Diff` has something to show. */
  lemma {:induction false} FleetChangeReachesExactly(reg: Registry, rt: Runtime, fleet: Values, fleet': Values, device: Values, rep: Report)
    requires Sound(reg) && ValidLayer(reg, rt, fleet) && ValidLayer(reg, rt, fleet') && ValidLayer(reg, rt, device)
    requires Runs(rep, rt, Effective(reg, rt, fleet, device)) && rep.failures == map[]
    ensures var before, after := Effective(reg, rt, fleet, device), Effective(reg, rt, fleet', device);
            && (Reconcile(reg, rt, after, rep) == Pending <==> !SameContents(before, after))
            && (Reconcile(reg, rt, after, rep) == Pending <==> Changes(before, after, Sorted(before.Keys + after.Keys)) != [])
  {
    hide Revision, Effective, Clean, SameContents, Changes, Sorted;
    var before, after := Effective(reg, rt, fleet, device), Effective(reg, rt, fleet', device);
    EffectiveIsClean(reg, rt, fleet, device);
    EffectiveIsClean(reg, rt, fleet', device);
    AppliedMeansHeld(reg, rt, after, before, rep);
    RevisionIsExact(rt, before, rt, after);
    RevisionIsNeverEmpty(rt, before);
    DiffMatchesRevision(rt, before, after);
    assert VisibleFailures(reg, after, rep.failures) == map[];
  }

  /** What each state means. */
  lemma StatesAre(reg: Registry, rt: Runtime, desired: Values, rep: Report)
    ensures var state, want := Reconcile(reg, rt, desired, rep), Revision(rt, desired);
            var failing := exists k :: k in VisibleFailures(reg, desired, rep.failures);
            && (state == NeverReported <==> rep.revision == "" && rep.at.None?)
            && (state == NotReporting <==> rep.revision == "" && rep.at.Some?)
            && (state == Failed <==> rep.revision != "" && failing)
            && (state == Pending <==> rep.revision != "" && !failing && rep.revision != want)
            && (state == AwaitingRestart <==> !failing && rep.revision == want && rep.pendingRestart != [])
            && (state == Applied <==> !failing && rep.revision == want && rep.pendingRestart == [])
  {
    RevisionIsNeverEmpty(rt, desired);
    hide Revision, VisibleFailures;
    var visible := VisibleFailures(reg, desired, rep.failures);
    if forall k :: k !in visible { assert visible == map[]; }
  }

  lemma WordingIs(version: string, k: Key)
    ensures UnsupportedReason(version, k) == "this agent (" + version + ") does not support " + k
  {
  }

  /** A failure that is shown says what to upgrade from where the setting is not
      supported, and else what was reported. */
  lemma ShownAre(reg: Registry, desired: Values, reported: map<Key, string>, k: Key, version: string)
    requires k in VisibleFailures(reg, desired, reported)
    ensures reported[k] == "this agent (" + version + ") does not support " + k ==>
              VisibleFailures(reg, desired, reported)[k] == NeedsUpgrade(version)
    ensures (forall v :: reported[k] != UnsupportedReason(v, k)) ==>
              VisibleFailures(reg, desired, reported)[k] == AsReported(reported[k])
  {
    WordingIs(version, k);
    hide UnsupportedVersion, UnsupportedReason, IsHidden;
    UnsupportedIsExact(k, reported[k], version);
    if UnsupportedVersion(k, reported[k]).Some? {
      UnsupportedIsExact(k, reported[k], UnsupportedVersion(k, reported[k]).value);
    }
  }
}
