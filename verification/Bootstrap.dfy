/**
 A device's first report of what it is running becomes its own override — as far
 as nobody has decided anything else and the rules accept it.
 */
module Bootstrap {
  import opened Ordering
  import opened Sequences
  import opened Settings

  /** May this reported value be considered at all? */
  predicate IsCandidate(f: Field, fleet: Values, device: Values, running: Values) {
    f.confirm == "" && !IsSet(fleet, f.key) && !IsSet(device, f.key) && IsSet(running, f.key)
  }

  /** Is the value, as it would be enforced, worth recording? */
  predicate IsWorthRecording(reg: Registry, rt: Runtime, k: Key, v: Value) {
    Issues(reg, rt, k, v) == [] && !(k in reg && v.Equal(reg[k].default))
  }

  predicate Adopts(reg: Registry, rt: Runtime, fleet: Values, device: Values, running: Values, k: Key) {
    && AppliesTo(reg, k, rt) && IsCandidate(reg[k], fleet, device, running)
    && IsWorthRecording(reg, rt, k, NormalValue(reg, rt, k, Lookup(running, k)))
  }

  function Recorded(reg: Registry, rt: Runtime, fleet: Values, device: Values, running: Values): Values {
    map k | k in running && Adopts(reg, rt, fleet, device, running, k) :: NormalValue(reg, rt, k, running[k])
  }

  // ---------- BootstrapValues ----------

  function Candidates(fields: seq<Field>, fleet: Values, device: Values, running: Values): Values {
    if fields == [] then map[]
    else
      var f := fields[|fields| - 1];
      var rest := Candidates(fields[..|fields| - 1], fleet, device, running);
      if IsCandidate(f, fleet, device, running) then rest[f.key := running[f.key]] else rest
  }

  lemma {:induction false} CandidatesAre(reg: Registry, fields: seq<Field>, keys: seq<Key>,
                                         fleet: Values, device: Values, running: Values)
    requires WellFormed(reg) && |fields| == |keys|
    requires forall i :: 0 <= i < |keys| ==> keys[i] in reg && fields[i] == reg[keys[i]]
    ensures forall k :: k in Candidates(fields, fleet, device, running) <==>
      k in keys && k in reg && IsCandidate(reg[k], fleet, device, running)
    ensures forall k :: k in Candidates(fields, fleet, device, running) ==>
      k in running && Candidates(fields, fleet, device, running)[k] == running[k]
  {
    if keys != [] {
      var n := |keys| - 1;
      CandidatesAre(reg, fields[..n], keys[..n], fleet, device, running);
      assert keys == keys[..n] + [keys[n]];
      assert fields[n].key == keys[n];
    }
  }

  method CollectCandidates(fields: seq<Field>, fleet: Values, device: Values, running: Values)
    returns (candidates: Values)
    ensures candidates == Candidates(fields, fleet, device, running)
  {
    candidates := map[];
    for n := 0 to |fields|
      invariant candidates == Candidates(fields[..n], fleet, device, running)
    {
      assert fields[..n + 1][..n] == fields[..n];
      var f := fields[n];
      if f.confirm != "" {
        continue;
      }
      if f.key in fleet && !fleet[f.key].IsZero() {
        continue;
      }
      if f.key in device && !device[f.key].IsZero() {
        continue;
      }
      if f.key !in running || running[f.key].IsZero() {
        continue;
      }
      candidates := candidates[f.key := running[f.key]];
    }
    assert fields[..|fields|] == fields;
  }

  function Accepted(reg: Registry, rt: Runtime, vals: Values, keys: seq<Key>): Values
    requires forall i :: 0 <= i < |keys| ==> keys[i] in vals
  {
    if keys == [] then map[]
    else
      var k := keys[|keys| - 1];
      var rest := Accepted(reg, rt, vals, keys[..|keys| - 1]);
      if IsWorthRecording(reg, rt, k, vals[k]) then rest[k := vals[k]] else rest
  }

  lemma {:induction false} AcceptedAre(reg: Registry, rt: Runtime, vals: Values, keys: seq<Key>)
    requires forall i :: 0 <= i < |keys| ==> keys[i] in vals
    ensures Accepted(reg, rt, vals, keys) == map k | k in vals && k in keys && IsWorthRecording(reg, rt, k, vals[k]) :: vals[k]
  {
    hide IsWorthRecording;
    if keys != [] {
      var n := |keys| - 1;
      AcceptedAre(reg, rt, vals, keys[..n]);
      assert keys == keys[..n] + [keys[n]];
    }
  }

  method AcceptWorthy(reg: Registry, rt: Runtime, vals: Values, keys: seq<Key>) returns (out: Values)
    requires forall i :: 0 <= i < |keys| ==> keys[i] in vals
    ensures out == Accepted(reg, rt, vals, keys)
  {
    hide Issues;
    out := map[];
    for n := 0 to |keys|
      invariant out == Accepted(reg, rt, vals, keys[..n])
    {
      assert keys[..n + 1][..n] == keys[..n];
      var k := keys[n];
      var v := vals[k];
      var single: Values := map[k := v];
      var problems := FindIssues(reg, rt, single);
      assert k in single && forall j :: j in single ==> j == k;
      if problems != [] {
        continue;
      }
      if k in reg && v.Equal(reg[k].default) {
        continue;
      }
      out := out[k := v];
    }
    assert keys[..|keys|] == keys;
  }

  method BootstrapValues(reg: Registry, rt: Runtime, fleet: Values, device: Values, running: Values)
    returns (out: Values)
    requires WellFormed(reg)
    ensures out == Recorded(reg, rt, fleet, device, running)
  {
    if |running| == 0 {
      assert forall k :: k !in running;
      return map[];
    }
    hide Recorded, Normal, KeyList, Sorted, Ascending, Elements, Candidates, Accepted, WellFormed;
    var fields := FieldsFor(reg, rt);
    var candidates := CollectCandidates(fields, fleet, device, running);
    CandidatesAll(reg, rt, fields, fleet, device, running);
    var normalized, notes := Normalize(reg, rt, candidates);
    var keys := SortedListing(normalized.Keys);
    out := AcceptWorthy(reg, rt, normalized, keys);
    AcceptedAll(reg, rt, normalized, keys);
    RecordedIsBoth(reg, rt, fleet, device, running);
  }

  ghost function CandidateMap(reg: Registry, rt: Runtime, fleet: Values, device: Values, running: Values): Values {
    map k | k in running && AppliesTo(reg, k, rt) && IsCandidate(reg[k], fleet, device, running) :: running[k]
  }

  ghost function WorthyMap(reg: Registry, rt: Runtime, vals: Values): Values {
    map k | k in vals && IsWorthRecording(reg, rt, k, vals[k]) :: vals[k]
  }

  lemma CandidatesAll(reg: Registry, rt: Runtime, fields: seq<Field>, fleet: Values, device: Values, running: Values)
    requires WellFormed(reg) && |fields| == |KeyList(reg, rt)|
    requires forall i :: 0 <= i < |fields| ==> fields[i] == reg[KeyList(reg, rt)[i]]
    ensures Candidates(fields, fleet, device, running) == CandidateMap(reg, rt, fleet, device, running)
  {
    hide IsCandidate, KeyList;
    CandidatesAre(reg, fields, KeyList(reg, rt), fleet, device, running);
    hide Candidates, WellFormed;
    assert forall k :: k in KeyList(reg, rt) <==> k in Elements(KeyList(reg, rt));
  }

  lemma AcceptedAll(reg: Registry, rt: Runtime, vals: Values, keys: seq<Key>)
    requires keys == Sorted(vals.Keys)
    ensures forall i :: 0 <= i < |keys| ==> keys[i] in vals
    ensures Accepted(reg, rt, vals, keys) == WorthyMap(reg, rt, vals)
  {
    hide IsWorthRecording, Sorted, Ascending, Accepted;
    assert forall k :: k in keys <==> k in Elements(keys);
    AcceptedAre(reg, rt, vals, keys);
  }

  lemma RecordedIsBoth(reg: Registry, rt: Runtime, fleet: Values, device: Values, running: Values)
    ensures WorthyMap(reg, rt, Normal(reg, rt, CandidateMap(reg, rt, fleet, device, running)))
         == Recorded(reg, rt, fleet, device, running)
  {
    hide NormalValue, IsWorthRecording, IsCandidate;
  }

  // ---------- what recording it does ----------

  /** The device layer with the bootstrap values recorded over it. */
  function WithRecorded(reg: Registry, rt: Runtime, fleet: Values, device: Values, running: Values): Values {
    device + Recorded(reg, rt, fleet, device, running)
  }

  lemma EffectiveWithRecorded(reg: Registry, rt: Runtime, fleet: Values, device: Values, running: Values, k: Key)
    requires WellFormed(reg) && AppliesTo(reg, k, rt)
    ensures var v := NormalValue(reg, rt, k, Lookup(running, k));
            Effective(reg, rt, fleet, WithRecorded(reg, rt, fleet, device, running))[k] ==
              if Adopts(reg, rt, fleet, device, running, k) && !v.IsZero() then v
              else Effective(reg, rt, fleet, device)[k]
  {
    hide NormalValue, IsWorthRecording;
  }

  /** Nothing anybody decided moves, and nothing that needs confirming. */
  lemma DecisionsStand(reg: Registry, rt: Runtime, fleet: Values, device: Values, running: Values, k: Key)
    requires WellFormed(reg) && AppliesTo(reg, k, rt)
    requires IsSet(fleet, k) || IsSet(device, k) || reg[k].confirm != ""
    ensures Effective(reg, rt, fleet, WithRecorded(reg, rt, fleet, device, running))[k]
         == Effective(reg, rt, fleet, device)[k]
  {
    EffectiveWithRecorded(reg, rt, fleet, device, running, k);
    hide Effective, WithRecorded, NormalValue, IsWorthRecording;
  }

  /** Any other acceptable reported value is what the device is then told to be. */
  lemma ReportIsAdopted(reg: Registry, rt: Runtime, fleet: Values, device: Values, running: Values, k: Key)
    requires WellFormed(reg) && AppliesTo(reg, k, rt)
    requires !IsSet(fleet, k) && !IsSet(device, k) && reg[k].confirm == "" && IsSet(running, k)
    requires Issues(reg, rt, k, NormalValue(reg, rt, k, running[k])) == []
    ensures Effective(reg, rt, fleet, WithRecorded(reg, rt, fleet, device, running))[k]
              .Equal(NormalValue(reg, rt, k, running[k]))
  {
    EffectiveWithRecorded(reg, rt, fleet, device, running, k);
    NormalValueIsSettled(reg, rt, k, running[k]);
    hide NormalValue, Issues, WithRecorded;
    var v := NormalValue(reg, rt, k, running[k]);
    EqualMeansSameContent(v, reg[k].default);
    EqualMeansSameContent(reg[k].default, v);
    EqualMeansSameContent(v, v);
    assert Effective(reg, rt, fleet, device)[k] == reg[k].default;
    hide Effective;
  }

  /** And a value the rules refuse, or that was not reported, changes nothing. */
  lemma RefusedChangesNothing(reg: Registry, rt: Runtime, fleet: Values, device: Values, running: Values, k: Key)
    requires WellFormed(reg) && AppliesTo(reg, k, rt)
    requires !IsSet(running, k) || Issues(reg, rt, k, NormalValue(reg, rt, k, running[k])) != []
    ensures Effective(reg, rt, fleet, WithRecorded(reg, rt, fleet, device, running))[k]
         == Effective(reg, rt, fleet, device)[k]
  {
    EffectiveWithRecorded(reg, rt, fleet, device, running, k);
    hide NormalValue, Issues, WithRecorded, Effective;
  }

  /** The same report a second time records nothing, under any fleet layer that
      decides no less. */
  lemma {:induction false} SecondReportRecordsNothing(reg: Registry, rt: Runtime, fleet: Values, later: Values, device: Values, running: Values)
    requires WellFormed(reg)
    requires forall k :: IsSet(fleet, k) ==> IsSet(later, k)
    ensures Recorded(reg, rt, later, WithRecorded(reg, rt, fleet, device, running), running) == map[]
  {
    hide NormalValue, IsWorthRecording;
    var next := WithRecorded(reg, rt, fleet, device, running);
    forall k | k in running
      ensures !Adopts(reg, rt, later, next, running, k)
    {
      if Adopts(reg, rt, fleet, device, running, k) {
        NormalValueIsSettled(reg, rt, k, running[k]);
        assert IsSet(next, k);
      } else if AppliesTo(reg, k, rt) && IsSet(device, k) {
        assert next[k] == device[k];
      }
    }
  }

  /** Exactly these values are recorded: of a setting for this runtime that needs no
      confirming, which neither the fleet nor the device has set, a reported value that
      is accepted and, as it would be enforced, says something else than the default. */
  lemma RecordedExactly(reg: Registry, rt: Runtime, fleet: Values, device: Values, running: Values, k: Key)
    ensures k in Recorded(reg, rt, fleet, device, running) <==>
              && k in reg && rt in reg[k].runtimes && reg[k].confirm == ""
              && !IsSet(fleet, reg[k].key) && !IsSet(device, reg[k].key) && k in running && IsSet(running, reg[k].key)
              && Issues(reg, rt, k, NormalValue(reg, rt, k, running[k])) == []
              && NormalValue(reg, rt, k, running[k]).Content() != reg[k].default.Content()
    ensures k in Recorded(reg, rt, fleet, device, running) ==>
              Recorded(reg, rt, fleet, device, running)[k] == NormalValue(reg, rt, k, running[k])
  {
    hide NormalValue, Issues, Value.Equal, Value.Content;
    if k in reg && k in running { EqualMeansSameContent(NormalValue(reg, rt, k, running[k]), reg[k].default); }
  }
}
