/**
 Managed settings: the registry, the layers a device's effective values come
 from, and the rules a value has to meet. The registry is any well-formed table.
 */
module Settings {
  import opened Options
  import opened Ordering
  import opened Sequences
  import PortList

  datatype Runtime = Sensor | Agent

  datatype Kind = KindBool | KindInt | KindEnum | KindPortList

  /** What a value says: the first of its parts that is set. */
  datatype Content = Unset | Flag(flag: bool) | Number(number: int) | Words(words: string)

  /** Three optional scalars. Every combination can arrive; one is meant. */
  datatype Value = Value(b: Option<bool>, i: Option<int>, s: Option<string>)
  {
    predicate IsZero() { b.None? && i.None? && s.None? }

    predicate Equal(o: Value) {
      if b.Some? || o.b.Some? then b.Some? && o.b.Some? && b.value == o.b.value
      else if i.Some? || o.i.Some? then i.Some? && o.i.Some? && i.value == o.i.value
      else if s.Some? || o.s.Some? then s.Some? && o.s.Some? && s.value == o.s.value
      else true
    }

    function Content(): Content {
      if b.Some? then Flag(b.value) else if i.Some? then Number(i.value)
      else if s.Some? then Words(s.value) else Unset
    }
  }

  const NOTHING := Value(None, None, None)

  function Int(i: int): Value { Value(None, Some(i), None) }

  function Text(s: string): Value { Value(None, None, Some(s)) }

  /** `Equal` compares what values say, not how they are put together. */
  lemma {:induction false} EqualMeansSameContent(v: Value, w: Value)
    ensures v.Equal(w) <==> v.Content() == w.Content()
    ensures v.IsZero() <==> v.Content() == Unset
  {
  }

  type Key = string

  type Values = map<Key, Value>

  function Lookup(vals: Values, k: Key): Value { if k in vals then vals[k] else NOTHING }

  predicate IsSet(vals: Values, k: Key) { !Lookup(vals, k).IsZero() }

  datatype Field = Field(
    key: Key, runtimes: seq<Runtime>, kind: Kind, default: Value,
    min: int, max: int, floor: int, allowed: seq<string>,
    olderDevicesRunDefault: bool, confirm: string)

  type Registry = map<Key, Field>

  /** What every registry entry keeps to. */
  ghost predicate WellFormed(reg: Registry) {
    forall k :: k in reg ==>
      && reg[k].key == k
      && reg[k].min <= reg[k].max
      && (reg[k].floor == 0 || reg[k].floor == reg[k].min)
      && !reg[k].default.IsZero()
  }

  predicate AppliesTo(reg: Registry, k: Key, rt: Runtime) { k in reg && rt in reg[k].runtimes }

  ghost function KeysFor(reg: Registry, rt: Runtime): set<Key> {
    set k | k in reg && AppliesTo(reg, k, rt)
  }

  /** The keys of one runtime in order. */
  ghost function KeyList(reg: Registry, rt: Runtime): (keys: seq<Key>)
    ensures Elements(keys) == KeysFor(reg, rt)
    ensures forall i :: 0 <= i < |keys| ==> keys[i] in reg
  {
    var keys := Sorted(KeysFor(reg, rt));
    assert forall i :: 0 <= i < |keys| ==> keys[i] in Elements(keys);
    keys
  }

  method ApplyingKeys(reg: Registry, rt: Runtime) returns (applying: set<Key>)
    ensures applying == KeysFor(reg, rt)
  {
    applying := {};
    var unseen := reg.Keys;
    while unseen != {}
      invariant unseen <= reg.Keys
      invariant applying == KeysFor(reg, rt) - unseen
    {
      var k :| k in unseen;
      unseen := unseen - {k};
      if rt in reg[k].runtimes {
        applying := applying + {k};
      }
    }
  }

  /** `FieldsFor`: the registry is ranged over in any order, the answer is by key. */
  method FieldsFor(reg: Registry, rt: Runtime) returns (fields: seq<Field>)
    ensures |fields| == |KeyList(reg, rt)|
    ensures forall i :: 0 <= i < |fields| ==> fields[i] == reg[KeyList(reg, rt)[i]]
  {
    hide Sorted, Ascending, Before;
    var applying := ApplyingKeys(reg, rt);
    var keys := SortedListing(applying);
    assert keys == KeyList(reg, rt);
    hide KeyList;
    fields := [];
    for i := 0 to |keys|
      invariant |fields| == i && forall j :: 0 <= j < i ==> fields[j] == reg[keys[j]]
    {
      fields := fields + [reg[keys[i]]];
    }
  }

  // ---------- layers ----------

  datatype Origin = BuiltIn | Fleet | Device

  datatype Resolved = Resolved(key: Key, value: Value, origin: Origin)

  function ResolveField(f: Field, fleet: Values, device: Values): Resolved {
    if IsSet(device, f.key) then Resolved(f.key, device[f.key], Device)
    else if IsSet(fleet, f.key) then Resolved(f.key, fleet[f.key], Fleet)
    else Resolved(f.key, f.default, BuiltIn)
  }

  method Resolve(reg: Registry, rt: Runtime, fleet: Values, device: Values) returns (out: seq<Resolved>)
    ensures |out| == |KeyList(reg, rt)|
    ensures forall i :: 0 <= i < |out| ==> out[i] == ResolveField(reg[KeyList(reg, rt)[i]], fleet, device)
  {
    hide KeyList, ResolveField;
    var fields := FieldsFor(reg, rt);
    out := [];
    for n := 0 to |fields|
      invariant |out| == n && forall i :: 0 <= i < n ==> out[i] == ResolveField(fields[i], fleet, device)
    {
      var r := ResolveOne(fields[n], fleet, device);
      out := out + [r];
    }
  }

  method ResolveOne(f: Field, fleet: Values, device: Values) returns (r: Resolved)
    ensures r == ResolveField(f, fleet, device)
  {
    r := Resolved(f.key, f.default, BuiltIn);
    if f.key in fleet && !fleet[f.key].IsZero() {
      r := r.(value := fleet[f.key], origin := Fleet);
    }
    if f.key in device && !device[f.key].IsZero() {
      r := r.(value := device[f.key], origin := Device);
    }
  }

  /** What the device is told to be. */
  function Effective(reg: Registry, rt: Runtime, fleet: Values, device: Values): Values {
    map k | k in reg && AppliesTo(reg, k, rt) :: ResolveField(reg[k], fleet, device).value
  }

  /** A device's own value stands whatever the fleet says; without one the fleet's
      does; and a key nobody set has its default. */
  lemma LayersDecide(reg: Registry, rt: Runtime, fleet: Values, device: Values, other: Values, k: Key)
    requires WellFormed(reg) && AppliesTo(reg, k, rt)
    ensures IsSet(device, k) ==>
              Effective(reg, rt, fleet, device)[k] == Effective(reg, rt, other, device)[k] == device[k]
    ensures !IsSet(device, k) ==>
              Effective(reg, rt, fleet, device)[k] == Effective(reg, rt, fleet, map[])[k]
              && (!IsSet(other, k) ==> Effective(reg, rt, other, device)[k] == reg[k].default)
    ensures !IsSet(device, k) && IsSet(fleet, k) ==> Effective(reg, rt, fleet, device)[k] == fleet[k]
  {
  }

  /** The values of some resolved settings, later ones on top. */
  function Collected(resolved: seq<Resolved>): Values {
    if resolved == [] then map[]
    else
      var last := resolved[|resolved| - 1];
      Collected(resolved[..|resolved| - 1])[last.key := last.value]
  }

  lemma {:induction false} CollectedIs(resolved: seq<Resolved>, vals: Values)
    requires forall r :: r in resolved ==> r.key in vals && r.value == vals[r.key]
    ensures Collected(resolved) == map k | k in vals && exists r :: r in resolved && r.key == k :: vals[k]
  {
    if resolved != [] {
      var before, last := resolved[..|resolved| - 1], resolved[|resolved| - 1];
      CollectedIs(before, vals);
      assert Collected(resolved) == Collected(before)[last.key := last.value];
      hide Collected;
      assert forall r :: r in resolved <==> r in before || r == last;
    }
  }

  method ComputeEffective(reg: Registry, rt: Runtime, fleet: Values, device: Values) returns (out: Values)
    requires WellFormed(reg)
    ensures out == Effective(reg, rt, fleet, device)
  {
    hide Effective, KeyList, WellFormed, ResolveField;
    var resolved := Resolve(reg, rt, fleet, device);
    EffectiveIsCollected(resolved, reg, rt, fleet, device);
    out := map[];
    for i := 0 to |resolved|
      invariant out == Collected(resolved[..i])
    {
      assert resolved[..i + 1][..i] == resolved[..i];
      out := out[resolved[i].key := resolved[i].value];
    }
    assert resolved[..|resolved|] == resolved;
  }

  lemma KeyIsResolved(reg: Registry, k: Key, fleet: Values, device: Values)
    requires WellFormed(reg) && k in reg
    ensures ResolveField(reg[k], fleet, device).key == k
  {
  }

  lemma EffectiveIsCollected(resolved: seq<Resolved>, reg: Registry, rt: Runtime, fleet: Values, device: Values)
    requires WellFormed(reg) && |resolved| == |KeyList(reg, rt)|
    requires forall i :: 0 <= i < |resolved| ==> resolved[i] == ResolveField(reg[KeyList(reg, rt)[i]], fleet, device)
    ensures Collected(resolved) == Effective(reg, rt, fleet, device)
  {
    hide ResolveField, KeyList, WellFormed, Collected, AppliesTo;
    var keys := KeyList(reg, rt);
    var vals := map k | k in reg :: ResolveField(reg[k], fleet, device).value;
    forall i | 0 <= i < |keys|
      ensures resolved[i].key == keys[i] && keys[i] in vals && resolved[i].value == vals[keys[i]]
    {
      KeyIsResolved(reg, keys[i], fleet, device);
    }
    CollectedIs(resolved, vals);
    forall k
      ensures k in KeysFor(reg, rt) <==> exists r :: r in resolved && r.key == k
    {
      if k in Elements(keys) {
        var i :| 0 <= i < |keys| && keys[i] == k;
        assert resolved[i] in resolved;
      }
    }
  }

  // ---------- rules ----------

  /** One thing wrong with one proposed value. */
  datatype Issue =
    | UnknownSetting(key: Key)
    | NotForRuntime(key: Key)
    | NotABool(key: Key)
    | NotAnInt(key: Key)
    | AboveMax(key: Key)
    | BelowMin(key: Key)
    | NotAnEnum(key: Key)
    | NotAllowed(key: Key)
    | NotAPortList(key: Key)
    | BadPorts(key: Key, problem: PortList.Problem)

  function PortIssues(k: Key, problems: seq<PortList.Problem>): (r: seq<Issue>)
    ensures r == [] <==> problems == []
  {
    if problems == [] then [] else [BadPorts(k, problems[0])] + PortIssues(k, problems[1..])
  }

  function Issues(reg: Registry, rt: Runtime, k: Key, v: Value): seq<Issue> {
    if k !in reg then [UnknownSetting(k)]
    else if !AppliesTo(reg, k, rt) then [NotForRuntime(k)]
    else if v.IsZero() then []
    else
      var f := reg[k];
      match f.kind
      case KindBool => if v.b.None? then [NotABool(k)] else []
      case KindInt =>
        if v.i.None? then [NotAnInt(k)]
        else if v.i.value > f.max then [AboveMax(k)]
        else if f.floor == 0 && v.i.value < f.min then [BelowMin(k)]
        else []
      case KindEnum =>
        if v.s.None? then [NotAnEnum(k)]
        else if v.s.value !in f.allowed then [NotAllowed(k)]
        else []
      case KindPortList =>
        if v.s.None? then [NotAPortList(k)] else PortIssues(k, PortList.ParseProblems(v.s.value))
  }

  function IssuesOf(reg: Registry, rt: Runtime, vals: Values, keys: seq<Key>): seq<Issue>
    requires forall i :: 0 <= i < |keys| ==> keys[i] in vals
  {
    if keys == [] then []
    else
      var k := keys[|keys| - 1];
      IssuesOf(reg, rt, vals, keys[..|keys| - 1]) + Issues(reg, rt, k, vals[k])
  }

  /** Nothing is wrong with any value. */
  ghost predicate Valid(reg: Registry, rt: Runtime, vals: Values) {
    forall k :: k in vals ==> Issues(reg, rt, k, vals[k]) == []
  }

  lemma {:induction false} NoIssuesMeansValid(reg: Registry, rt: Runtime, vals: Values, keys: seq<Key>)
    requires forall i :: 0 <= i < |keys| ==> keys[i] in vals
    ensures IssuesOf(reg, rt, vals, keys) == [] <==> forall i :: 0 <= i < |keys| ==> Issues(reg, rt, keys[i], vals[keys[i]]) == []
  {
    hide Issues;
    if keys != [] {
      NoIssuesMeansValid(reg, rt, vals, keys[..|keys| - 1]);
    }
  }

  /** The loop of `Validate`: every issue, by key. */
  method FindIssues(reg: Registry, rt: Runtime, vals: Values) returns (problems: seq<Issue>)
    ensures (forall i :: 0 <= i < |Sorted(vals.Keys)| ==> Sorted(vals.Keys)[i] in vals)
            && problems == IssuesOf(reg, rt, vals, Sorted(vals.Keys))
    ensures problems == [] <==> Valid(reg, rt, vals)
  {
    hide Issues, Sorted, Ascending, Before;
    var keys := SortedListing(vals.Keys);
    assert forall k :: k in vals <==> k in Elements(keys);
    problems := [];
    for n := 0 to |keys|
      invariant problems == IssuesOf(reg, rt, vals, keys[..n])
    {
      assert keys[..n + 1][..n] == keys[..n];
      var found := ValidateKey(reg, rt, keys[n], vals[keys[n]]);
      problems := problems + found;
    }
    assert keys[..|keys|] == keys;
    NoIssuesMeansValid(reg, rt, vals, keys);
  }

  function Worded(problems: seq<Issue>, say: Issue -> string): (texts: seq<string>)
    ensures |texts| == |problems| && forall i :: 0 <= i < |texts| ==> texts[i] == say(problems[i])
  {
    seq(|problems|, i requires 0 <= i < |problems| => say(problems[i]))
  }

  /** One message for each issue, sorted by text; `say` is how an issue is worded. */
  method Validate(reg: Registry, rt: Runtime, vals: Values, say: Issue -> string) returns (messages: seq<string>)
    ensures InOrder(messages) && forall i :: 0 <= i < |Sorted(vals.Keys)| ==> Sorted(vals.Keys)[i] in vals
    ensures multiset(messages) == multiset(Worded(IssuesOf(reg, rt, vals, Sorted(vals.Keys)), say))
    ensures messages == [] <==> Valid(reg, rt, vals)
  {
    hide Issues, IssuesOf, Sorted, Ascending, Before, InOrder, Valid;
    var problems := FindIssues(reg, rt, vals);
    if |problems| == 0 {
      NothingIsInOrder();
      return [];
    }
    messages := SortStrings(Worded(problems, say));
    assert Worded(problems, say)[0] in multiset(messages);
  }

  method ValidateKey(reg: Registry, rt: Runtime, k: Key, v: Value) returns (problems: seq<Issue>)
    ensures problems == Issues(reg, rt, k, v)
  {
    problems := [];
    if k !in reg {
      return [UnknownSetting(k)];
    }
    if !AppliesTo(reg, k, rt) {
      return [NotForRuntime(k)];
    }
    if v.IsZero() {
      return;
    }
    var f := reg[k];
    match f.kind {
      case KindBool =>
        if v.b.None? { return [NotABool(k)]; }
      case KindInt =>
        if v.i.None? { return [NotAnInt(k)]; }
        if v.i.value > f.max { return [AboveMax(k)]; }
        if f.floor == 0 && v.i.value < f.min { return [BelowMin(k)]; }
      case KindEnum =>
        if v.s.None? { return [NotAnEnum(k)]; }
        if v.s.value !in f.allowed { return [NotAllowed(k)]; }
      case KindPortList =>
        if v.s.None? { return [NotAPortList(k)]; }
        var ports, bad := PortList.ParsePortList(v.s.value);
        problems := NamePortIssues(k, bad);
    }
  }

  method NamePortIssues(k: Key, bad: seq<PortList.Problem>) returns (problems: seq<Issue>)
    ensures problems == PortIssues(k, bad)
  {
    problems := [];
    assert bad[0..] == bad;
    for i := 0 to |bad|
      invariant problems + PortIssues(k, bad[i..]) == PortIssues(k, bad)
    {
      assert bad[i..][0] == bad[i] && bad[i..][1..] == bad[i + 1..];
      problems := problems + [BadPorts(k, bad[i])];
    }
  }

  // ---------- normal form ----------

  datatype Note = RemovedDuplicates(key: Key, count: int) | Raised(key: Key, from: int, to: int)

  function NormalValue(reg: Registry, rt: Runtime, k: Key, v: Value): Value {
    if !AppliesTo(reg, k, rt) then v
    else if reg[k].kind == KindPortList then
      if v.s.None? || PortList.ParseProblems(v.s.value) != [] then v
      else Text(PortList.Formatted(PortList.Parsed(v.s.value)))
    else if reg[k].kind != KindInt then v
    else if v.i.None? || reg[k].floor == 0 || v.i.value >= reg[k].floor then v
    else Int(reg[k].floor)
  }

  function NormalNotes(reg: Registry, rt: Runtime, k: Key, v: Value): seq<Note> {
    if !AppliesTo(reg, k, rt) then []
    else if reg[k].kind == KindPortList then
      if v.s.None? || PortList.ParseProblems(v.s.value) != [] then []
      else
        var dropped := |PortList.Entries(v.s.value)| - |PortList.Parsed(v.s.value)|;
        if dropped > 0 then [RemovedDuplicates(k, dropped)] else []
    else if reg[k].kind != KindInt then []
    else if v.i.None? || reg[k].floor == 0 || v.i.value >= reg[k].floor then []
    else [Raised(k, v.i.value, reg[k].floor)]
  }

  function Normal(reg: Registry, rt: Runtime, vals: Values): Values {
    map k | k in vals :: NormalValue(reg, rt, k, vals[k])
  }

  function NotesOf(reg: Registry, rt: Runtime, vals: Values, keys: seq<Key>): seq<Note>
    requires forall i :: 0 <= i < |keys| ==> keys[i] in vals
  {
    if keys == [] then []
    else
      var k := keys[|keys| - 1];
      NotesOf(reg, rt, vals, keys[..|keys| - 1]) + NormalNotes(reg, rt, k, vals[k])
  }

  /** The values with the given keys normalised, one after the other. */
  function NormalOn(reg: Registry, rt: Runtime, vals: Values, keys: seq<Key>): (r: Values)
    requires forall i :: 0 <= i < |keys| ==> keys[i] in vals
    ensures r.Keys == vals.Keys
  {
    if keys == [] then vals
    else
      var k := keys[|keys| - 1];
      var r := NormalOn(reg, rt, vals, keys[..|keys| - 1]);
      r[k := NormalValue(reg, rt, k, r[k])]
  }

  lemma {:induction false} NormalOnIs(reg: Registry, rt: Runtime, vals: Values, keys: seq<Key>)
    requires forall i :: 0 <= i < |keys| ==> keys[i] in vals
    requires forall i, j :: 0 <= i < j < |keys| ==> keys[i] != keys[j]
    ensures forall k :: k in vals ==>
      NormalOn(reg, rt, vals, keys)[k] == if k in keys then NormalValue(reg, rt, k, vals[k]) else vals[k]
  {
    hide NormalValue;
    if keys != [] {
      var n := |keys| - 1;
      NormalOnIs(reg, rt, vals, keys[..n]);
      assert keys == keys[..n] + [keys[n]];
    }
  }

  method Normalize(reg: Registry, rt: Runtime, vals: Values) returns (out: Values, notes: seq<Note>)
    ensures out == Normal(reg, rt, vals)
    ensures (forall i :: 0 <= i < |Sorted(vals.Keys)| ==> Sorted(vals.Keys)[i] in vals)
            && notes == NotesOf(reg, rt, vals, Sorted(vals.Keys))
  {
    hide NormalValue, NormalNotes, Sorted, Ascending, Before;
    var keys := SortedListing(vals.Keys);
    assert forall k :: k in vals <==> k in Elements(keys);
    NormalOnIs(reg, rt, vals, keys);
    assert NormalOn(reg, rt, vals, keys) == Normal(reg, rt, vals);
    out, notes := NormalizeKeys(reg, rt, vals, keys);
  }

  method NormalizeKeys(reg: Registry, rt: Runtime, vals: Values, keys: seq<Key>) returns (out: Values, notes: seq<Note>)
    requires forall i :: 0 <= i < |keys| ==> keys[i] in vals
    requires forall i, j :: 0 <= i < j < |keys| ==> keys[i] != keys[j]
    ensures out == NormalOn(reg, rt, vals, keys) && notes == NotesOf(reg, rt, vals, keys)
  {
    hide NormalValue, NormalNotes;
    out := vals;
    notes := [];
    for n := 0 to |keys|
      invariant out == NormalOn(reg, rt, vals, keys[..n]) && notes == NotesOf(reg, rt, vals, keys[..n])
    {
      assert keys[..n + 1][..n] == keys[..n];
      NormalOnIs(reg, rt, vals, keys[..n]);
      assert keys[n] !in keys[..n];
      var v, more := NormalizeKey(reg, rt, keys[n], out[keys[n]]);
      out := out[keys[n] := v];
      notes := notes + more;
    }
    assert keys[..|keys|] == keys;
  }

  method NormalizeKey(reg: Registry, rt: Runtime, k: Key, v: Value) returns (r: Value, notes: seq<Note>)
    ensures r == NormalValue(reg, rt, k, v) && notes == NormalNotes(reg, rt, k, v)
  {
    r, notes := v, [];
    if !AppliesTo(reg, k, rt) {
      return;
    }
    var f := reg[k];
    if f.kind == KindPortList {
      if v.s.None? {
        return;
      }
      var ports, bad := PortList.ParsePortList(v.s.value);
      if |bad| > 0 {
        return;
      }
      var dropped := |PortList.Entries(v.s.value)| - |ports|;
      if dropped > 0 {
        notes := [RemovedDuplicates(k, dropped)];
      }
      var text := PortList.FormatPortList(ports);
      r := Text(text);
      return;
    }
    if f.kind != KindInt {
      return;
    }
    if v.i.None? || f.floor == 0 || v.i.value >= f.floor {
      return;
    }
    notes := [Raised(k, v.i.value, f.floor)];
    r := Int(f.floor);
  }

  /** Normal form is a fixed point, keeps what was valid valid, and puts a valid
      number between its bounds. */
  lemma {:induction false} NormalValueIsSettled(reg: Registry, rt: Runtime, k: Key, v: Value)
    requires WellFormed(reg)
    ensures NormalValue(reg, rt, k, NormalValue(reg, rt, k, v)) == NormalValue(reg, rt, k, v)
    ensures NormalNotes(reg, rt, k, NormalValue(reg, rt, k, v)) == []
    ensures Issues(reg, rt, k, v) == [] ==> Issues(reg, rt, k, NormalValue(reg, rt, k, v)) == []
    ensures Issues(reg, rt, k, v) == [] && reg[k].kind == KindInt && !v.IsZero() ==>
      var n := NormalValue(reg, rt, k, v).i; n.Some? && reg[k].min <= n.value <= reg[k].max
    ensures NormalValue(reg, rt, k, v).IsZero() <==> v.IsZero()
  {
    hide PortList.Formatted, PortList.Entries, PortList.ParseProblems, PortList.Parsed;
    if v.s.Some? {
      PortList.ParseOfFormat(PortList.Parsed(v.s.value));
      PortList.TypedListsAgree(v.s.value, v.s.value);
      PortList.AcceptedIsShort(v.s.value);
    }
  }

  /** `Normalize` twice is `Normalize` once: the values stay and there is nothing
      left to note; valid values stay valid. */
  lemma {:induction false} NormalizeSettles(reg: Registry, rt: Runtime, vals: Values)
    requires WellFormed(reg)
    ensures Normal(reg, rt, Normal(reg, rt, vals)) == Normal(reg, rt, vals)
    ensures forall k :: k in vals ==> NormalNotes(reg, rt, k, Normal(reg, rt, vals)[k]) == []
    ensures Valid(reg, rt, vals) ==> Valid(reg, rt, Normal(reg, rt, vals))
  {
    hide NormalValue, NormalNotes, Issues;
    forall k | k in vals
      ensures NormalValue(reg, rt, k, NormalValue(reg, rt, k, vals[k])) == NormalValue(reg, rt, k, vals[k])
      ensures NormalNotes(reg, rt, k, NormalValue(reg, rt, k, vals[k])) == []
      ensures Issues(reg, rt, k, vals[k]) == [] ==> Issues(reg, rt, k, NormalValue(reg, rt, k, vals[k])) == []
    {
      NormalValueIsSettled(reg, rt, k, vals[k]);
    }
  }

  // ---------- which values pass ----------

  /** A setting nobody knows, or that is not for this runtime, is refused; otherwise a
      value that says nothing passes. */
  lemma KnownSettingsPass(reg: Registry, rt: Runtime, k: Key, v: Value)
    ensures k !in reg ==> Issues(reg, rt, k, v) == [UnknownSetting(k)]
    ensures k in reg && rt !in reg[k].runtimes ==> Issues(reg, rt, k, v) == [NotForRuntime(k)]
    ensures k in reg && rt in reg[k].runtimes && v == NOTHING ==> Issues(reg, rt, k, v) == []
  {
  }

  /** A number passes exactly between its bounds; below the lower one also where it
      will be raised to a floor. */
  lemma NumbersPass(reg: Registry, rt: Runtime, k: Key, v: Value)
    requires AppliesTo(reg, k, rt) && v != NOTHING && reg[k].kind == KindInt
    ensures v.i.None? ==> Issues(reg, rt, k, v) == [NotAnInt(k)]
    ensures v.i.Some? && v.i.value > reg[k].max ==> Issues(reg, rt, k, v) == [AboveMax(k)]
    ensures v.i.Some? && v.i.value < reg[k].min <= reg[k].max && reg[k].floor == 0 ==> Issues(reg, rt, k, v) == [BelowMin(k)]
    ensures v.i.Some? && v.i.value <= reg[k].max && (reg[k].floor != 0 || reg[k].min <= v.i.value) ==>
              Issues(reg, rt, k, v) == []
  {
  }

  /** A flag, a word or a port list passes exactly if it is one, and one that is allowed. */
  lemma WordsPass(reg: Registry, rt: Runtime, k: Key, v: Value)
    requires AppliesTo(reg, k, rt) && v != NOTHING
    ensures reg[k].kind == KindBool ==> Issues(reg, rt, k, v) == if v.b.Some? then [] else [NotABool(k)]
    ensures reg[k].kind == KindEnum && v.s.None? ==> Issues(reg, rt, k, v) == [NotAnEnum(k)]
    ensures reg[k].kind == KindEnum && v.s.Some? ==>
              Issues(reg, rt, k, v) == if v.s.value in reg[k].allowed then [] else [NotAllowed(k)]
    ensures reg[k].kind == KindPortList && v.s.None? ==> Issues(reg, rt, k, v) == [NotAPortList(k)]
    ensures reg[k].kind == KindPortList && v.s.Some? ==>
              Issues(reg, rt, k, v) == PortIssues(k, PortList.ParseProblems(v.s.value))
  {
    hide PortList.ParseProblems;
  }

  lemma {:induction false} PortIssuesAre(k: Key, problems: seq<PortList.Problem>)
    ensures |PortIssues(k, problems)| == |problems|
    ensures forall i :: 0 <= i < |problems| ==> PortIssues(k, problems)[i] == BadPorts(k, problems[i])
  {
    if problems != [] { PortIssuesAre(k, problems[1..]); }
  }

  // ---------- which value is stored ----------

  /** The note says exactly that a number was raised, and from what to what. */
  predicate NotesRaise(notes: seq<Note>, k: Key, from: int, to: int) {
    if from < to then notes == [Raised(k, from, to)] else notes == []
  }

  /** A number is stored as the greater of itself and the floor, and untouched if that is
      itself. */
  lemma NumberIsRaised(reg: Registry, rt: Runtime, k: Key, v: Value)
    requires AppliesTo(reg, k, rt) && reg[k].kind == KindInt && v.i.Some? && reg[k].floor != 0
    ensures var r, notes := NormalValue(reg, rt, k, v), NormalNotes(reg, rt, k, v);
            && r.i.Some? && r.i.value >= v.i.value && r.i.value >= reg[k].floor
            && (r.i.value == v.i.value || r.i.value == reg[k].floor)
            && (v.i.value >= reg[k].floor ==> r == v) && (v.i.value < reg[k].floor ==> r == Int(r.i.value))
            && NotesRaise(notes, k, v.i.value, r.i.value)
  {
    hide PortList.Formatted;
  }

  /** An accepted port list is stored as a text that names the same ports; the note
      counts the entries that are not there any more. */
  lemma PortsAreKept(reg: Registry, rt: Runtime, k: Key, v: Value)
    requires AppliesTo(reg, k, rt) && reg[k].kind == KindPortList && v.s.Some? && PortList.ParseProblems(v.s.value) == []
    ensures var r, notes := NormalValue(reg, rt, k, v), NormalNotes(reg, rt, k, v);
            var dropped := |PortList.Entries(v.s.value)| - |PortList.Parsed(v.s.value)|;
            && r.s.Some? && r == Text(r.s.value) && PortList.Parsed(r.s.value) == PortList.Parsed(v.s.value)
            && |PortList.Entries(r.s.value)| == |PortList.Parsed(v.s.value)|
            && notes == if dropped > 0 then [RemovedDuplicates(k, dropped)] else []
  {
    hide PortList.Formatted, PortList.Entries, PortList.ParseProblems, PortList.Parsed;
    PortList.StoredNamesSame(v.s.value);
  }

  /** Everything else is stored as it is given, without a note. */
  lemma OthersAreStored(reg: Registry, rt: Runtime, k: Key, v: Value)
    requires || !AppliesTo(reg, k, rt) || reg[k].kind !in {KindPortList, KindInt}
             || (reg[k].kind == KindInt && (v.i.None? || reg[k].floor == 0))
             || (reg[k].kind == KindPortList && (v.s.None? || PortList.ParseProblems(v.s.value) != []))
    ensures NormalValue(reg, rt, k, v) == v && NormalNotes(reg, rt, k, v) == []
  {
    hide PortList.Formatted, PortList.Entries, PortList.ParseProblems, PortList.Parsed;
  }

  lemma {:induction false} NotesJoin(reg: Registry, rt: Runtime, vals: Values, keys: seq<Key>, more: seq<Key>)
    requires forall i :: 0 <= i < |keys| ==> keys[i] in vals
    requires forall i :: 0 <= i < |more| ==> more[i] in vals
    ensures NotesOf(reg, rt, vals, keys + more) == NotesOf(reg, rt, vals, keys) + NotesOf(reg, rt, vals, more)
    ensures |keys| == 1 ==> NotesOf(reg, rt, vals, keys) == NormalNotes(reg, rt, keys[0], vals[keys[0]])
  {
    hide NormalNotes;
    if more == [] {
      assert keys + more == keys;
    } else {
      NotesJoin(reg, rt, vals, keys, more[..|more| - 1]);
      assert (keys + more)[..|keys + more| - 1] == keys + more[..|more| - 1];
    }
  }

  // ---------- where a value comes from ----------

  /** The device's own value, else the fleet's, else what is built in, and each says so. */
  lemma OriginIsTold(f: Field, fleet: Values, device: Values)
    ensures var r := ResolveField(f, fleet, device);
            && r.key == f.key
            && (f.key in device && !device[f.key].IsZero() ==> r.origin == Device && r.value == device[f.key])
            && (!(f.key in device && !device[f.key].IsZero()) && f.key in fleet && !fleet[f.key].IsZero() ==>
                  r.origin == Fleet && r.value == fleet[f.key])
            && (!(f.key in device && !device[f.key].IsZero()) && !(f.key in fleet && !fleet[f.key].IsZero()) ==>
                  r.origin == BuiltIn && r.value == f.default)
  {
  }
}
