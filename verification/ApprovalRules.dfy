/**
 Auto-approval rules: queries over a discovery, with the reading of a rule's own
 scope that keeps prefix rules away from what a cloud provider lists.
 */
module ApprovalRules {
  import opened Options
  import opened WhiteSpace
  import opened Wildcards

  // ---------- queries and what they mean ----------

  datatype Verdict = No | Unknown | Yes

  datatype Op = Colon | Eq | Ne | Less | LessEq | More | MoreEq

  datatype Literal = Literal(value: string, bare: bool) {
    predicate IsWildcard() { bare && '*' in value }
    predicate IsStar() { bare && value == "*" }
  }

  /** The columns of a discovery. `Keyword`, `Number` and `Timestamp` stand for the columns
      compared as those types, `Other` for the rest. */
  datatype Column =
    | Source
    | Prefix
    | Keyword(name: string)
    | Number(name: string)
    | Timestamp(name: string)
    | Other(name: string)

  datatype Value = Text(text: string) | Measure(number: real) | Instant(at: int)

  /** What was measured; a column that is missing was not. */
  type Observation = map<Column, Value>

  datatype Query =
    | Everything
    | And(children: seq<Query>)
    | Or(children: seq<Query>)
    | Not(child: Query)
    | Compare(column: Column, op: Op, literal: Literal)
    | InSet(column: Column, literals: seq<Literal>, negated: bool)
    | Exists(column: Column)
    | Matches(column: Column, regex: string)
    | Between(column: Column, low: Literal, high: Literal)

  /** Comparisons that are not this model's subject: of the remaining types, of regular
      expressions, the reading of numbers, dates and prefix ids. */
  datatype Judges = Judges(
    other: (Op, Literal, Value) -> Verdict,
    regex: (string, Value) -> bool,
    number: string -> real,
    date: string -> int,
    prefixID: string -> Option<string>)

  function Holds(b: bool): Verdict { if b then Yes else No }

  function Negate(v: Verdict): Verdict {
    match v
    case No => Yes
    case Yes => No
    case Unknown => Unknown
  }

  function CompareText(op: Op, lit: Literal, got: string): Verdict {
    match op
    case Eq | Ne => Holds(if lit.IsWildcard() then Glob(lit.value, got) else got == lit.value)
    case Colon =>
      Holds(if lit.IsWildcard() then Glob(Lower(lit.value), Lower(got)) else Lower(got) == Lower(lit.value))
    case _ => No
  }

  /** -1, 0 or 1 as what was measured is below, at or above what is asked. */
  function Order(got: real, want: real): int { if got < want then -1 else if got > want then 1 else 0 }

  function CompareOrdered(op: Op, order: int): Verdict {
    match op
    case Colon | Eq => Holds(order == 0)
    case Ne => Holds(order != 0)
    case Less => Holds(order < 0)
    case LessEq => Holds(order <= 0)
    case More => Holds(order > 0)
    case MoreEq => Holds(order >= 0)
  }

  /** One operator on one measured value, by the column's type. */
  function CompareValue(j: Judges, c: Column, op: Op, lit: Literal, v: Value): Verdict {
    match (c, v)
    case (Number(_), Measure(got)) => CompareOrdered(op, Order(got, j.number(lit.value)))
    case (Timestamp(_), Instant(got)) => CompareOrdered(op, Order(got as real, j.date(lit.value) as real))
    case (Source, Text(got)) => CompareText(op, lit, got)
    case (Prefix, Text(got)) => CompareText(op, lit, got)
    case (Keyword(_), Text(got)) => CompareText(op, lit, got)
    case _ => j.other(op, lit, v)
  }

  function Eval(j: Judges, q: Query, o: Observation): Verdict {
    match q
    case Everything => Yes
    case And(qs) =>
      if exists i :: 0 <= i < |qs| && Eval(j, qs[i], o) == No then No
      else if exists i :: 0 <= i < |qs| && Eval(j, qs[i], o) == Unknown then Unknown
      else Yes
    case Or(qs) =>
      if exists i :: 0 <= i < |qs| && Eval(j, qs[i], o) == Yes then Yes
      else if exists i :: 0 <= i < |qs| && Eval(j, qs[i], o) == Unknown then Unknown
      else No
    case Not(child) => Negate(Eval(j, child, o))
    case Compare(c, op, lit) =>
      if op == Colon && lit.IsStar() then Holds(c in o)
      else if c !in o then Unknown
      else
        var r := CompareValue(j, c, op, lit, o[c]);
        if op == Ne then Negate(r) else r
    case InSet(c, lits, negated) =>
      if c !in o then Unknown
      else
        var r :=
          if exists i :: 0 <= i < |lits| && CompareValue(j, c, Colon, lits[i], o[c]) == Yes then Yes
          else if exists i :: 0 <= i < |lits| && CompareValue(j, c, Colon, lits[i], o[c]) == Unknown then Unknown
          else No;
        if negated then Negate(r) else r
    case Exists(c) => Holds(c in o)
    case Matches(c, regex) => if c in o then Holds(j.regex(regex, o[c])) else Unknown
    case Between(c, low, high) =>
      if c !in o then Unknown
      else
        var r := CompareValue(j, c, MoreEq, low, o[c]);
        if r != Yes then r else CompareValue(j, c, LessEq, high, o[c])
  }

  predicate IsOrdered(c: Column) { c.Number? || c.Timestamp? }

  /** Does a value have its column's type? */
  predicate HasType(c: Column, v: Value) {
    match c
    case Number(_) => v.Measure?
    case Timestamp(_) => v.Instant?
    case Other(_) => false
    case _ => v.Text?
  }

  /** `!=` is the negation of `=` on a measured value, except on numbers and timestamps:
      there the comparison is negated twice, and `!=` asks what `=` asks. */
  lemma NotEqualIsNegated(j: Judges, c: Column, lit: Literal, o: Observation)
    requires c in o && HasType(c, o[c])
    ensures Eval(j, Compare(c, Eq, lit), o) != Unknown
    ensures Eval(j, Compare(c, Ne, lit), o) ==
              if IsOrdered(c) then Eval(j, Compare(c, Eq, lit), o) else Negate(Eval(j, Compare(c, Eq, lit), o))
  {
  }

  // ---------- a rule's scope ----------

  const CLOUD := "cloud"

  predicate IsCloud(lit: Literal) { Lower(Trim(lit.value)) == CLOUD }

  predicate ScopesPrefix(q: Query) {
    match q
    case And(qs) => exists i :: 0 <= i < |qs| && ScopesPrefix(qs[i])
    case Or(qs) => exists i :: 0 <= i < |qs| && ScopesPrefix(qs[i])
    case Not(child) => ScopesPrefix(child)
    case Compare(c, _, _) => c == Prefix
    case Exists(c) => c == Prefix
    case _ => false
  }

  /** Does the query, under an odd number of negations or not, name the cloud source? */
  predicate NamesCloud(q: Query, negated: bool) {
    match q
    case And(qs) => exists i :: 0 <= i < |qs| && NamesCloud(qs[i], negated)
    case Or(qs) => exists i :: 0 <= i < |qs| && NamesCloud(qs[i], negated)
    case Not(child) => NamesCloud(child, !negated)
    case Compare(c, op, lit) =>
      c == Source && IsCloud(lit) && (((op == Eq || op == Colon) && !negated) || (op == Ne && negated))
    case InSet(c, lits, n) => c == Source && n == negated && exists i :: 0 <= i < |lits| && IsCloud(lits[i])
    case _ => false
  }

  /** What the walk over a query has found so far. */
  class RuleScope {
    var prefix: bool
    var cloud: bool

    constructor ()
      ensures !prefix && !cloud
    {
      prefix, cloud := false, false;
    }

    method Walk(q: Query, negated: bool)
      modifies this
      ensures prefix == (old(prefix) || ScopesPrefix(q))
      ensures cloud == (old(cloud) || NamesCloud(q, negated))
      decreases q
    {
      hide IsCloud;
      match q
      case And(qs) => WalkAll(qs, negated);
      case Or(qs) => WalkAll(qs, negated);
      case Not(child) => Walk(child, !negated);
      case Compare(c, op, lit) =>
        match c {
          case Prefix => prefix := true;
          case Source =>
            if !IsCloud(lit) {
              return;
            }
            match op {
              case Eq | Colon => cloud := cloud || !negated;
              case Ne => cloud := cloud || negated;
              case _ =>
            }
          case _ =>
        }
      case InSet(c, lits, n) =>
        if c != Source {
          return;
        }
        for i := 0 to |lits|
          invariant prefix == old(prefix)
          invariant cloud == (old(cloud) || (n == negated && exists k :: 0 <= k < i && IsCloud(lits[k])))
        {
          if IsCloud(lits[i]) && n == negated {
            cloud := true;
          }
        }
      case Exists(c) =>
        if c == Prefix {
          prefix := true;
        }
      case _ =>
    }

    method WalkAll(qs: seq<Query>, negated: bool)
      modifies this
      ensures prefix == (old(prefix) || exists i :: 0 <= i < |qs| && ScopesPrefix(qs[i]))
      ensures cloud == (old(cloud) || exists i :: 0 <= i < |qs| && NamesCloud(qs[i], negated))
      decreases qs
    {
      for i := 0 to |qs|
        invariant prefix == (old(prefix) || exists k :: 0 <= k < i && ScopesPrefix(qs[k]))
        invariant cloud == (old(cloud) || exists k :: 0 <= k < i && NamesCloud(qs[k], negated))
      {
        Walk(qs[i], negated);
      }
    }
  }

  // ---------- not naming cloud ----------

  predicate Below(a: Verdict, b: Verdict) { a == No || b == Yes || a == b }

  /** No term names the source x, and what patterns the query has treat x as they
      treat cloud. */
  ghost predicate Alike(j: Judges, q: Query, x: string) {
    match q
    case And(qs) => forall i :: 0 <= i < |qs| ==> Alike(j, qs[i], x)
    case Or(qs) => forall i :: 0 <= i < |qs| ==> Alike(j, qs[i], x)
    case Not(child) => Alike(j, child, x)
    case Compare(c, _, lit) => c == Source ==> LiteralAlike(lit, x)
    case InSet(c, lits, _) => c == Source ==> forall i :: 0 <= i < |lits| ==> LiteralAlike(lits[i], x)
    case Matches(c, regex) => c == Source ==> j.regex(regex, Text(CLOUD)) == j.regex(regex, Text(x))
    case _ => true
  }

  predicate LiteralAlike(lit: Literal, x: string) {
    if lit.IsWildcard() then
      && Glob(lit.value, CLOUD) == Glob(lit.value, x)
      && Glob(Lower(lit.value), Lower(CLOUD)) == Glob(Lower(lit.value), Lower(x))
    else Lower(x) != Lower(lit.value)
  }

  /** A literal that reads as cloud in a comparison is one the scope reads as cloud. */
  lemma OnlyCloudIsCloud(lit: Literal)
    requires Lower(lit.value) == Lower(CLOUD)
    ensures IsCloud(lit) && Lower(CLOUD) == CLOUD
  {
    var v := lit.value;
    assert Lower(CLOUD) == CLOUD;
    assert |v| == 5 && LowerChar(v[0]) == 'c' && LowerChar(v[4]) == 'd';
    assert IsSolid(v[0]) && IsSolid(v[4]);
    TrimUnpadded(v);
  }

  ghost predicate NoHelp(j: Judges, q: Query, negated: bool, o: Observation, x: string) {
    var was, now := Eval(j, q, o), Eval(j, q, o[Source := Text(x)]);
    if negated then Below(now, was) else Below(was, now)
  }

  lemma TermIsNoHelp(j: Judges, q: Query, negated: bool, o: Observation, x: string)
    requires q.Compare? || q.InSet? || q.Exists? || q.Matches? || q.Between?
    requires Source in o && o[Source] == Text(CLOUD)
    requires Alike(j, q, x) && !NamesCloud(q, negated)
    ensures NoHelp(j, q, negated, o, x)
  {
    hide Glob, IsCloud;
    if q.column != Source {
      assert q.column in o <==> q.column in o[Source := Text(x)];
    } else if q.Compare? {
      LiteralIsNoHelp(q.literal, x);
    } else if q.InSet? {
      forall i | 0 <= i < |q.literals|
        ensures CompareText(Colon, q.literals[i], CLOUD) == CompareText(Colon, q.literals[i], x) || IsCloud(q.literals[i])
        ensures IsCloud(q.literals[i]) ==> Below(CompareText(Colon, q.literals[i], x), CompareText(Colon, q.literals[i], CLOUD))
      {
        LiteralIsNoHelp(q.literals[i], x);
      }
      hide CompareText;
    }
  }

  /** A literal compares with x as it does with cloud, unless it reads as cloud; then
      nothing compares better with it. */
  lemma LiteralIsNoHelp(lit: Literal, x: string)
    requires LiteralAlike(lit, x)
    ensures forall op :: CompareText(op, lit, CLOUD) == CompareText(op, lit, x) || IsCloud(lit)
    ensures forall op :: Below(CompareText(op, lit, x), CompareText(op, lit, CLOUD))
  {
    hide Glob, IsCloud;
    if Lower(lit.value) == Lower(CLOUD) { OnlyCloudIsCloud(lit); }
  }

  lemma {:induction false} NamingMatters(j: Judges, q: Query, negated: bool, o: Observation, x: string)
    requires Source in o && o[Source] == Text(CLOUD)
    requires Alike(j, q, x) && !NamesCloud(q, negated)
    ensures NoHelp(j, q, negated, o, x)
  {
    hide Glob, CompareValue;
    match q
    case Everything =>
    case And(qs) =>
      forall i | 0 <= i < |qs| ensures NoHelp(j, qs[i], negated, o, x) {
        NamingMatters(j, qs[i], negated, o, x);
      }
    case Or(qs) =>
      forall i | 0 <= i < |qs| ensures NoHelp(j, qs[i], negated, o, x) {
        NamingMatters(j, qs[i], negated, o, x);
      }
    case Not(child) => NamingMatters(j, child, !negated, o, x);
    case _ => TermIsNoHelp(j, q, negated, o, x);
  }

  /** A rule that does not name the cloud source has no favour for it: what it approves
      of a cloud's listing it would approve of any source it does not name. */
  lemma CloudIsNoHelp(j: Judges, q: Query, o: Observation, x: string)
    requires Source in o && o[Source] == Text(CLOUD)
    requires Alike(j, q, x) && !NamesCloud(q, false)
    ensures Eval(j, q, o) == Yes ==> Eval(j, q, o[Source := Text(x)]) == Yes
  {
    NamingMatters(j, q, false, o, x);
  }

  /** A pattern can single out the cloud source without naming it. */
  lemma PatternsAreNotNames(j: Judges)
    ensures var q := Compare(Source, Colon, Literal("c*", true));
            && !NamesCloud(q, false)
            && Eval(j, q, map[Source := Text(CLOUD)]) == Yes
            && Eval(j, q, map[Source := Text("sensor")]) == No
  {
    hide Glob, IsCloud, Literal.IsWildcard;
    var lit := Literal("c*", true);
    PatternIsNoName(lit);
    FirstThenAny(Lower("c*"), Lower(CLOUD));
    FirstThenAny(Lower("c*"), Lower("sensor"));
    assert CompareText(Colon, lit, CLOUD) == Yes && CompareText(Colon, lit, "sensor") == No;
  }

  lemma PatternIsNoName(lit: Literal)
    requires lit == Literal("c*", true)
    ensures !IsCloud(lit) && lit.IsWildcard()
  {
    assert IsSolid('c') && IsSolid('*') && lit.value[1] == '*';
    TrimUnpadded(lit.value);
    hide Trim;
  }

  lemma FirstThenAny(pattern: string, value: string)
    requires |pattern| == 2 && pattern[0] != '*' && pattern[1] == '*'
    ensures Glob(pattern, value) <==> value != "" && value[0] == pattern[0]
  {
    assert pattern[1..] == "*";
    if value != "" { StarMatchesAll(value[1..]); }
  }

  lemma {:induction false} StarMatchesAll(value: string)
    ensures Glob("*", value)
  {
    if value == "" { assert "*"[1..] == ""; } else { StarMatchesAll(value[1..]); }
  }

  // ---------- reading the prefix ----------

  predicate ReadsPrefix(q: Query) {
    match q
    case Everything => false
    case And(qs) => exists i :: 0 <= i < |qs| && ReadsPrefix(qs[i])
    case Or(qs) => exists i :: 0 <= i < |qs| && ReadsPrefix(qs[i])
    case Not(child) => ReadsPrefix(child)
    case _ => q.column == Prefix
  }

  /** Does some `in` list read the prefix? */
  predicate ListsPrefix(q: Query) {
    match q
    case And(qs) => exists i :: 0 <= i < |qs| && ListsPrefix(qs[i])
    case Or(qs) => exists i :: 0 <= i < |qs| && ListsPrefix(qs[i])
    case Not(child) => ListsPrefix(child)
    case InSet(c, _, _) => c == Prefix
    case _ => false
  }

  /** What validation leaves of the prefix column: no regular expressions, no ranges. */
  predicate Valid(q: Query) {
    match q
    case And(qs) => forall i :: 0 <= i < |qs| ==> Valid(qs[i])
    case Or(qs) => forall i :: 0 <= i < |qs| ==> Valid(qs[i])
    case Not(child) => Valid(child)
    case Matches(c, _) => c != Prefix
    case Between(c, _, _) => c != Prefix
    case _ => true
  }

  /** The scope sees every reading of the prefix but those in lists. */
  lemma {:induction false} ReadingsAreSeen(q: Query)
    requires Valid(q)
    ensures ReadsPrefix(q) <==> ScopesPrefix(q) || ListsPrefix(q)
  {
    match q
    case And(qs) => forall i | 0 <= i < |qs| ensures ReadsPrefix(qs[i]) <==> ScopesPrefix(qs[i]) || ListsPrefix(qs[i]) {
        ReadingsAreSeen(qs[i]);
      }
    case Or(qs) => forall i | 0 <= i < |qs| ensures ReadsPrefix(qs[i]) <==> ScopesPrefix(qs[i]) || ListsPrefix(qs[i]) {
        ReadingsAreSeen(qs[i]);
      }
    case Not(child) => ReadingsAreSeen(child);
    case _ =>
  }

  /** Do two discoveries differ at most in the prefix they lie in? */
  ghost predicate SameElsewhere(o: Observation, o': Observation) { o - {Prefix} == o' - {Prefix} }

  lemma ElsewhereIsSame(o: Observation, o': Observation, c: Column)
    requires SameElsewhere(o, o') && c != Prefix
    ensures c in o <==> c in o'
    ensures c in o ==> o[c] == o'[c]
  {
    assert c in o <==> c in o - {Prefix};
    assert c in o' <==> c in o' - {Prefix};
    if c in o && c in o' { assert (o - {Prefix})[c] == o[c] && (o' - {Prefix})[c] == o'[c]; }
  }

  lemma {:induction false} UnreadIsUnused(j: Judges, q: Query, o: Observation, o': Observation)
    requires SameElsewhere(o, o') && !ReadsPrefix(q)
    ensures Eval(j, q, o) == Eval(j, q, o')
  {
    hide CompareValue, SameElsewhere;
    match q
    case Everything =>
    case And(qs) =>
      forall i | 0 <= i < |qs| ensures Eval(j, qs[i], o) == Eval(j, qs[i], o') { UnreadIsUnused(j, qs[i], o, o'); }
    case Or(qs) =>
      forall i | 0 <= i < |qs| ensures Eval(j, qs[i], o) == Eval(j, qs[i], o') { UnreadIsUnused(j, qs[i], o, o'); }
    case Not(child) => UnreadIsUnused(j, child, o, o');
    case _ => ElsewhereIsSame(o, o', q.column);
  }

  // ---------- deciding ----------

  /** `query` is missing where it does not parse; `valid` says whether the rest of the
      checks pass. */
  datatype Rule = Rule(id: nat, active: bool, query: Option<Query>, valid: bool)

  predicate IsCloudListing(o: Observation) { Source in o && o[Source] == Text(CLOUD) }

  /** A rule that fails to compile, or names both a prefix and cloud, approves nothing. */
  predicate Approves(j: Judges, r: Rule, o: Observation) {
    && r.active && r.valid && r.query.Some?
    && !(ScopesPrefix(r.query.value) && NamesCloud(r.query.value, false))
    && !(IsCloudListing(o) && ScopesPrefix(r.query.value))
    && Eval(j, r.query.value, o) == Yes
  }

  /** The prefix of the first `prefix_id = …` term in source order, negated or not. */
  function PrefixOf(j: Judges, q: Query): Option<string>
    decreases q
  {
    match q
    case And(qs) => PrefixAmong(j, qs)
    case Or(qs) => PrefixAmong(j, qs)
    case Not(child) => PrefixOf(j, child)
    case Compare(c, op, lit) => if c == Prefix && (op == Eq || op == Colon) then j.prefixID(lit.value) else None
    case _ => None
  }

  function PrefixAmong(j: Judges, qs: seq<Query>): Option<string>
    decreases qs
  {
    if qs == [] then None
    else if PrefixOf(j, qs[0]).Some? then PrefixOf(j, qs[0])
    else PrefixAmong(j, qs[1..])
  }

  /** Is this one of the rules of the prefix the discovery lies in? */
  predicate IsOwn(j: Judges, r: Rule, o: Observation) {
    Prefix in o && o[Prefix].Text? && r.query.Some? && PrefixOf(j, r.query.value) == Some(o[Prefix].text)
  }

  function Own(j: Judges, rules: seq<Rule>, o: Observation): seq<Rule> {
    if rules == [] then []
    else
      var r := rules[|rules| - 1];
      Own(j, rules[..|rules| - 1], o) + if IsOwn(j, r, o) then [r] else []
  }

  /** A prefix with rules of its own is decided by those alone. */
  function Narrowed(j: Judges, rules: seq<Rule>, o: Observation): seq<Rule> {
    if Own(j, rules, o) == [] then rules else Own(j, rules, o)
  }

  method PrefixFirst(j: Judges, rules: seq<Rule>, o: Observation) returns (narrowed: seq<Rule>)
    ensures narrowed == Narrowed(j, rules, o)
  {
    var scoped := [];
    for i := 0 to |rules|
      invariant scoped == Own(j, rules[..i], o)
    {
      assert rules[..i + 1][..i] == rules[..i];
      if IsOwn(j, rules[i], o) {
        scoped := scoped + [rules[i]];
      }
    }
    assert rules[..|rules|] == rules;
    narrowed := if |scoped| == 0 then rules else scoped;
  }

  lemma {:induction false} OwnIsExact(j: Judges, rules: seq<Rule>, o: Observation, r: Rule)
    ensures r in Own(j, rules, o) <==> r in rules && IsOwn(j, r, o)
  {
    if rules != [] {
      OwnIsExact(j, rules[..|rules| - 1], o, r);
      assert rules == rules[..|rules| - 1] + [rules[|rules| - 1]];
    }
  }

  /** The first of these rules to approve. */
  function FirstApproving(j: Judges, rules: seq<Rule>, o: Observation): Option<nat> {
    if rules == [] then None
    else if Approves(j, rules[0], o) then Some(rules[0].id)
    else FirstApproving(j, rules[1..], o)
  }

  function Decision(j: Judges, rules: seq<Rule>, o: Observation, thirdParty: bool): Option<nat> {
    if thirdParty then None else FirstApproving(j, Narrowed(j, rules, o), o)
  }

  method EvaluateAutoApproval(j: Judges, rules: seq<Rule>, o: Observation, thirdParty: bool)
    returns (approvedBy: Option<nat>)
    ensures approvedBy == Decision(j, rules, o, thirdParty)
  {
    hide Approves, Narrowed;
    if thirdParty {
      return None;
    }
    var narrowed := PrefixFirst(j, rules, o);
    assert narrowed[0..] == narrowed;
    for i := 0 to |narrowed|
      invariant FirstApproving(j, narrowed[i..], o) == FirstApproving(j, narrowed, o)
    {
      assert narrowed[i..][0] == narrowed[i] && narrowed[i..][1..] == narrowed[i + 1..];
      if Approves(j, narrowed[i], o) {
        return Some(narrowed[i].id);
      }
    }
    return None;
  }

  lemma {:induction false} FirstApprovingIsExact(j: Judges, rules: seq<Rule>, o: Observation)
    ensures FirstApproving(j, rules, o).Some? <==> exists r :: r in rules && Approves(j, r, o)
  {
    hide Approves;
    if rules != [] {
      FirstApprovingIsExact(j, rules[1..], o);
      assert forall r :: r in rules <==> r == rules[0] || r in rules[1..] by { assert rules == [rules[0]] + rules[1..]; }
    }
  }

  /** A discovery is approved exactly if some rule approves it that is its prefix's own,
      or that is anyone's where the prefix has none. */
  lemma ApprovedExactlyWhen(j: Judges, rules: seq<Rule>, o: Observation, thirdParty: bool)
    ensures Decision(j, rules, o, thirdParty).Some? <==> !thirdParty && IsApproved(j, rules, o)
  {
    hide Approves, IsOwn;
    FirstApprovingIsExact(j, Narrowed(j, rules, o), o);
    forall r ensures r in Own(j, rules, o) <==> r in rules && IsOwn(j, r, o) { OwnIsExact(j, rules, o, r); }
    assert Own(j, rules, o) != [] ==> Own(j, rules, o)[0] in Own(j, rules, o);
    hide Own;
  }

  ghost predicate IsApproved(j: Judges, rules: seq<Rule>, o: Observation) {
    exists r :: r in rules && Approves(j, r, o) && (IsOwn(j, r, o) || forall r' :: r' in rules ==> !IsOwn(j, r', o))
  }

  // ---------- cloud listings ----------

  lemma {:induction false} OwnersScope(j: Judges, q: Query)
    requires PrefixOf(j, q).Some?
    ensures ScopesPrefix(q)
    decreases q
  {
    match q
    case And(qs) => var i := OwnerAmong(j, qs); OwnersScope(j, qs[i]);
    case Or(qs) => var i := OwnerAmong(j, qs); OwnersScope(j, qs[i]);
    case Not(child) => OwnersScope(j, child);
    case _ =>
  }

  lemma {:induction false} OwnerAmong(j: Judges, qs: seq<Query>) returns (i: nat)
    requires PrefixAmong(j, qs).Some?
    ensures i < |qs| && PrefixOf(j, qs[i]).Some?
  {
    if PrefixOf(j, qs[0]).Some? { i := 0; } else { i := OwnerAmong(j, qs[1..]); i := i + 1; }
  }

  /** The rule a cloud integration stands for: that account's listings. */
  function AccountRule(account: string): Query {
    And([Compare(Source, Colon, Literal(CLOUD, true)), Compare(Keyword("cloud_account_id"), Eq, Literal(account, false))])
  }

  /** A listing in an account that is to be approved is approved, exactly unless the
      prefix it lies in has rules of its own: those shut the account's rule out and
      approve no listing themselves. */
  lemma AccountDecidesExactlyWhen(j: Judges, rules: seq<Rule>, o: Observation, account: string, r: Rule)
    requires r in rules && r.active && r.valid && r.query == Some(AccountRule(account))
    requires IsCloudListing(o) && Keyword("cloud_account_id") in o && o[Keyword("cloud_account_id")] == Text(account)
    ensures Decision(j, rules, o, false).Some? <==> forall r' :: r' in rules ==> !IsOwn(j, r', o)
  {
    AccountRuleApproves(j, o, account, r);
    forall r' | IsOwn(j, r', o) ensures !Approves(j, r', o) {
      OwnersScope(j, r'.query.value);
    }
    ApprovedExactlyWhen(j, rules, o, false);
    hide IsOwn, Approves, Decision;
  }

  lemma AccountRuleApproves(j: Judges, o: Observation, account: string, r: Rule)
    requires r.active && r.valid && r.query == Some(AccountRule(account))
    requires IsCloudListing(o) && Keyword("cloud_account_id") in o && o[Keyword("cloud_account_id")] == Text(account)
    ensures Approves(j, r, o)
  {
    var qs := AccountRule(account).children;
    assert Eval(j, qs[0], o) == Yes && Eval(j, qs[1], o) == Yes;
    assert !ScopesPrefix(qs[0]) && !ScopesPrefix(qs[1]);
  }

  /** A rule that lists no prefix, or that the scope sees reading it, decides a listing
      alike in every prefix and in none. */
  lemma PrefixIsNoHelp(j: Judges, r: Rule, o: Observation, o': Observation)
    requires r.query.Some? && Valid(r.query.value)
    requires ScopesPrefix(r.query.value) || !ListsPrefix(r.query.value)
    requires IsCloudListing(o) && SameElsewhere(o, o')
    ensures Approves(j, r, o) <==> Approves(j, r, o')
  {
    ElsewhereIsSame(o, o', Source);
    if !ScopesPrefix(r.query.value) {
      ReadingsAreSeen(r.query.value);
      UnreadIsUnused(j, r.query.value, o, o');
    }
  }

  /** With a list it can depend on the prefix: such a rule approves the listings there. */
  lemma ListsAreUnseen(j: Judges, id: string)
    ensures var q := InSet(Prefix, [Literal(id, false)], false);
            var o := map[Source := Text(CLOUD), Prefix := Text(id)];
            && Valid(q) && !ScopesPrefix(q)
            && Approves(j, Rule(0, true, Some(q), true), o)
            && !Approves(j, Rule(0, true, Some(q), true), o - {Prefix})
  {
    var lits := [Literal(id, false)];
    assert CompareValue(j, Prefix, Colon, lits[0], Text(id)) == Yes;
  }
}
