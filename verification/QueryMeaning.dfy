/**
 What the terms of a query mean: the three-valued connectives as a lattice, the
 comparisons by the relation they ask for, lists and ranges by what they stand for.
 */
module QueryMeaning {
  import opened ApprovalRules
  import opened Options
  import opened WhiteSpace
  import opened Wildcards

  /** No below Unknown below Yes. */
  function Rank(v: Verdict): int {
    match v
    case No => 0
    case Unknown => 1
    case Yes => 2
  }

  /** A conjunction is the least of its children. */
  lemma AndIsLeast(j: Judges, qs: seq<Query>, o: Observation)
    ensures var r := Eval(j, And(qs), o);
            && (forall i :: 0 <= i < |qs| ==> Rank(r) <= Rank(Eval(j, qs[i], o)))
            && (r == Yes || exists i :: 0 <= i < |qs| && Eval(j, qs[i], o) == r)
  {
  }

  /** A disjunction is the greatest. */
  lemma OrIsGreatest(j: Judges, qs: seq<Query>, o: Observation)
    ensures var r := Eval(j, Or(qs), o);
            && (forall i :: 0 <= i < |qs| ==> Rank(Eval(j, qs[i], o)) <= Rank(r))
            && (r == No || exists i :: 0 <= i < |qs| && Eval(j, qs[i], o) == r)
  {
  }

  lemma NotReverses(j: Judges, q: Query, o: Observation)
    ensures Rank(Eval(j, Not(q), o)) == 2 - Rank(Eval(j, q, o))
  {
  }

  ghost function AllNot(qs: seq<Query>): (ns: seq<Query>)
    ensures |ns| == |qs| && forall i :: 0 <= i < |ns| ==> ns[i] == Not(qs[i])
  {
    seq(|qs|, i requires 0 <= i < |qs| => Not(qs[i]))
  }

  /** De Morgan's laws hold with Unknown as well. */
  lemma {:induction false} DeMorgan(j: Judges, qs: seq<Query>, o: Observation)
    ensures Eval(j, Not(And(qs)), o) == Eval(j, Or(AllNot(qs)), o)
    ensures Eval(j, Not(Or(qs)), o) == Eval(j, And(AllNot(qs)), o)
  {
    hide Eval;
    AndIsLeast(j, qs, o);
    OrIsGreatest(j, qs, o);
    AndIsLeast(j, AllNot(qs), o);
    OrIsGreatest(j, AllNot(qs), o);
    NotReverses(j, And(qs), o);
    NotReverses(j, Or(qs), o);
    forall i | 0 <= i < |qs| ensures Rank(Eval(j, AllNot(qs)[i], o)) == 2 - Rank(Eval(j, qs[i], o)) {
      NotReverses(j, qs[i], o);
    }
  }

  // ---------- terms ----------

  /** A term on what was not measured is neither true nor false, except the question
      whether it was. */
  lemma UnmeasuredIsUnknown(j: Judges, c: Column, o: Observation, op: Op, lit: Literal, lits: seq<Literal>,
                            negated: bool, regex: string, low: Literal, high: Literal)
    requires c !in o
    ensures Eval(j, Exists(c), o) == No && Eval(j, InSet(c, lits, negated), o) == Unknown
    ensures Eval(j, Matches(c, regex), o) == Unknown && Eval(j, Between(c, low, high), o) == Unknown
    ensures Eval(j, Compare(c, op, lit), o) == if op == Colon && lit.bare && lit.value == "*" then No else Unknown
  {
  }

  lemma MeasuredExists(j: Judges, c: Column, o: Observation)
    requires c in o
    ensures Eval(j, Exists(c), o) == Yes == Eval(j, Compare(c, Colon, Literal("*", true)), o)
    ensures Eval(j, Everything, map[]) == Yes == Eval(j, Everything, o)
  {
  }

  /** An ordering comparison on a number holds exactly if the measured number is so
      related to the one that is asked for. */
  lemma NumbersCompare(j: Judges, c: Column, lit: Literal, o: Observation)
    requires c.Number? && c in o && o[c].Measure? && !(lit.bare && lit.value == "*")
    ensures var got, want := o[c].number, j.number(lit.value);
            && (Eval(j, Compare(c, Less, lit), o) == if got < want then Yes else No)
            && (Eval(j, Compare(c, LessEq, lit), o) == if got <= want then Yes else No)
            && (Eval(j, Compare(c, More, lit), o) == if got > want then Yes else No)
            && (Eval(j, Compare(c, MoreEq, lit), o) == if got >= want then Yes else No)
            && (Eval(j, Compare(c, Eq, lit), o) == if got == want then Yes else No)
            && (Eval(j, Compare(c, Colon, lit), o) == if got == want then Yes else No)
  {
  }

  /** A range holds exactly if the measured number lies in it, its ends included. */
  lemma NumbersRange(j: Judges, c: Column, low: Literal, high: Literal, o: Observation)
    requires c.Number? && c in o && o[c].Measure?
    ensures Eval(j, Between(c, low, high), o) ==
              if j.number(low.value) <= o[c].number <= j.number(high.value) then Yes else No
  {
  }

  /** The same for instants. */
  lemma InstantsCompare(j: Judges, c: Column, lit: Literal, o: Observation)
    requires c.Timestamp? && c in o && o[c].Instant? && !(lit.bare && lit.value == "*")
    ensures var got, want := o[c].at, j.date(lit.value);
            && (Eval(j, Compare(c, Less, lit), o) == if got < want then Yes else No)
            && (Eval(j, Compare(c, LessEq, lit), o) == if got <= want then Yes else No)
            && (Eval(j, Compare(c, More, lit), o) == if got > want then Yes else No)
            && (Eval(j, Compare(c, MoreEq, lit), o) == if got >= want then Yes else No)
            && (Eval(j, Compare(c, Eq, lit), o) == if got == want then Yes else No)
            && (Eval(j, Compare(c, Colon, lit), o) == if got == want then Yes else No)
  {
  }

  /** And for ranges of them. */
  lemma InstantsRange(j: Judges, c: Column, low: Literal, high: Literal, o: Observation)
    requires c.Timestamp? && c in o && o[c].Instant?
    ensures Eval(j, Between(c, low, high), o) ==
              if j.date(low.value) <= o[c].at <= j.date(high.value) then Yes else No
  {
  }

  predicate IsText(c: Column) { c == Source || c == Prefix || c.Keyword? }

  predicate SameButCase(a: string, b: string) {
    |a| == |b| && forall i :: 0 <= i < |a| ==>
      a[i] == b[i] || ('A' <= a[i] <= 'Z' && b[i] as int == a[i] as int + 32)
      || ('A' <= b[i] <= 'Z' && a[i] as int == b[i] as int + 32)
  }

  lemma FoldingIsCase(a: string, b: string)
    ensures Lower(a) == Lower(b) <==> SameButCase(a, b)
  {
    if Lower(a) == Lower(b) {
      forall i | 0 <= i < |a| ensures LowerChar(a[i]) == LowerChar(b[i]) { assert Lower(a)[i] == Lower(b)[i]; }
    }
  }

  /** On text `=` asks for the very text and `:` for the text up to case; a bare star
      makes either a pattern. */
  lemma TextsCompare(j: Judges, c: Column, lit: Literal, o: Observation)
    requires IsText(c) && c in o && o[c].Text? && !(lit.bare && '*' in lit.value)
    ensures Eval(j, Compare(c, Eq, lit), o) == if o[c].text == lit.value then Yes else No
    ensures Eval(j, Compare(c, Colon, lit), o) == if SameButCase(o[c].text, lit.value) then Yes else No
    ensures Eval(j, Compare(c, Ne, lit), o) == if o[c].text == lit.value then No else Yes
  {
    FoldingIsCase(o[c].text, lit.value);
    StarIsWild(lit);
  }

  lemma StarIsWild(lit: Literal)
    ensures lit.value == "*" ==> '*' in lit.value
  {
    if lit.value == "*" { assert lit.value[0] == '*'; }
  }

  lemma PatternsCompare(j: Judges, c: Column, lit: Literal, o: Observation)
    requires IsText(c) && c in o && o[c].Text? && lit.bare && '*' in lit.value && lit.value != "*"
    ensures Eval(j, Compare(c, Eq, lit), o) == if Glob(lit.value, o[c].text) then Yes else No
    ensures Eval(j, Compare(c, Colon, lit), o) == if Glob(Lower(lit.value), Lower(o[c].text)) then Yes else No
  {
    hide Glob, Lower;
  }

  /** The comparisons a list stands for. */
  ghost function Comparisons(c: Column, lits: seq<Literal>): (qs: seq<Query>)
    ensures |qs| == |lits| && forall i :: 0 <= i < |qs| ==> qs[i] == Compare(c, Colon, lits[i])
  {
    seq(|lits|, i requires 0 <= i < |lits| => Compare(c, Colon, lits[i]))
  }

  /** A list is the disjunction of its comparisons, and negated what `not` makes of it. */
  lemma {:induction false} ListsAreOr(j: Judges, c: Column, lits: seq<Literal>, o: Observation)
    requires c in o || lits != []
    requires forall i :: 0 <= i < |lits| ==> !(lits[i].bare && lits[i].value == "*")
    ensures Eval(j, InSet(c, lits, false), o) == Eval(j, Or(Comparisons(c, lits)), o)
    ensures Eval(j, InSet(c, lits, true), o) == Eval(j, Not(Or(Comparisons(c, lits))), o)
  {
    hide Eval, CompareValue;
    var qs := Comparisons(c, lits);
    forall i | 0 <= i < |lits|
      ensures Eval(j, qs[i], o) == if c in o then CompareValue(j, c, Colon, lits[i], o[c]) else Unknown
    {
      ColonIs(j, c, lits[i], o);
    }
    if c !in o { assert Eval(j, qs[0], o) == Unknown; }
    OrIs(j, qs, o);
    ListIs(j, c, lits, o);
    NotReverses(j, Or(qs), o);
  }

  lemma ListIs(j: Judges, c: Column, lits: seq<Literal>, o: Observation)
    ensures var r := Eval(j, InSet(c, lits, false), o);
            && (c !in o ==> r == Unknown)
            && (c in o ==> (r == Yes <==> exists i :: 0 <= i < |lits| && CompareValue(j, c, Colon, lits[i], o[c]) == Yes))
            && (c in o ==> (r == No <==> forall i :: 0 <= i < |lits| ==> CompareValue(j, c, Colon, lits[i], o[c]) == No))
            && Rank(Eval(j, InSet(c, lits, true), o)) == 2 - Rank(r)
  {
    hide CompareValue;
  }

  lemma ColonIs(j: Judges, c: Column, lit: Literal, o: Observation)
    requires !(lit.bare && lit.value == "*")
    ensures Eval(j, Compare(c, Colon, lit), o) == if c in o then CompareValue(j, c, Colon, lit, o[c]) else Unknown
  {
    hide CompareValue;
  }

  lemma OrIs(j: Judges, qs: seq<Query>, o: Observation)
    ensures Eval(j, Or(qs), o) == Yes <==> exists i :: 0 <= i < |qs| && Eval(j, qs[i], o) == Yes
    ensures Eval(j, Or(qs), o) == No <==> forall i :: 0 <= i < |qs| ==> Eval(j, qs[i], o) == No
  {
  }

  // ---------- rules ----------

  /** A rule of alternatives that does not read the prefix approves exactly what one of
      them says yes to. */
  lemma AlternativesApprove(j: Judges, id: nat, a: Query, b: Query, o: Observation)
    requires !ScopesPrefix(a) && !ScopesPrefix(b)
    ensures Approves(j, Rule(id, true, Some(Or([a, b])), true), o) <==> Eval(j, a, o) == Yes || Eval(j, b, o) == Yes
  {
    OrIs(j, [a, b], o);
    assert [a, b][0] == a && [a, b][1] == b;
    hide Eval;
    assert !ScopesPrefix(Or([a, b]));
  }

  /** And one of conditions what all of them say yes to. */
  lemma ConditionsApprove(j: Judges, id: nat, a: Query, b: Query, o: Observation)
    requires !ScopesPrefix(a) && !ScopesPrefix(b)
    ensures Approves(j, Rule(id, true, Some(And([a, b])), true), o) <==> Eval(j, a, o) == Yes && Eval(j, b, o) == Yes
  {
    AndIsLeast(j, [a, b], o);
    assert [a, b][0] == a && [a, b][1] == b;
    hide Eval;
    assert !ScopesPrefix(And([a, b]));
  }

  /** A rule has a say only while it is active, parses and passes its checks, if it does
      not name both a prefix and cloud, and, about a cloud listing, if it reads no prefix;
      then it approves what it says yes to. */
  lemma RulesApprove(j: Judges, r: Rule, o: Observation)
    ensures !r.active || !r.valid || r.query.None? ==> !Approves(j, r, o)
    ensures r.query.Some? && ScopesPrefix(r.query.value) && NamesCloud(r.query.value, false) ==> !Approves(j, r, o)
    ensures r.query.Some? && ScopesPrefix(r.query.value) && Source in o && o[Source] == Text("cloud") ==> !Approves(j, r, o)
    ensures r.active && r.valid && r.query.Some?
            && !(ScopesPrefix(r.query.value) && (NamesCloud(r.query.value, false)
                                                 || (Source in o && o[Source] == Text("cloud")))) ==>
              (Approves(j, r, o) <==> Eval(j, r.query.value, o) == Yes)
  {
    hide Eval, ScopesPrefix, NamesCloud;
  }

  /** The rule that decides is the first of those that do. */
  lemma {:induction false} FirstDecides(j: Judges, rules: seq<Rule>, o: Observation, k: nat)
    requires k < |rules| && Approves(j, rules[k], o) && forall i :: 0 <= i < k ==> !Approves(j, rules[i], o)
    ensures FirstApproving(j, rules, o) == Some(rules[k].id)
  {
    hide Approves;
    if k > 0 { FirstDecides(j, rules[1..], o, k - 1); }
  }

  lemma OwnStep(j: Judges, rules: seq<Rule>, r: Rule, o: Observation)
    ensures Own(j, rules + [r], o) == Own(j, rules, o) + if IsOwn(j, r, o) then [r] else []
  {
    hide IsOwn;
    assert (rules + [r])[..|rules|] == rules;
  }

  /** Own rules keep their order. */
  lemma {:induction false} OwnInOrder(j: Judges, rules: seq<Rule>, more: seq<Rule>, o: Observation)
    ensures Own(j, rules + more, o) == Own(j, rules, o) + Own(j, more, o)
    ensures |rules| == 1 ==> Own(j, rules, o) == if IsOwn(j, rules[0], o) then rules else []
  {
    hide IsOwn, Own;
    if |rules| == 1 { OwnOfNone(j, o); OwnStep(j, [], rules[0], o); assert [] + [rules[0]] == rules; }
    if more == [] {
      OwnOfNone(j, o);
      assert rules + more == rules;
    } else {
      var init, last := more[..|more| - 1], more[|more| - 1];
      OwnInOrder(j, rules, init, o);
      OwnStep(j, rules + init, last, o);
      OwnStep(j, init, last, o);
      assert rules + more == rules + init + [last] && more == init + [last];
    }
  }

  lemma OwnOfNone(j: Judges, o: Observation)
    ensures Own(j, [], o) == []
  {
  }

  // ---------- whose prefix a rule is for ----------

  /** The prefix of an equality on it, and of nothing else by itself. */
  lemma EqualityNamesPrefix(j: Judges, lit: Literal, op: Op)
    ensures PrefixOf(j, Compare(Prefix, op, lit)) == if op == Eq || op == Colon then j.prefixID(lit.value) else None
    ensures PrefixOf(j, Not(Compare(Prefix, Eq, lit))) == j.prefixID(lit.value)
  {
  }

  /** Of several terms the first that names one. */
  lemma {:induction false} FirstTermNames(j: Judges, qs: seq<Query>, k: nat)
    requires k <= |qs| && (k < |qs| ==> PrefixOf(j, qs[k]).Some?) && forall i :: 0 <= i < k ==> PrefixOf(j, qs[i]).None?
    ensures PrefixOf(j, And(qs)) == PrefixOf(j, Or(qs)) == if k < |qs| then PrefixOf(j, qs[k]) else None
  {
    AmongIs(j, qs, k);
  }

  lemma {:induction false} AmongIs(j: Judges, qs: seq<Query>, k: nat)
    requires k <= |qs| && (k < |qs| ==> PrefixOf(j, qs[k]).Some?) && forall i :: 0 <= i < k ==> PrefixOf(j, qs[i]).None?
    ensures PrefixAmong(j, qs) == if k < |qs| then PrefixOf(j, qs[k]) else None
  {
    hide PrefixOf;
    if k > 0 { AmongIs(j, qs[1..], k - 1); }
  }

  /** A rule is a discovery's own if the prefix it names is the one the discovery lies in. */
  lemma OwnIsBySamePrefix(j: Judges, r: Rule, o: Observation)
    ensures IsOwn(j, r, o) <==>
              Prefix in o && r.query.Some? && o[Prefix].Text? && PrefixOf(j, r.query.value) == Some(o[Prefix].text)
  {
    hide PrefixOf;
  }

  // ---------- what names cloud, and what reads the prefix ----------

  lemma CloudIs(lit: Literal)
    ensures IsCloud(lit) <==> SameButCase(Trim(lit.value), "cloud")
  {
    hide Trim;
    FoldingIsCase(Trim(lit.value), "cloud");
    assert Lower("cloud") == "cloud";
  }

  /** A comparison names cloud if it compares the source with it: by equality, or, where
      an odd number of negations stands around it, by inequality. */
  lemma ComparisonNames(c: Column, op: Op, lit: Literal)
    ensures NamesCloud(Compare(c, op, lit), false) <==>
              c == Source && SameButCase(Trim(lit.value), "cloud") && (op == Eq || op == Colon)
    ensures NamesCloud(Compare(c, op, lit), true) <==> c == Source && SameButCase(Trim(lit.value), "cloud") && op == Ne
    ensures ScopesPrefix(Compare(c, op, lit)) <==> c == Prefix
  {
    CloudIs(lit);
    hide IsCloud;
  }

  lemma ListNames(c: Column, lits: seq<Literal>, n: bool, negated: bool)
    ensures NamesCloud(InSet(c, lits, n), negated) <==>
              c == Source && n == negated && exists i :: 0 <= i < |lits| && SameButCase(Trim(lits[i].value), "cloud")
    ensures !ScopesPrefix(InSet(c, lits, n))
  {
    hide IsCloud, Trim;
    forall i | 0 <= i < |lits| ensures IsCloud(lits[i]) <==> SameButCase(Trim(lits[i].value), "cloud") { CloudIs(lits[i]); }
  }

  lemma OthersName(c: Column, regex: string, low: Literal, high: Literal, negated: bool)
    ensures !NamesCloud(Exists(c), negated) && !NamesCloud(Matches(c, regex), negated)
    ensures !NamesCloud(Between(c, low, high), negated) && !NamesCloud(Everything, negated)
    ensures ScopesPrefix(Exists(c)) <==> c == Prefix
    ensures !ScopesPrefix(Matches(c, regex)) && !ScopesPrefix(Between(c, low, high)) && !ScopesPrefix(Everything)
  {
  }

  /** A compound names what a part of it names, a negation what its child names negated. */
  lemma CompoundsName(qs: seq<Query>, q: Query, negated: bool)
    ensures NamesCloud(And(qs), negated) == NamesCloud(Or(qs), negated)
    ensures NamesCloud(Or(qs), negated) <==> exists i :: 0 <= i < |qs| && NamesCloud(qs[i], negated)
    ensures NamesCloud(Not(q), negated) <==> NamesCloud(q, !negated)
    ensures ScopesPrefix(And(qs)) == ScopesPrefix(Or(qs)) && ScopesPrefix(Not(q)) == ScopesPrefix(q)
    ensures ScopesPrefix(Or(qs)) <==> exists i :: 0 <= i < |qs| && ScopesPrefix(qs[i])
  {
  }

  /** On text there is no order, and a regular expression is asked for the value. */
  lemma TextHasNoOrder(j: Judges, c: Column, lit: Literal, o: Observation, op: Op, high: Literal, regex: string)
    requires IsText(c) && c in o && o[c].Text? && op !in {Colon, Eq, Ne}
    ensures Eval(j, Compare(c, op, lit), o) == No == Eval(j, Between(c, lit, high), o)
    ensures Eval(j, Matches(c, regex), o) == if j.regex(regex, o[c]) then Yes else No
  {
  }
}
