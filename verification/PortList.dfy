/**
 Port lists: read leniently, written in one canonical form.
 */
module PortList {
  import opened Decimal
  import opened Numbers
  import opened Sequences

  const MAX_ENTRIES := 64

  /** Why a port list is refused. */
  datatype Problem =
    | IsRange(entry: string)
    | NotANumber(entry: string)
    | OutsideRange(entry: string)
    | TooMany(count: nat)

  datatype PortResult = Port(port: nat) | Bad(problem: Problem)

  predicate IsSeparator(c: char) { c == ',' || c == ' ' || c == '\t' || c == '\n' || c == '\r' }

  /** Length of the entry at the head of s. */
  function EntryLen(s: string): (n: nat)
    ensures n <= |s|
    ensures forall i :: 0 <= i < n ==> !IsSeparator(s[i])
    ensures n < |s| ==> IsSeparator(s[n])
  {
    if s == "" || IsSeparator(s[0]) then 0 else 1 + EntryLen(s[1..])
  }

  /** `strings.FieldsFunc`: the maximal separator-free stretches. */
  function Entries(s: string): seq<string> {
    if s == "" then []
    else if IsSeparator(s[0]) then Entries(s[1..])
    else [s[..EntryLen(s)]] + Entries(s[EntryLen(s)..])
  }

  /** Index of the first dash, or |f|. */
  function Dash(f: string): (n: nat)
    ensures n <= |f|
  {
    if f == "" || f[0] == '-' then 0 else 1 + Dash(f[1..])
  }

  predicate IsPort(p: int) { 1 <= p <= 65535 }

  function ParsePort(f: string): PortResult {
    if !AllDigits(f) then
      if Dash(f) < |f| && AllDigits(f[..Dash(f)]) && AllDigits(f[Dash(f) + 1..])
      then Bad(IsRange(f)) else Bad(NotANumber(f))
    else if !IsPort(Atoi(f)) then Bad(OutsideRange(f))
    else Port(Atoi(f))
  }

  // ---------- ascending listings of a set of numbers ----------

  lemma {:induction false} AscendingIsUnique(s: seq<int>, t: seq<int>)
    requires Ascending(s) && Ascending(t) && Elements(s) == Elements(t)
    ensures s == t
  {
    NothingListed(s);
    NothingListed(t);
    if s != [] {
      assert s[0] in Elements(s) && t[0] in Elements(t);
      forall x
        ensures x in Elements(s[1..]) <==> x in Elements(t[1..])
      {
        assert x in Elements(s[1..]) <==> x in Elements(s) && x != s[0];
        assert x in Elements(t[1..]) <==> x in Elements(t) && x != t[0];
      }
      AscendingIsUnique(s[1..], t[1..]);
    }
  }

  /** s with x put in its place. */
  function Insert(s: seq<int>, x: int): (t: seq<int>)
  {
    if s == [] || x < s[0] then [x] + s
    else if x == s[0] then s
    else [s[0]] + Insert(s[1..], x)
  }

  lemma ListedFirst(x: int, s: seq<int>)
    ensures Elements([x] + s) == {x} + Elements(s)
    ensures Ascending([x] + s) <==> Ascending(s) && forall y :: y in Elements(s) ==> x < y
  {
    var t := [x] + s;
    assert forall i :: 0 <= i < |s| ==> s[i] in Elements(s);
    assert t[1..] == s && t[0] == x;
    assert forall i :: 1 <= i < |t| ==> t[i] == t[1..][i - 1];
    assert Ascending(t) ==> Ascending(t[1..]);
    assert Ascending(t) ==> forall i :: 0 <= i < |s| ==> x < t[1..][i];
  }

  lemma ListedLast(s: seq<int>, x: int)
    ensures Elements(s + [x]) == Elements(s) + {x}
  {
  }

  lemma {:induction false} InsertKeepsOrder(s: seq<int>, x: int)
    requires Ascending(s)
    ensures Ascending(Insert(s, x)) && Elements(Insert(s, x)) == Elements(s) + {x}
    ensures |Insert(s, x)| == |s| + (if x in Elements(s) then 0 else 1)
  {
    hide Ascending, Elements;
    NothingListed(s);
    if s == [] || x < s[0] {
      if s != [] { assert s == [s[0]] + s[1..]; ListedFirst(s[0], s[1..]); }
      ListedFirst(x, s);
      NothingAscends(s);
    } else {
      assert s == [s[0]] + s[1..];
      ListedFirst(s[0], s[1..]);
      if x > s[0] {
        InsertKeepsOrder(s[1..], x);
        ListedFirst(s[0], Insert(s[1..], x));
      }
    }
  }

  lemma NothingAscends(s: seq<int>)
    ensures |s| <= 1 ==> Ascending(s)
  {
  }

  /** The numbers of s in ascending order, each once. */
  function Sorted(s: seq<int>): (r: seq<int>)
    ensures Ascending(r) && Elements(r) == Elements(s)
    ensures forall p :: p in r <==> p in s
  {
    if s == [] then []
    else
      var r := Sorted(s[..|s| - 1]);
      InsertKeepsOrder(r, s[|s| - 1]);
      SameMembers(Insert(r, s[|s| - 1]), s);
      Insert(r, s[|s| - 1])
  }

  lemma SameMembers(r: seq<int>, s: seq<int>)
    requires s != [] && Elements(r) == Elements(s[..|s| - 1]) + {s[|s| - 1]}
    ensures Elements(r) == Elements(s) && forall p :: p in r <==> p in s
  {
    assert s == s[..|s| - 1] + [s[|s| - 1]];
    assert forall p :: p in r <==> p in Elements(r);
  }

  // ---------- ParsePortList ----------

  /** The usable ports of some entries, in the order they are listed. */
  function Ports(entries: seq<string>): (r: seq<int>)
    ensures forall p :: p in r ==> IsPort(p)
  {
    if entries == [] then []
    else
      var r := ParsePort(entries[|entries| - 1]);
      Ports(entries[..|entries| - 1]) + (if r.Port? then [r.port] else [])
  }

  function Problems(entries: seq<string>): seq<Problem> {
    if entries == [] then []
    else
      var r := ParsePort(entries[|entries| - 1]);
      Problems(entries[..|entries| - 1]) + (if r.Bad? then [r.problem] else [])
  }

  function Parsed(s: string): seq<int> { Sorted(Ports(Entries(s))) }

  function ParseProblems(s: string): seq<Problem> {
    Problems(Entries(s)) + (if |Parsed(s)| > MAX_ENTRIES then [TooMany(|Parsed(s)|)] else [])
  }

  method SortInts(ports: seq<int>) returns (s: seq<int>)
    requires forall i, j :: 0 <= i < j < |ports| ==> ports[i] != ports[j]
    ensures Ascending(s) && Elements(s) == Elements(ports)
    ensures |s| == |ports|
  {
    s := [];
    for i := 0 to |ports|
      invariant Ascending(s) && Elements(s) == Elements(ports[..i]) && |s| == i
    {
      assert ports[..i + 1] == ports[..i] + [ports[i]];
      assert ports[i] !in Elements(ports[..i]);
      InsertKeepsOrder(s, ports[i]);
      s := Insert(s, ports[i]);
    }
    assert ports[..|ports|] == ports;
  }

  lemma NoPorts()
    ensures Ports([]) == [] && Problems([]) == []
  {
  }

  lemma NextEntry(fields: seq<string>, i: nat)
    requires i < |fields|
    ensures var r := ParsePort(fields[i]);
            && Ports(fields[..i + 1]) == (if r.Port? then Ports(fields[..i]) + [r.port] else Ports(fields[..i]))
            && Problems(fields[..i + 1]) == (if r.Bad? then Problems(fields[..i]) + [r.problem] else Problems(fields[..i]))
  {
    hide ParsePort;
    assert fields[..i + 1][..i] == fields[..i];
  }

  lemma IsListed(ports: seq<int>, p: int)
    ensures p in Elements(ports) <==> p in ports
  {
  }

  method ParsePortList(s: string) returns (ports: seq<int>, problems: seq<Problem>)
    ensures ports == Parsed(s) && problems == ParseProblems(s)
  {
    hide ParsePort, Entries, Sorted, Ascending, Ports, Problems, Elements;
    var fields := Entries(s);
    var seen: set<int> := {};
    ports, problems := [], [];
    NothingListed<int>([]);
    NoPorts();
    for i := 0 to |fields|
      invariant seen == Elements(ports) == Elements(Ports(fields[..i]))
      invariant forall j, k :: 0 <= j < k < |ports| ==> ports[j] != ports[k]
      invariant problems == Problems(fields[..i])
    {
      NextEntry(fields, i);
      var r := ParsePort(fields[i]);
      if r.Bad? {
        problems := problems + [r.problem];
        continue;
      }
      ListedLast(Ports(fields[..i]), r.port);
      ListedLast(ports, r.port);
      IsListed(ports, r.port);
      if r.port in seen {
        continue;
      }
      seen := seen + {r.port};
      ports := ports + [r.port];
    }
    assert fields[..|fields|] == fields;
    ports := SortInts(ports);
    AscendingIsUnique(ports, Parsed(s));
    if |ports| > MAX_ENTRIES {
      problems := problems + [TooMany(|ports|)];
    }
  }

  // ---------- FormatPortList ----------

  function InRange(ports: seq<int>): (r: seq<int>)
    ensures forall p :: p in r <==> p in ports && IsPort(p)
  {
    if ports == [] then []
    else
      var p := ports[|ports| - 1];
      InRange(ports[..|ports| - 1]) + (if IsPort(p) then [p] else [])
  }

  function Numerals(ports: seq<int>): (r: seq<string>)
    requires forall i :: 0 <= i < |ports| ==> 1 <= ports[i] <= 65535
    ensures |r| == |ports|
    ensures forall i :: 0 <= i < |r| ==> r[i] == Itoa(ports[i])
  {
    if ports == [] then [] else [Itoa(ports[0])] + Numerals(ports[1..])
  }

  /** `strings.Join` with a comma. */
  function Join(parts: seq<string>): string {
    if parts == [] then ""
    else if |parts| == 1 then parts[0]
    else parts[0] + "," + Join(parts[1..])
  }

  /** The usable ports, ascending. */
  function Kept(ports: seq<int>): (r: seq<int>)
    ensures Ascending(r) && Elements(r) == Elements(InRange(ports))
    ensures forall p :: p in r <==> p in ports && IsPort(p)
    ensures forall i :: 0 <= i < |r| ==> 1 <= r[i] <= 65535
  {
    var r := Sorted(InRange(ports));
    assert forall i :: 0 <= i < |r| ==> r[i] in r && IsPort(r[i]);
    r
  }

  function Formatted(ports: seq<int>): string { Join(Numerals(Kept(ports))) }

  method FormatPortList(ports: seq<int>) returns (text: string)
    ensures text == Formatted(ports)
  {
    var seen: set<int> := {};
    var keep: seq<int> := [];
    for i := 0 to |ports|
      invariant seen == Elements(keep) == Elements(InRange(ports[..i]))
      invariant forall j, k :: 0 <= j < k < |keep| ==> keep[j] != keep[k]
      invariant forall j :: 0 <= j < |keep| ==> IsPort(keep[j])
    {
      assert ports[..i + 1][..i] == ports[..i] && ports[..i + 1][i] == ports[i];
      var p := ports[i];
      if !IsPort(p) {
        continue;
      }
      ListedLast(InRange(ports[..i]), p);
      ListedLast(keep, p);
      if p in seen {
        continue;
      }
      seen := seen + {p};
      keep := keep + [p];
    }
    assert ports[..|ports|] == ports;
    keep := SortInts(keep);
    AscendingIsUnique(keep, Kept(ports));
    var out := WriteNumerals(keep);
    text := Join(out);
  }

  method WriteNumerals(keep: seq<int>) returns (out: seq<string>)
    requires forall i :: 0 <= i < |keep| ==> 1 <= keep[i] <= 65535
    ensures out == Numerals(keep)
  {
    hide Numerals, Itoa;
    out := [];
    for i := 0 to |keep|
      invariant out == Numerals(keep)[..i]
    {
      out := out + [Itoa(keep[i])];
    }
  }

  // ---------- there and back ----------

  ghost predicate IsEntry(f: string) { f != "" && forall i :: 0 <= i < |f| ==> !IsSeparator(f[i]) }

  lemma EntryThen(f: string, rest: string)
    requires IsEntry(f) && (rest == "" || IsSeparator(rest[0]))
    ensures EntryLen(f + rest) == |f| && Entries(f + rest) == [f] + Entries(rest)
  {
    var u := f + rest;
    assert forall i :: 0 <= i < |f| ==> u[i] == f[i];
    assert EntryLen(u) >= |f|;
    assert u[..|f|] == f && u[|f|..] == rest;
  }

  lemma {:induction false} EntriesOfJoin(parts: seq<string>)
    requires forall i :: 0 <= i < |parts| ==> IsEntry(parts[i])
    ensures Entries(Join(parts)) == parts
  {
    if |parts| == 1 {
      EntryThen(parts[0], "");
      assert parts[0] + "" == parts[0];
    } else if |parts| > 1 {
      var rest := "," + Join(parts[1..]);
      EntriesOfJoin(parts[1..]);
      assert rest[1..] == Join(parts[1..]);
      assert Join(parts) == parts[0] + rest;
      EntryThen(parts[0], rest);
    }
  }

  lemma NumeralsAreEntries(ports: seq<int>)
    requires forall i :: 0 <= i < |ports| ==> 1 <= ports[i] <= 65535
    ensures forall i :: 0 <= i < |ports| ==> IsEntry(Numerals(ports)[i])
  {
    hide Numerals, Itoa;
  }

  lemma PortParses(p: nat)
    requires IsPort(p)
    ensures ParsePort(Itoa(p)) == Port(p)
  {
    hide Itoa, Atoi;
    AtoiItoa(p);
  }

  lemma {:induction false} NumeralsParse(texts: seq<string>, ports: seq<int>)
    requires |texts| == |ports|
    requires forall i :: 0 <= i < |ports| ==> 1 <= ports[i] <= 65535 && texts[i] == Itoa(ports[i])
    ensures Ports(texts) == ports && Problems(texts) == []
  {
    hide ParsePort, Itoa;
    if ports != [] {
      var n := |ports| - 1;
      NumeralsParse(texts[..n], ports[..n]);
      PortParses(ports[n]);
      assert texts[n] == Itoa(ports[n]);
      assert ports == ports[..n] + [ports[n]];
    }
  }

  lemma SortedIsFixed(s: seq<int>)
    requires Ascending(s)
    ensures Sorted(s) == s
  {
    hide Sorted;
    AscendingIsUnique(Sorted(s), s);
  }

  /** Parsing what was formatted gives the usable ports back, ascending and each
      once, with nothing to complain about but their number. */
  lemma ParseOfFormat(ports: seq<int>)
    ensures Parsed(Formatted(ports)) == Kept(ports)
    ensures |Entries(Formatted(ports))| == |Parsed(Formatted(ports))|
    ensures Ascending(Parsed(Formatted(ports)))
    ensures forall p :: p in Parsed(Formatted(ports)) <==> p in ports && IsPort(p)
    ensures var n := |Parsed(Formatted(ports))|;
            ParseProblems(Formatted(ports)) == if n > MAX_ENTRIES then [TooMany(n)] else []
  {
    hide Kept, Numerals, Entries, Join, Ports, Problems, Sorted, Itoa;
    var keep := Kept(ports);
    NumeralsAreEntries(keep);
    EntriesOfJoin(Numerals(keep));
    NumeralsParse(Numerals(keep), keep);
    SortedIsFixed(keep);
    assert Parsed(Formatted(ports)) == keep;
    assert [] + ParseProblems(Formatted(ports)) == ParseProblems(Formatted(ports));
  }

  /** One set of ports, one text: the canonical form tells port sets apart and
      nothing else. */
  lemma {:induction false} CanonicalForm(a: seq<int>, b: seq<int>)
    ensures Formatted(a) == Formatted(b) <==> Elements(InRange(a)) == Elements(InRange(b))
  {
    hide Kept, InRange, Numerals;
    ParseOfFormat(a);
    ParseOfFormat(b);
    if Elements(InRange(a)) == Elements(InRange(b)) {
      AscendingIsUnique(Kept(a), Kept(b));
    }
  }

  lemma ParsedIsKept(s: string)
    ensures Kept(Parsed(s)) == Parsed(s)
  {
    hide Kept, Ports, Entries, Sorted;
    var ports := Parsed(s);
    assert Elements(Kept(ports)) == Elements(ports);
    AscendingIsUnique(Kept(ports), ports);
  }

  /** However two lists were typed, they are stored alike exactly when they name
      the same ports; and the stored text is a fixed point. */
  lemma {:induction false} TypedListsAgree(s: string, t: string)
    ensures Formatted(Parsed(s)) == Formatted(Parsed(t)) <==> Parsed(s) == Parsed(t)
    ensures Parsed(Formatted(Parsed(s))) == Parsed(s)
    ensures Formatted(Parsed(Formatted(Parsed(s)))) == Formatted(Parsed(s))
  {
    hide Formatted, Parsed;
    ParsedIsKept(s);
    ParsedIsKept(t);
    ParseOfFormat(Parsed(s));
    ParseOfFormat(Parsed(t));
  }

  lemma AcceptedIsShort(s: string)
    ensures ParseProblems(s) == [] ==> |Parsed(s)| <= MAX_ENTRIES
    ensures |Parsed(s)| <= MAX_ENTRIES ==> ParseProblems(Formatted(Parsed(s))) == []
  {
    hide Formatted, Parsed, Entries;
    ParseOfFormat(Parsed(s));
    TypedListsAgree(s, s);
  }

  /** What is stored for a list names the same ports, an entry for each. */
  lemma StoredNamesSame(s: string)
    ensures Parsed(Formatted(Parsed(s))) == Parsed(s)
    ensures |Entries(Formatted(Parsed(s)))| == |Parsed(s)|
  {
    hide Formatted, Parsed, Entries;
    TypedListsAgree(s, s);
    ParseOfFormat(Parsed(s));
  }

  // ---------- what an entry is and what it says ----------

  lemma SeparatorsAre(c: char)
    ensures IsSeparator(c) <==> c in ", \t\n\r"
  {
  }

  /** A separator parts entries, and text without one is an entry of its own. */
  lemma {:induction false} EntriesAre(a: string, c: char, b: string)
    requires c in ", \t\n\r"
    ensures Entries(a + [c] + b) == Entries(a) + Entries(b)
    ensures Entries("") == []
    ensures a != "" && (forall i :: 0 <= i < |a| ==> a[i] !in ", \t\n\r") ==> Entries(a) == [a]
    decreases |a|
  {
    SeparatorsAre(c);
    hide EntryLen;
    var u := a + [c] + b;
    if a == "" {
      assert u[0] == c && u[1..] == b;
    } else if IsSeparator(a[0]) {
      EntriesAre(a[1..], c, b);
      assert u[1..] == a[1..] + [c] + b;
      SeparatorsAre(a[0]);
    } else {
      var n := EntryLen(a);
      SameEntry(a, [c] + b);
      assert u == a + ([c] + b);
      EntriesAre(a[n..], c, b);
      assert u[n..] == a[n..] + [c] + b && u[..n] == a[..n];
      if forall i :: 0 <= i < |a| ==> a[i] !in ", \t\n\r" {
        forall i | 0 <= i < |a| ensures !IsSeparator(a[i]) { SeparatorsAre(a[i]); }
        assert n == |a| && a[..n] == a && a[n..] == "";
      }
    }
  }

  lemma SameEntry(a: string, rest: string)
    requires a != "" && rest != "" && IsSeparator(rest[0])
    ensures EntryLen(a + rest) == EntryLen(a)
  {
    var u, n := a + rest, EntryLen(a);
    assert forall i :: 0 <= i < |a| ==> u[i] == a[i];
    assert u[|a|] == rest[0];
    assert n < |a| ==> u[n] == a[n];
    assert EntryLen(u) <= n && EntryLen(u) >= n;
  }

  /** A numeral for a port is that port; any other is out of range. */
  lemma NumeralsAre(f: string)
    requires AllDigits(f)
    ensures ParsePort(f) == if 1 <= Atoi(f) <= 65535 then Port(Atoi(f)) else Bad(OutsideRange(f))
  {
  }

  /** Two numerals with a dash between them are told from everything else. */
  lemma OthersAre(f: string)
    requires !AllDigits(f)
    ensures ParsePort(f) == Bad(IsRange(f)) || ParsePort(f) == Bad(NotANumber(f))
    ensures ParsePort(f) == Bad(IsRange(f)) <==>
              exists k :: 0 <= k < |f| && f[k] == '-' && AllDigits(f[..k]) && AllDigits(f[k + 1..])
  {
    DashIs(f);
    forall k | 0 <= k < |f| && f[k] == '-' && AllDigits(f[..k]) ensures Dash(f) == k {
      DigitsHaveNoDash(f, k);
    }
  }

  lemma {:induction false} DashIs(f: string)
    ensures Dash(f) < |f| ==> f[Dash(f)] == '-'
    ensures forall i :: 0 <= i < Dash(f) ==> f[i] != '-'
  {
    if f != "" && f[0] != '-' {
      DashIs(f[1..]);
      assert forall i :: 1 <= i < |f| ==> f[i] == f[1..][i - 1];
    }
  }

  lemma DigitsHaveNoDash(f: string, k: nat)
    requires k < |f| && f[k] == '-' && AllDigits(f[..k])
    ensures Dash(f) == k
  {
    DashIs(f);
    assert forall i :: 0 <= i < k ==> IsDigit(f[..k][i]);
  }

  /** A list of up to 64 ports is fine, one of more is not. */
  lemma LimitIs(s: string)
    ensures ParseProblems(s) == Problems(Entries(s)) + if |Parsed(s)| > 64 then [TooMany(|Parsed(s)|)] else []
  {
    hide Entries, Problems, Parsed;
  }

  lemma OneEntryMore(a: seq<string>, f: string)
    ensures var r := ParsePort(f);
            && Ports(a + [f]) == Ports(a) + (if r.Port? then [r.port] else [])
            && Problems(a + [f]) == Problems(a) + (if r.Bad? then [r.problem] else [])
  {
    hide ParsePort;
    assert (a + [f])[..|a|] == a;
  }

  /** Each entry adds its port or its problem, in order. */
  lemma {:induction false} EntriesSpeak(a: seq<string>, b: seq<string>)
    ensures Ports(a + b) == Ports(a) + Ports(b) && Problems(a + b) == Problems(a) + Problems(b)
  {
    hide ParsePort, Ports, Problems;
    if b == [] {
      NoPorts();
      assert a + b == a;
    } else {
      var init, last := b[..|b| - 1], b[|b| - 1];
      EntriesSpeak(a, init);
      OneEntryMore(a + init, last);
      OneEntryMore(init, last);
      assert a + b == a + init + [last] && b == init + [last];
    }
  }

  /** Parts are joined by commas and nothing else. */
  lemma {:induction false} CommasJoin(a: seq<string>, b: seq<string>)
    requires a != [] && b != []
    ensures Join(a + b) == Join(a) + "," + Join(b)
  {
    assert (a + b)[1..] == a[1..] + b;
    if |a| > 1 {
      CommasJoin(a[1..], b);
    } else {
      assert a[1..] + b == b;
    }
  }

  /** The stored text names its ports in decimal, in ascending order. */
  lemma FormattedNames(ports: seq<int>, p: int)
    ensures exists keep: seq<int> ::
              (Ascending(keep) && (forall q :: q in keep <==> q in ports && 1 <= q <= 65535)
               && (forall i :: 0 <= i < |keep| ==> 1 <= keep[i] <= 65535) && Formatted(ports) == Join(Numerals(keep)))
  {
    hide Join, Numerals;
    var keep := Kept(ports);
    assert Ascending(keep);
  }
}
