/**
 The free-text half of the provider boundary: `name: value` pairs whose name is
 secret lose their value, PEM private keys lose everything. Text is a sequence
 of bytes, one `char` for each byte; the secret-name test is a parameter.

 Everything is phrased on suffixes: neither regular expression looks behind the
 place it starts from, so a match at an index of the text is a match at the head
 of the suffix from there.
 */
module Redaction {
  import opened Numbers
  import opened Patterns
  import opened PrivateKeys
  import opened Sequences

  // ---------- the pattern  ([A-Za-z0-9_.\-]{1,64})["']?\s*[:=]\s*  ----------

  predicate IsQuote(c: char) { c == '"' || c == '\'' }

  predicate IsSeparator(c: char) { c == ':' || c == '=' }

  /** A pair's name and separator: `nameLen` bytes of name, `len` bytes in all. */
  datatype Pair = NoPair | Pair(nameLen: nat, len: nat)

  /** The match of the pattern that starts at the head of u. A longer name run
      than 64 bytes cannot match here: the byte after the 64th is a name byte. */
  function PairAtHead(u: string): (r: Pair)
    ensures r.Pair? ==> 1 <= r.nameLen < r.len <= |u|
  {
    var n := RunEnd(u, 0, Name);
    if !(1 <= n <= 64) then NoPair
    else
      var q := if n < |u| && IsQuote(u[n]) then n + 1 else n;
      var w := RunEnd(u, q, Space);
      if w < |u| && IsSeparator(u[w]) then Pair(n, RunEnd(u, w + 1, Space)) else NoPair
  }

  datatype Hit = NoHit | Hit(start: nat, pair: Pair)
  {
    function Shift(k: nat): Hit { if NoHit? then NoHit else Hit(start + k, pair) }
    predicate Within(u: string) { Hit? ==> pair.Pair? && 1 <= pair.nameLen < pair.len && start + pair.len <= |u| }
    function End(): nat requires Hit? && pair.Pair? { start + pair.len }
  }

  /** The leftmost match in u. */
  function FirstPair(u: string): (h: Hit)
    ensures h.Within(u)
    ensures h.Hit? ==> PairAtHead(u[h.start..]) == h.pair
  {
    if u == "" then NoHit
    else if PairAtHead(u).Pair? then Hit(0, PairAtHead(u))
    else
      var h := FirstPair(u[1..]);
      assert h.Hit? ==> u[h.start + 1..] == u[1..][h.start..];
      h.Shift(1)
  }

  // ---------- how far a value reaches ----------

  predicate IsTerminator(c: char) { c == ',' || c == '}' || c == ']' || c == '\n' || c == '\r' }

  function Quoted(quote: char): string { [quote] + MARKER + [quote] }

  /** Length of the marker at the head of u, in any of its three quotings. */
  function MarkerExtent(u: string): (n: nat)
    ensures n <= |u|
  {
    if Quoted('"') <= u || Quoted('\'') <= u then |MARKER| + 2
    else if MARKER <= u then |MARKER|
    else 0
  }

  /** The form of the marker that is written for a value. */
  function MarkerFor(value: string): string
    requires value != ""
  {
    if IsQuote(value[0]) then Quoted(value[0]) else MARKER
  }

  /** One past the closing quote found from index i on, or -1. */
  function ClosingQuote(u: string, quote: char, i: nat): (r: int)
    ensures r == -1 || (i < r <= |u| && u[r - 1] == quote)
    decreases |u| - i
  {
    if i >= |u| then -1
    else if u[i] == '\\' then ClosingQuote(u, quote, i + 2)
    else if u[i] == quote then i + 1
    else ClosingQuote(u, quote, i + 1)
  }

  predicate IsNewline(c: char) { c == '\n' || c == '\r' }

  function QuotedExtent(u: string): (n: nat)
    requires u != "" && IsQuote(u[0])
    ensures 1 <= n <= |u|
  {
    var close := ClosingQuote(u, u[0], 1);
    if close >= 0 then close else FirstOf(u, IsNewline)
  }

  method MeasureQuoted(s: string) returns (n: nat)
    requires s != "" && IsQuote(s[0])
    ensures n == QuotedExtent(s)
  {
    var quote := s[0];
    var i := 1;
    while i < |s|
      invariant 1 <= i && ClosingQuote(s, quote, i) == ClosingQuote(s, quote, 1)
    {
      if s[i] == '\\' {
        i := i + 1;
      } else if s[i] == quote {
        return i + 1;
      }
      i := i + 1;
    }
    return FirstOf(s, IsNewline);
  }

  /** How many backslashes stand before k, back to i at most. */
  function Slashes(u: string, i: nat, k: nat): nat
    requires i <= k <= |u|
  {
    if k == i || u[k - 1] != '\\' then 0 else 1 + Slashes(u, i, k - 1)
  }

  ghost predicate Escaped(u: string, i: nat, k: nat)
    requires i <= k <= |u|
  {
    Slashes(u, i, k) % 2 == 1
  }

  lemma {:induction false} SlashesFrom(u: string, i: nat, d: nat, k: nat)
    requires i + d <= k <= |u| && 1 <= d <= 2 && (u[i] == '\\' <==> d == 2)
    ensures Escaped(u, i, k) <==> Escaped(u, i + d, k)
  {
    assert d == 2 ==> Slashes(u, i, i + 1) == 1;
    if k > i + d { SlashesFrom(u, i, d, k - 1); }
  }

  /** The closing quote is the first quote that is not escaped. */
  lemma {:induction false} ClosesAtFirstUnescaped(u: string, quote: char, i: nat)
    requires i <= |u| && IsQuote(quote)
    ensures var r := ClosingQuote(u, quote, i);
            && (r != -1 ==> !Escaped(u, i, r - 1))
            && forall k :: i <= k < (if r == -1 then |u| else r - 1) && u[k] == quote ==> Escaped(u, i, k)
    decreases |u| - i
  {
    if i < |u| && u[i] != quote {
      var d := if u[i] == '\\' then 2 else 1;
      if i + d <= |u| {
        ClosesAtFirstUnescaped(u, quote, i + d);
        assert d == 2 ==> Escaped(u, i, i + 1) by { assert d == 2 ==> Slashes(u, i, i + 1) == 1; }
        forall k | i + d <= k <= |u| ensures Escaped(u, i, k) <==> Escaped(u, i + d, k) {
          SlashesFrom(u, i, d, k);
        }
      }
    }
  }

  /** Index of the leftmost  \s["']?name["']?\s*[:=]  in u, or |u|. */
  function NextPairStart(u: string): (n: nat)
    ensures n <= |u|
    ensures n < |u| ==> In(Space, u[n])
  {
    if u == "" then 0
    else if In(Space, u[0]) && PairAtHead(if |u| > 1 && IsQuote(u[1]) then u[2..] else u[1..]).Pair? then 0
    else 1 + NextPairStart(u[1..])
  }

  function Min(a: nat, b: nat): nat { if b < a then b else a }

  function ValueExtent(u: string): (n: nat)
    ensures n <= |u|
    ensures u != "" && IsQuote(u[0]) ==> n > 0
  {
    if u == "" then 0
    else if IsQuote(u[0]) then QuotedExtent(u)
    else Min(FirstOf(u, IsTerminator), NextPairStart(u))
  }

  // ---------- what the key/value pass computes ----------

  datatype Verdict = Keep(upTo: nat) | Replace(from: nat, upTo: nat)

  /** What happens at the leftmost pair of u: `Keep(k)` leaves the first k bytes
      as they are, `Replace(a, b)` puts a marker in place of bytes a..b. */
  function Judge(u: string, secret: string -> bool, h: Hit): (v: Verdict)
    requires h.Hit? && h.Within(u)
    ensures v.Keep? ==> h.End() <= v.upTo <= |u|
    ensures v.Replace? ==> v.from == h.End() < v.upTo <= |u|
  {
    var value := u[h.End()..];
    if !NameIsSecret(u, secret, h) then Keep(h.End())
    else if MarkerExtent(value) > 0 then Keep(h.End() + MarkerExtent(value))
    else if ValueExtent(value) == 0 then Keep(h.End())
    else Replace(h.End(), h.End() + ValueExtent(value))
  }

  /** The key/value pass: each leftmost pair is judged, then the rest after it. */
  function Scrub(u: string, secret: string -> bool): string
    decreases |u|
  {
    var h := FirstPair(u);
    if h.NoHit? then u
    else
      match Judge(u, secret, h)
      case Keep(k) => u[..k] + Scrub(u[k..], secret)
      case Replace(a, b) => u[..a] + MarkerFor(u[a..]) + Scrub(u[b..], secret)
  }

  // ---------- a match is decided by its own bytes ----------

  /** What the pattern says about bytes i..e of u: the name is i..n, an optional
      quote ends at q, white space at w, u[w] separates, white space up to e —
      and, the pattern being greedy, no white space goes on after e. */
  ghost predicate Spells(u: string, i: nat, n: nat, q: nat, w: nat, e: nat) {
    && i < n <= i + 64 && n <= q <= w < e <= |u|
    && (q == n || (q == n + 1 && IsQuote(u[n])))
    && (forall k :: i <= k < n ==> In(Name, u[k]))
    && (forall k :: q <= k < w ==> In(Space, u[k]))
    && IsSeparator(u[w])
    && (forall k :: w < k < e ==> In(Space, u[k]))
    && (e < |u| ==> !In(Space, u[e]))
  }

  lemma SpellsFrom(u: string, i: nat, n: nat, q: nat, w: nat, e: nat)
    requires i <= |u|
    ensures Spells(u[i..], 0, n, q, w, e) <==> Spells(u, i, i + n, i + q, i + w, i + e)
  {
    hide In;
    if i + e <= |u| {
      assert forall k :: 0 <= k < e ==> u[i..][k] == u[i + k];
      assert forall k :: i <= k < i + e ==> u[k] == u[i..][k - i];
      if i + e < |u| { assert u[i..][e] == u[i + e]; }
    }
  }

  lemma PairSpells(u: string, i: nat) returns (q: nat, w: nat)
    requires i <= |u| && PairAtHead(u[i..]).Pair?
    ensures Spells(u, i, i + PairAtHead(u[i..]).nameLen, q, w, i + PairAtHead(u[i..]).len)
  {
    hide RunEnd, In;
    var v := u[i..];
    var n := RunEnd(v, 0, Name);
    var q0 := if n < |v| && IsQuote(v[n]) then n + 1 else n;
    var w0 := RunEnd(v, q0, Space);
    SpellsFrom(u, i, n, q0, w0, RunEnd(v, w0 + 1, Space));
    q, w := i + q0, i + w0;
  }

  lemma NoNameAfter(u: string, i: nat, n: nat, q: nat, w: nat, e: nat)
    requires Spells(u, i, n, q, w, e)
    ensures forall k :: n <= k < e ==> !In(Name, u[k])
    ensures !In(Space, u[w]) && (q == n ==> !IsQuote(u[n]))
  {
  }

  lemma SpellsPair(u: string, i: nat, n: nat, q: nat, w: nat, e: nat)
    requires Spells(u, i, n, q, w, e)
    ensures PairAtHead(u[i..]) == Pair(n - i, e - i)
  {
    hide RunEnd, In;
    var v := u[i..];
    SpellsFrom(u, i, n - i, q - i, w - i, e - i);
    NoNameAfter(v, 0, n - i, q - i, w - i, e - i);
    RunEndIs(v, 0, Name, n - i);
    RunEndIs(v, q - i, Space, w - i);
    RunEndIs(v, w - i + 1, Space, e - i);
  }

  /** The matcher agrees with the pattern: it finds a match at the head of u exactly
      when u can be read as the pattern says. */
  lemma MatchesThePattern(u: string)
    ensures PairAtHead(u).Pair? <==> exists n, q, w, e :: Spells(u, 0, n, q, w, e)
  {
    hide PairAtHead;
    assert u[0..] == u;
    if PairAtHead(u).Pair? {
      var q, w := PairSpells(u, 0);
    }
    forall n, q, w, e | Spells(u, 0, n, q, w, e)
      ensures PairAtHead(u).Pair?
    {
      SpellsPair(u, 0, n, q, w, e);
    }
  }

  lemma PairShared(u: string, v: string, i: nat, e: nat)
    requires i <= |u| && PairAtHead(u[i..]).Pair? && e == i + PairAtHead(u[i..]).len <= |v|
    requires u[..e] == v[..e] && NoSpaceAhead(v[e..])
    ensures PairAtHead(v[i..]) == PairAtHead(u[i..])
  {
    hide PairAtHead;
    var q, w := PairSpells(u, i);
    assert forall k :: 0 <= k < e ==> u[..e][k] == v[..e][k];
    SpellsPair(v, i, i + PairAtHead(u[i..]).nameLen, q, w, e);
  }

  /** Where no match starts before a match, none starts there in a text that
      shares everything up to the end of that match. */
  lemma NoPairShared(u: string, v: string, i: nat, start: nat, e: nat)
    requires i < start <= |u| && PairAtHead(u[i..]).NoPair? && PairAtHead(u[start..]).Pair?
    requires e == start + PairAtHead(u[start..]).len <= |v| && u[..e] == v[..e]
    ensures PairAtHead(v[i..]).NoPair?
  {
    hide PairAtHead;
    if PairAtHead(v[i..]).Pair? {
      var n, e' := i + PairAtHead(v[i..]).nameLen, i + PairAtHead(v[i..]).len;
      var q, w := PairSpells(v, i);
      var m := start + PairAtHead(u[start..]).nameLen;
      var p, x := PairSpells(u, start);
      assert forall k :: 0 <= k < e ==> u[..e][k] == v[..e][k];
      NoNameAfter(v, i, n, q, w, e');
      NoNameAfter(u, start, m, p, x, e);
      hide In;
      if start < n {
        assert n == m;
        SpellsPair(u, i, n, p, x, e);
      } else {
        assert In(Name, u[start]) && v[start] == u[start];
        assert e' <= start;
        SpellsPair(u, i, n, q, w, e');
      }
    }
  }

  lemma {:induction false} FirstPairShared(u: string, v: string, i: nat)
    requires i <= |u| && FirstPair(u[i..]).Hit?
    requires var e := i + FirstPair(u[i..]).End(); e <= |v| && u[..e] == v[..e] && NoSpaceAhead(v[e..])
    ensures FirstPair(v[i..]) == FirstPair(u[i..])
    decreases |u| - i
  {
    hide PairAtHead;
    var h := FirstPair(u[i..]);
    var e := i + h.End();
    assert u[i..][h.start..] == u[i + h.start..];
    if h.start == 0 {
      PairShared(u, v, i, e);
    } else {
      NoPairShared(u, v, i, i + h.start, e);
      assert u[i..][1..] == u[i + 1..] && v[i..][1..] == v[i + 1..];
      FirstPairShared(u, v, i + 1);
    }
  }

  // ---------- nothing matches inside a marker ----------

  ghost predicate NoSpaceAhead(u: string) { u == "" || !In(Space, u[0]) }

  ghost predicate IsMarkerForm(m: string) {
    m == MARKER || m == Quoted('"') || m == Quoted('\'')
  }

  lemma NoNameNoPair(u: string)
    requires u == "" || !In(Name, u[0])
    ensures PairAtHead(u).NoPair?
  {
  }

  /** A name run that a byte outside quotes, white space and separators ends. */
  lemma NoPairBefore(u: string, n: nat)
    requires n < |u| && (forall k :: 0 <= k < n ==> In(Name, u[k]))
    requires !In(Name, u[n]) && !In(Space, u[n]) && !IsQuote(u[n]) && !IsSeparator(u[n])
    ensures PairAtHead(u).NoPair?
  {
    hide RunEnd, In;
    RunEndIs(u, 0, Name, n);
    RunEndIs(u, n, Space, n);
  }

  /** Names and brackets, with a bracket at the end. */
  ghost predicate Inert(w: string) {
    && (forall i :: 0 <= i < |w| ==> In(Name, w[i]) || w[i] == '[' || w[i] == ']')
    && (w != "" ==> w[|w| - 1] == ']')
  }

  lemma NoPairAhead(w: string, y: string)
    requires Inert(w) && w != ""
    ensures PairAtHead(w + y).NoPair?
  {
    hide PairAtHead, RunEnd;
    assert !In(Name, w[|w| - 1]);
    var n := RunEnd(w, 0, Name);
    assert n < |w| && !In(Name, w[n]);
    assert forall k :: 0 <= k < n ==> (w + y)[k] == w[k];
    assert w[n] == '[' || w[n] == ']';
    NoPairBefore(w + y, n);
  }

  lemma {:induction false} NoPairInInert(w: string, y: string)
    requires Inert(w)
    ensures FirstPair(w + y) == FirstPair(y).Shift(|w|)
  {
    hide PairAtHead, In;
    if w == "" {
      assert w + y == y;
    } else {
      NoPairAhead(w, y);
      NoPairInInert(w[1..], y);
      assert (w + y)[1..] == w[1..] + y;
    }
  }

  lemma NoPairInMarker(y: string)
    ensures FirstPair(MARKER + y) == FirstPair(y).Shift(|MARKER|)
  {
    hide FirstPair;
    NoPairInInert(MARKER, y);
  }

  lemma SkipByte(c: char, u: string)
    requires !In(Name, c)
    ensures FirstPair([c] + u) == FirstPair(u).Shift(1)
  {
    NoNameNoPair([c] + u);
    hide PairAtHead, In;
    assert ([c] + u)[1..] == u;
  }

  lemma SkipQuoted(q: char, word: string, y: string)
    requires !In(Name, q)
    requires FirstPair(word + ([q] + y)) == FirstPair([q] + y).Shift(|word|)
    ensures FirstPair([q] + word + [q] + y) == FirstPair(y).Shift(|word| + 2)
  {
    hide FirstPair, PairAtHead, In;
    SkipByte(q, word + ([q] + y));
    SkipByte(q, y);
    assert [q] + word + [q] + y == [q] + (word + ([q] + y));
  }

  lemma NoPairInForm(m: string, y: string)
    requires IsMarkerForm(m)
    ensures FirstPair(m + y) == FirstPair(y).Shift(|m|)
  {
    hide FirstPair;
    if m == MARKER {
      NoPairInMarker(y);
    } else {
      var q := if m == Quoted('"') then '"' else '\'';
      NoPairInMarker([q] + y);
      SkipQuoted(q, MARKER, y);
    }
  }

  /** The form at the head of u that `MarkerExtent` measures. */
  function MarkerAtHead(u: string): (m: string)
    requires MarkerExtent(u) > 0
    ensures IsMarkerForm(m) && m <= u && |m| == MarkerExtent(u)
  {
    if Quoted('"') <= u then Quoted('"') else if Quoted('\'') <= u then Quoted('\'') else MARKER
  }

  lemma MarkerIsMeasured(m: string, y: string)
    requires IsMarkerForm(m)
    ensures MarkerExtent(m + y) == |m| && Fenced(m) && !In(Space, m[0])
  {
    var u := m + y;
    assert u[0] == m[0];
    assert Quoted('"') <= u ==> u[0] == '"';
    assert Quoted('\'') <= u ==> u[0] == '\'';
    assert MARKER <= u ==> u[0] == '[';
  }

  ghost predicate StartsNothing(u: string) { u == "" || IsTerminator(u[0]) }

  /** A value is empty exactly where the text ends or a terminator stands. */
  lemma EmptyValue(u: string)
    requires NoSpaceAhead(u)
    ensures ValueExtent(u) == 0 <==> StartsNothing(u)
    ensures StartsNothing(u) ==> MarkerExtent(u) == 0
  {
    assert Quoted('"') <= u ==> u[0] == '"';
    assert Quoted('\'') <= u ==> u[0] == '\'';
    assert MARKER <= u ==> u[0] == '[';
    hide PairAtHead;
  }

  // ---------- the pass is idempotent ----------

  lemma ScrubHead(u: string, secret: string -> bool)
    ensures u == "" <==> Scrub(u, secret) == ""
    ensures u != "" ==> Scrub(u, secret)[0] == u[0]
  {
    hide FirstPair, PairAtHead, Judge;
  }

  lemma PairIsGreedy(u: string, h: Hit)
    requires FirstPair(u) == h && h.Hit?
    ensures h.End() < |u| ==> !In(Space, u[h.End()])
  {
    hide FirstPair, PairAtHead, In;
    var q, w := PairSpells(u, h.start);
  }

  /** The first pair of u, together with the byte after it, is the first pair of
      any text that starts with the same bytes and does not go on with a space. */
  lemma FirstPairKept(u: string, h: Hit, t: string)
    requires FirstPair(u) == h && h.Hit? && h.End() <= |t| && t[..h.End()] == u[..h.End()]
    requires h.End() < |t| ==> (h.End() < |u| && t[h.End()] == u[h.End()]) || !In(Space, t[h.End()])
    ensures FirstPair(t) == h
  {
    hide FirstPair, PairAtHead, In;
    PairIsGreedy(u, h);
    assert u[0..] == u && t[0..] == t;
    FirstPairShared(u, t, 0);
  }

  predicate NameIsSecret(u: string, secret: string -> bool, h: Hit)
    requires h.Hit? && h.Within(u)
  {
    secret(u[h.start..h.start + h.pair.nameLen])
  }

  lemma JudgeMarked(t: string, secret: string -> bool, h: Hit, m: string, y: string)
    requires h.Hit? && h.Within(t) && NameIsSecret(t, secret, h)
    requires IsMarkerForm(m) && t[h.End()..] == m + y
    ensures Judge(t, secret, h) == Keep(h.End() + |m|)
  {
    hide MarkerExtent, ValueExtent;
    MarkerIsMeasured(m, y);
  }

  lemma SameName(u: string, t: string, secret: string -> bool, h: Hit)
    requires h.Hit? && h.Within(u) && h.Within(t) && t[..h.End()] == u[..h.End()]
    ensures NameIsSecret(t, secret, h) == NameIsSecret(u, secret, h)
  {
    var i, j := h.start, h.start + h.pair.nameLen;
    assert u[i..j] == u[..h.End()][i..j] == t[..h.End()][i..j] == t[i..j];
  }

  lemma SameEmptyValue(value: string, value': string)
    requires NoSpaceAhead(value) && (value == "" <==> value' == "")
    requires value != "" ==> value'[0] == value[0]
    ensures ValueExtent(value) == 0 ==> ValueExtent(value') == 0 && MarkerExtent(value') == 0
  {
    hide ValueExtent, MarkerExtent, In;
    EmptyValue(value);
    EmptyValue(value');
  }

  lemma JudgeKept(u: string, t: string, secret: string -> bool, h: Hit)
    requires h.Hit? && h.Within(u) && NoSpaceAhead(u[h.End()..]) && Judge(u, secret, h) == Keep(h.End())
    requires h.Within(t) && t[..h.End()] == u[..h.End()]
    requires u[h.End()..] == "" <==> t[h.End()..] == ""
    requires u[h.End()..] != "" ==> t[h.End()..][0] == u[h.End()..][0]
    ensures Judge(t, secret, h) == Keep(h.End())
  {
    hide MarkerExtent, ValueExtent, In, NameIsSecret;
    SameName(u, t, secret, h);
    SameEmptyValue(u[h.End()..], t[h.End()..]);
  }

  lemma ScrubKeeps(u: string, secret: string -> bool, h: Hit, k: nat)
    requires FirstPair(u) == h && h.Hit? && Judge(u, secret, h) == Keep(k)
    ensures Scrub(u, secret) == u[..k] + Scrub(u[k..], secret)
  {
  }

  lemma ScrubNothing(u: string, secret: string -> bool)
    requires FirstPair(u).NoHit?
    ensures Scrub(u, secret) == u
  {
  }

  lemma ScrubReplaces(u: string, secret: string -> bool, h: Hit, a: nat, b: nat)
    requires FirstPair(u) == h && h.Hit? && Judge(u, secret, h) == Replace(a, b)
    ensures Scrub(u, secret) == u[..a] + MarkerFor(u[a..]) + Scrub(u[b..], secret)
  {
  }

  lemma {:induction false} ScrubTwice(u: string, secret: string -> bool)
    ensures Scrub(Scrub(u, secret), secret) == Scrub(u, secret)
    decreases |u|
  {
    hide FirstPair, PairAtHead, MarkerExtent, ValueExtent, Judge, MarkerFor;
    var h, t := FirstPair(u), Scrub(u, secret);
    if h.Hit? {
      var e := h.End();
      match Judge(u, secret, h) {
        case Keep(k) =>
          var y := Scrub(u[k..], secret);
          ScrubHead(u[k..], secret);
          assert t[..k] == u[..k] && t[k..] == y;
          SettlesKept(u, secret, h, k, t);
          ScrubKeeps(t, secret, h, k);
          ScrubTwice(u[k..], secret);
        case Replace(a, b) =>
          var m, y := MarkerFor(u[a..]), Scrub(u[b..], secret);
          var k := a + |m|;
          assert t == u[..a] + m + y;
          assert t[..k] == u[..a] + m && t[k..] == y;
          SettlesReplaced(u, secret, h, m, y, t);
          ScrubKeeps(t, secret, h, k);
          ScrubTwice(u[b..], secret);
      }
    }
  }

  lemma SettlesKept(u: string, secret: string -> bool, h: Hit, k: nat, t: string)
    requires FirstPair(u) == h && h.Hit? && Judge(u, secret, h) == Keep(k)
    requires k <= |t| && t[..k] == u[..k]
    requires |u| == k <==> |t| == k
    requires k < |u| && k < |t| ==> t[k] == u[k]
    ensures FirstPair(t) == h && Judge(t, secret, h) == Keep(k)
  {
    hide FirstPair, PairAtHead, MarkerExtent, ValueExtent;
    var e := h.End();
    assert t[..e] == t[..k][..e] && u[..e] == u[..k][..e];
    if k == e {
      FirstPairKept(u, h, t);
      PairIsGreedy(u, h);
      JudgeKept(u, t, secret, h);
    } else {
      var m := MarkerAtHead(u[e..]);
      assert t[..k][e..] == u[..k][e..] == m;
      assert t[e..] == m + t[k..];
      assert t[e] == t[..k][e] == u[..k][e] == u[e];
      FirstPairKept(u, h, t);
      assert t[h.start..h.start + h.pair.nameLen] == u[h.start..h.start + h.pair.nameLen];
      JudgeMarked(t, secret, h, m, t[k..]);
    }
  }

  lemma SettlesReplaced(u: string, secret: string -> bool, h: Hit, m: string, y: string, t: string)
    requires FirstPair(u) == h && h.Hit? && Judge(u, secret, h).Replace?
    requires m == MarkerFor(u[h.End()..]) && t == u[..h.End()] + m + y
    ensures FirstPair(t) == h && Judge(t, secret, h) == Keep(h.End() + |m|)
  {
    hide FirstPair, PairAtHead, MarkerExtent, ValueExtent;
    var e := h.End();
    assert t[..e] == u[..e] && t[e..] == m + y;
    MarkerIsMeasured(m, y);
    FirstPairKept(u, h, t);
    assert t[h.start..h.start + h.pair.nameLen] == u[h.start..h.start + h.pair.nameLen];
    JudgeMarked(t, secret, h, m, y);
  }

  // ---------- the scanner, step by step ----------

  /** One element of what FindAll returns: the name is start..nameEnd. */
  datatype Span = Span(start: nat, nameEnd: nat, end: nat)

  predicate SpanWithin(m: Span, pos: nat, n: nat) { pos <= m.start < m.nameEnd < m.end <= n }

  /** The leftmost match from pos on, the leftmost after its end, and so on. */
  function AllPairs(s: string, pos: nat): (spans: seq<Span>)
    requires pos <= |s|
    ensures forall m :: m in spans ==> SpanWithin(m, pos, |s|)
    decreases |s| - pos
  {
    var h := FirstPair(s[pos..]);
    if h.NoHit? then []
    else [Span(pos + h.start, pos + h.start + h.pair.nameLen, pos + h.End())] + AllPairs(s, pos + h.End())
  }

  lemma SkipHead(u: string)
    requires u != "" && (PairAtHead(u).NoPair? || FirstPair(u).NoHit? || FirstPair(u).start > 0)
    ensures FirstPair(u) == FirstPair(u[1..]).Shift(1)
  {
    hide PairAtHead;
  }

  lemma FirstPairLater(u: string, k: nat)
    requires k <= |u| && (FirstPair(u).NoHit? || FirstPair(u).start >= k)
    ensures FirstPair(u) == FirstPair(u[k..]).Shift(k)
  {
    hide FirstPair, PairAtHead;
    if k == 0 {
      assert u[0..] == u;
    } else {
      SkipHead(u);
      FirstPairLater(u[1..], k - 1);
      assert u[1..][k - 1..] == u[k..];
    }
  }

  lemma NamelessPrefix(u: string, k: nat)
    requires k <= |u| && (forall i :: 0 <= i < k ==> !In(Name, u[i]))
    ensures FirstPair(u) == FirstPair(u[k..]).Shift(k)
  {
    hide FirstPair, PairAtHead, In;
    if k == 0 {
      assert u[0..] == u;
    } else {
      NoNameNoPair(u);
      SkipHead(u);
      NamelessPrefix(u[1..], k - 1);
      assert u[1..][k - 1..] == u[k..];
    }
  }

  lemma JudgeLater(u: string, k: nat, secret: string -> bool, h: Hit)
    requires k <= |u| && h.Hit? && h.Within(u[k..])
    ensures match Judge(u[k..], secret, h)
            case Keep(a) => Judge(u, secret, h.Shift(k)) == Keep(k + a)
            case Replace(a, b) => Judge(u, secret, h.Shift(k)) == Replace(k + a, k + b)
  {
    hide MarkerExtent, ValueExtent;
    assert u[k..][h.End()..] == u[h.Shift(k).End()..];
    assert u[k..][h.start..h.start + h.pair.nameLen] == u[k + h.start..k + h.start + h.pair.nameLen];
  }

  lemma ScrubLater(u: string, k: nat, secret: string -> bool)
    requires k <= |u| && FirstPair(u) == FirstPair(u[k..]).Shift(k)
    ensures Scrub(u, secret) == u[..k] + Scrub(u[k..], secret)
  {
    hide FirstPair, PairAtHead, Judge, Scrub, MarkerFor;
    var h, v := FirstPair(u[k..]), u[k..];
    if h.NoHit? {
      ScrubNothing(u, secret);
      ScrubNothing(v, secret);
      assert u == u[..k] + v;
    } else {
      var j := Judge(v, secret, h);
      JudgeLater(u, k, secret, h);
      SplitLater(u, k, j.upTo);
      if j.Keep? {
        KeepLater(u, k, secret, h, j.upTo);
      } else {
        ReplaceLater(u, k, secret, h, j.from, j.upTo);
      }
    }
  }

  lemma KeepLater(u: string, k: nat, secret: string -> bool, h: Hit, a: nat)
    requires k <= |u| && h.Hit? && FirstPair(u[k..]) == h && FirstPair(u) == h.Shift(k)
    requires Judge(u[k..], secret, h) == Keep(a) && Judge(u, secret, h.Shift(k)) == Keep(k + a)
    ensures Scrub(u, secret) == u[..k] + Scrub(u[k..], secret)
  {
    hide FirstPair, PairAtHead, Judge, Scrub;
    ScrubKeeps(u[k..], secret, h, a);
    ScrubKeeps(u, secret, h.Shift(k), k + a);
    SplitLater(u, k, a);
    Regroup(u[..k], u[k..][..a], "", Scrub(u[k + a..], secret));
  }

  lemma ReplaceLater(u: string, k: nat, secret: string -> bool, h: Hit, a: nat, b: nat)
    requires k <= |u| && h.Hit? && FirstPair(u[k..]) == h && FirstPair(u) == h.Shift(k)
    requires Judge(u[k..], secret, h) == Replace(a, b) && Judge(u, secret, h.Shift(k)) == Replace(k + a, k + b)
    ensures Scrub(u, secret) == u[..k] + Scrub(u[k..], secret)
  {
    hide FirstPair, PairAtHead, Judge, Scrub, MarkerFor;
    ScrubReplaces(u[k..], secret, h, a, b);
    ScrubReplaces(u, secret, h.Shift(k), k + a, k + b);
    SplitLater(u, k, a);
    SplitLater(u, k, b);
    Regroup(u[..k], u[k..][..a], MarkerFor(u[k + a..]), Scrub(u[k + b..], secret));
  }

  lemma SplitLater(u: string, k: nat, a: nat)
    requires k + a <= |u|
    ensures u[k..][a..] == u[k + a..] && u[..k + a] == u[..k] + u[k..][..a]
  {
  }

  /** No name reaches across index c. */
  ghost predicate Boundary(s: string, c: nat) {
    c <= |s| && (0 < c < |s| ==> !In(Name, s[c - 1]) || !In(Name, s[c]))
  }

  lemma ValueEndsName(v: string)
    requires ValueExtent(v) > 0
    ensures Boundary(v, ValueExtent(v))
  {
    hide PairAtHead;
    if IsQuote(v[0]) {
      var close := ClosingQuote(v, v[0], 1);
      assert close >= 0 ==> v[close - 1] == v[0];
    }
  }

  lemma MarkerEndsName(v: string)
    requires MarkerExtent(v) > 0
    ensures Boundary(v, MarkerExtent(v))
  {
    var m := MarkerAtHead(v);
    MarkerIsMeasured(m, "");
    assert v[|m| - 1] == m[|m| - 1];
  }

  lemma BoundaryLater(s: string, k: nat, n: nat)
    requires k <= |s| && 0 < n && Boundary(s[k..], n)
    ensures Boundary(s, k + n)
  {
  }

  lemma Straddle(s: string, h: Hit, cursor: nat, secret: string -> bool)
    requires h.Hit? && h.Within(s) && PairAtHead(s[h.start..]) == h.pair
    requires h.start < cursor < h.End() && Boundary(s, cursor)
    ensures Scrub(s[cursor..], secret) == s[cursor..h.End()] + Scrub(s[h.End()..], secret)
  {
    hide FirstPair, PairAtHead, In, Scrub;
    var n, k := h.start + h.pair.nameLen, h.End() - cursor;
    var q, w := PairSpells(s, h.start);
    NoNameAfter(s, h.start, n, q, w, h.End());
    assert !In(Name, s[cursor - 1]) || !In(Name, s[cursor]);
    assert cursor >= n;
    assert forall i :: 0 <= i < k ==> s[cursor..][i] == s[cursor + i];
    NamelessPrefix(s[cursor..], k);
    assert s[cursor..][k..] == s[h.End()..] && s[cursor..][..k] == s[cursor..h.End()];
    ScrubLater(s[cursor..], k, secret);
  }

  /** Resuming the search at pos instead of at the cursor beyond it changes nothing
      but matches that start before the cursor, and these contribute no byte of
      name after it. */
  lemma {:induction false} Resume(s: string, pos: nat, cursor: nat, secret: string -> bool)
    requires pos <= cursor && Boundary(s, cursor)
    ensures var h := FirstPair(s[pos..]).Shift(pos);
            if h.NoHit? || h.start >= cursor then FirstPair(s[cursor..]).Shift(cursor) == h
            else h.End() > cursor ==>
              Scrub(s[cursor..], secret) == s[cursor..h.End()] + Scrub(s[h.End()..], secret)
  {
    hide FirstPair, PairAtHead, In, Scrub;
    var h := FirstPair(s[pos..]).Shift(pos);
    if h.NoHit? || h.start >= cursor {
      assert s[pos..][cursor - pos..] == s[cursor..];
      FirstPairLater(s[pos..], cursor - pos);
    } else if h.End() > cursor {
      assert s[pos..][h.start - pos..] == s[h.start..];
      Straddle(s, h, cursor, secret);
    }
  }

  // ---------- redactText ----------

  function Redacted(s: string, secret: string -> bool): string {
    Scrub(MaskKeys(s), secret)
  }

  /** What the scanner keeps true: with the search resuming at pos and everything
      before the cursor written to `out`, the result is known up to whichever of
      the two is further. */
  ghost predicate Scanning(s: string, secret: string -> bool, out: string, cursor: nat, pos: nat) {
    && pos <= |s| && Boundary(s, cursor)
    && Scrub(s, secret) == out + s[cursor..Max(cursor, pos)] + Scrub(s[Max(cursor, pos)..], secret)
  }

  lemma NextSpan(s: string, pos: nat, cursor: nat, secret: string -> bool)
    requires pos <= |s| && Boundary(s, cursor) && AllPairs(s, pos) != []
    ensures var m := AllPairs(s, pos)[0];
            var p := Max(cursor, pos);
            if m.start >= cursor
            then p <= m.start && FirstPair(s[p..]) == Hit(m.start - p, Pair(m.nameEnd - m.start, m.end - m.start))
            else m.end > p ==> Scrub(s[p..], secret) == s[p..m.end] + Scrub(s[m.end..], secret)
  {
    hide FirstPair, PairAtHead, Scrub, Boundary;
    if pos <= cursor { Resume(s, pos, cursor, secret); }
  }

  lemma Skips(s: string, secret: string -> bool, out: string, cursor: nat, pos: nat, end: nat)
    requires Scanning(s, secret, out, cursor, pos) && end <= |s|
    requires Max(cursor, pos) <= end ==>
      Scrub(s[Max(cursor, pos)..], secret) == s[Max(cursor, pos)..end] + Scrub(s[end..], secret)
    requires pos <= end
    ensures Scanning(s, secret, out, cursor, end)
  {
    hide Scrub, Boundary;
    var p := Max(cursor, pos);
    if p <= end { assert s[cursor..p] + s[p..end] == s[cursor..end]; }
  }

  lemma Writes(s: string, secret: string -> bool, out: string, cursor: nat, pos: nat,
               end: nat, piece: string, next: nat)
    requires Scanning(s, secret, out, cursor, pos)
    requires pos <= end <= next && Max(cursor, pos) <= end && Boundary(s, next)
    requires Scrub(s[Max(cursor, pos)..], secret) == s[Max(cursor, pos)..end] + piece + Scrub(s[next..], secret)
    ensures Scanning(s, secret, out + s[cursor..end] + piece, next, end)
  {
    hide Scrub, Boundary;
    BoundaryIsInside(s, next);
    var p := Max(cursor, pos);
    assert s[cursor..p] + s[p..end] == s[cursor..end];
    assert s[next..next] == "";
    Splice(out, s[cursor..p], s[p..end], piece, Scrub(s[next..], secret));
  }

  lemma Splice(out: string, a: string, b: string, piece: string, rest: string)
    ensures out + a + (b + piece + rest) == out + (a + b) + piece + "" + rest
  {
  }

  lemma BoundaryIsInside(s: string, k: nat)
    requires Boundary(s, k)
    ensures k <= |s|
  {
  }

  lemma ScansFrom(s: string, p: nat, secret: string -> bool, m: Span)
    requires SpanWithin(m, p, |s|)
    requires FirstPair(s[p..]) == Hit(m.start - p, Pair(m.nameEnd - m.start, m.end - m.start))
    ensures var value := s[m.end..];
            if !secret(s[m.start..m.nameEnd]) || (MarkerExtent(value) == 0 && ValueExtent(value) == 0)
            then Scrub(s[p..], secret) == s[p..m.end] + Scrub(s[m.end..], secret)
            else if MarkerExtent(value) > 0
            then
              && Boundary(s, m.end + MarkerExtent(value))
              && Scrub(s[p..], secret) == s[p..m.end] + s[m.end..m.end + MarkerExtent(value)]
                                          + Scrub(s[m.end + MarkerExtent(value)..], secret)
            else
              && Boundary(s, m.end + ValueExtent(value))
              && Scrub(s[p..], secret) == s[p..m.end] + MarkerFor(value)
                                          + Scrub(s[m.end + ValueExtent(value)..], secret)
  {
    hide FirstPair, PairAtHead, Scrub, Judge, MarkerFor, Boundary, MarkerExtent, ValueExtent;
    JudgeSpan(s, p, secret, m);
    var j := Judge(s[p..], secret, FirstPair(s[p..]));
    if j.Keep? {
      KeepsSpan(s, p, secret, m, p + j.upTo);
      if MarkerExtent(s[m.end..]) > 0 {
        MarkerEndsName(s[m.end..]);
        BoundaryLater(s, m.end, MarkerExtent(s[m.end..]));
      }
    } else {
      ReplacesSpan(s, p, secret, m, p + j.upTo);
      ValueEndsName(s[m.end..]);
      BoundaryLater(s, m.end, ValueExtent(s[m.end..]));
    }
  }

  lemma KeepsSpan(s: string, p: nat, secret: string -> bool, m: Span, next: nat)
    requires SpanWithin(m, p, |s|) && m.end <= next <= |s|
    requires FirstPair(s[p..]) == Hit(m.start - p, Pair(m.nameEnd - m.start, m.end - m.start))
    requires Judge(s[p..], secret, FirstPair(s[p..])) == Keep(next - p)
    ensures next == m.end ==> Scrub(s[p..], secret) == s[p..m.end] + Scrub(s[m.end..], secret)
    ensures Scrub(s[p..], secret) == s[p..m.end] + s[m.end..next] + Scrub(s[next..], secret)
  {
    hide FirstPair, PairAtHead, Scrub, Judge;
    var u := s[p..];
    ScrubKeeps(u, secret, FirstPair(u), next - p);
    assert u[next - p..] == s[next..];
    assert u[..next - p] == s[p..m.end] + s[m.end..next];
    assert s[m.end..m.end] == "" && s[p..m.end] + "" == s[p..m.end];
  }

  lemma ReplacesSpan(s: string, p: nat, secret: string -> bool, m: Span, next: nat)
    requires SpanWithin(m, p, |s|) && m.end <= next <= |s|
    requires FirstPair(s[p..]) == Hit(m.start - p, Pair(m.nameEnd - m.start, m.end - m.start))
    requires Judge(s[p..], secret, FirstPair(s[p..])) == Replace(m.end - p, next - p)
    ensures Scrub(s[p..], secret) == s[p..m.end] + MarkerFor(s[m.end..]) + Scrub(s[next..], secret)
  {
    hide FirstPair, PairAtHead, Scrub, Judge, MarkerFor;
    var u := s[p..];
    ScrubReplaces(u, secret, FirstPair(u), m.end - p, next - p);
    assert u[next - p..] == s[next..] && u[..m.end - p] == s[p..m.end] && u[m.end - p..] == s[m.end..];
  }

  lemma JudgeSpan(s: string, p: nat, secret: string -> bool, m: Span)
    requires SpanWithin(m, p, |s|)
    requires FirstPair(s[p..]) == Hit(m.start - p, Pair(m.nameEnd - m.start, m.end - m.start))
    ensures var value := s[m.end..];
            Judge(s[p..], secret, FirstPair(s[p..])) ==
            if !secret(s[m.start..m.nameEnd]) then Keep(m.end - p)
            else if MarkerExtent(value) > 0 then Keep(m.end - p + MarkerExtent(value))
            else if ValueExtent(value) == 0 then Keep(m.end - p)
            else Replace(m.end - p, m.end - p + ValueExtent(value))
  {
    hide FirstPair, PairAtHead, MarkerExtent, ValueExtent;
    var u, h := s[p..], FirstPair(s[p..]);
    assert u[h.End()..] == s[m.end..] && u[h.start..h.start + h.pair.nameLen] == s[m.start..m.nameEnd];
  }

  /** What one match does to the output and the cursor. */
  lemma ScanStep(s: string, secret: string -> bool, out: string, cursor: nat, pos: nat, m: Span)
    requires Scanning(s, secret, out, cursor, pos)
    requires AllPairs(s, pos) != [] && AllPairs(s, pos)[0] == m
    ensures SpanWithin(m, pos, |s|)
    ensures var value := s[m.end..];
            if m.start < cursor || !secret(s[m.start..m.nameEnd])
               || (MarkerExtent(value) == 0 && ValueExtent(value) == 0)
            then Scanning(s, secret, out, cursor, m.end)
            else if MarkerExtent(value) > 0
            then Scanning(s, secret, out + s[cursor..m.end + MarkerExtent(value)], m.end + MarkerExtent(value), m.end)
            else Scanning(s, secret, out + s[cursor..m.end] + MarkerFor(value), m.end + ValueExtent(value), m.end)
  {
    hide FirstPair, PairAtHead, Scrub, MarkerExtent, ValueExtent, MarkerFor, Boundary, AllPairs;
    assert SpanWithin(m, pos, |s|);
    NextSpan(s, pos, cursor, secret);
    if m.start < cursor {
      Skips(s, secret, out, cursor, pos, m.end);
    } else {
      var value := s[m.end..];
      ScansFrom(s, Max(cursor, pos), secret, m);
      if !secret(s[m.start..m.nameEnd]) || (MarkerExtent(value) == 0 && ValueExtent(value) == 0) {
        Skips(s, secret, out, cursor, pos, m.end);
      } else if MarkerExtent(value) > 0 {
        var next := m.end + MarkerExtent(value);
        Writes(s, secret, out, cursor, pos, m.end, s[m.end..next], next);
        assert out + s[cursor..m.end] + s[m.end..next] == out + s[cursor..next];
      } else {
        Writes(s, secret, out, cursor, pos, m.end, MarkerFor(value), m.end + ValueExtent(value));
      }
    }
  }

  lemma ScanEnd(s: string, secret: string -> bool, out: string, cursor: nat, pos: nat)
    requires Scanning(s, secret, out, cursor, pos) && AllPairs(s, pos) == []
    ensures Scrub(s, secret) == out + s[cursor..]
  {
    hide FirstPair, PairAtHead, Scrub;
    var p := Max(cursor, pos);
    assert FirstPair(s[pos..]).NoHit?;
    if pos <= cursor { Resume(s, pos, cursor, secret); }
    ScrubNothing(s[p..], secret);
    assert s[cursor..p] + s[p..] == s[cursor..];
  }

  /** The loop over the matches. */
  method ScrubMatches(s: string, secret: string -> bool, matches: seq<Span>) returns (out: string)
    requires matches == AllPairs(s, 0)
    ensures out == Scrub(s, secret)
  {
    hide FirstPair, PairAtHead, Scrub, MarkerExtent, ValueExtent, AllPairs, Scanning, MarkerFor;
    ScanStart(s, secret);
    out := "";
    var cursor: nat := 0;
    ghost var pos: nat := 0;
    for i := 0 to |matches|
      invariant Scanning(s, secret, out, cursor, pos)
      invariant pos <= |s| && cursor <= |s| && matches[i..] == AllPairs(s, pos)
    {
      var m := matches[i];
      ScanStep(s, secret, out, cursor, pos, m);
      NextSpans(s, pos);
      assert matches[i..][1..] == matches[i + 1..];
      pos := m.end;
      if m.start < cursor {
        continue;
      }
      if !secret(s[m.start..m.nameEnd]) {
        continue;
      }
      var value := s[m.end..];
      var n := MarkerExtent(value);
      if n > 0 {
        out := out + s[cursor..m.end + n];
        cursor := m.end + n;
        continue;
      }
      n := ValueExtent(value);
      if n == 0 {
        continue;
      }
      SameQuoting(value, n);
      out := out + s[cursor..m.end];
      out := out + MarkerFor(value[..n]);
      cursor := m.end + n;
    }
    ScanEnd(s, secret, out, cursor, pos);
    out := out + s[cursor..];
  }

  method RedactText(input: string, secret: string -> bool) returns (out: string)
    ensures out == Redacted(input, secret)
  {
    if input == "" {
      EmptyText(secret);
      return input;
    }
    var s := MaskKeys(input);
    var matches := AllPairs(s, 0);
    if matches == [] {
      hide Scrub, MaskKeys;
      ScanStart(s, secret);
      ScanEnd(s, secret, "", 0, 0);
      return s;
    }
    out := ScrubMatches(s, secret, matches);
  }

  lemma EmptyText(secret: string -> bool)
    ensures Redacted("", secret) == ""
  {
  }

  lemma ScanStart(s: string, secret: string -> bool)
    ensures Scanning(s, secret, "", 0, 0)
  {
    hide Scrub;
    assert s[0..] == s && s[0..0] == "";
  }

  lemma NextSpans(s: string, pos: nat)
    requires pos <= |s| && AllPairs(s, pos) != []
    ensures AllPairs(s, pos)[1..] == AllPairs(s, AllPairs(s, pos)[0].end)
  {
    hide FirstPair, PairAtHead;
    var h := FirstPair(s[pos..]);
    assert AllPairs(s, pos)[1..] == AllPairs(s, pos + h.End());
  }

  lemma SameQuoting(value: string, n: nat)
    requires 0 < n <= |value|
    ensures MarkerFor(value[..n]) == MarkerFor(value)
  {
  }

  // ---------- what the result is ----------

  lemma {:induction false} ScrubKeyFree(a: string, u: string, secret: string -> bool)
    requires KeyFree(a + u)
    ensures KeyFree(a + Scrub(u, secret))
    decreases |u|
  {
    hide FirstPair, PairAtHead, KeyFree, Judge, MarkerFor, Scrub;
    var h := FirstPair(u);
    if h.NoHit? {
      ScrubNothing(u, secret);
    } else {
      var j := Judge(u, secret, h);
      if j.Keep? {
        ScrubKeeps(u, secret, h, j.upTo);
        assert a + u == (a + u[..j.upTo]) + u[j.upTo..];
        ScrubKeyFree(a + u[..j.upTo], u[j.upTo..], secret);
        assert a + Scrub(u, secret) == (a + u[..j.upTo]) + Scrub(u[j.upTo..], secret);
      } else {
        ScrubReplaces(u, secret, h, j.from, j.upTo);
        KeyFreePieces(a, u, j.from, j.upTo);
        ScrubKeyFree("", u[j.upTo..], secret);
        KeyFreeReplaced(a + u[..j.from], u[j.from..], Scrub(u[j.upTo..], secret));
        assert a + Scrub(u, secret) == (a + u[..j.from]) + MarkerFor(u[j.from..]) + Scrub(u[j.upTo..], secret);
      }
    }
  }

  lemma KeyFreePieces(a: string, u: string, i: nat, j: nat)
    requires KeyFree(a + u) && i <= j <= |u|
    ensures KeyFree(a + u[..i]) && KeyFree("" + u[j..])
  {
    hide KeyFree;
    KeyFreeParts(a + u, |a| + i);
    assert (a + u)[..|a| + i] == a + u[..i];
    KeyFreeParts(a + u, |a| + j);
    assert (a + u)[|a| + j..] == "" + u[j..];
  }

  lemma KeyFreeReplaced(a: string, value: string, b: string)
    requires value != "" && KeyFree(a) && KeyFree("" + b)
    ensures KeyFree(a + MarkerFor(value) + b)
  {
    hide KeyFree, MarkerFor;
    MarkerIsForm(value);
    MarkerIsMeasured(MarkerFor(value), "");
    assert "" + b == b;
    KeyFreeAround(a, MarkerFor(value), b);
  }

  lemma MarkerIsForm(value: string)
    requires value != ""
    ensures IsMarkerForm(MarkerFor(value))
  {
  }

  /** Redacting redacted text changes nothing, and no private-key header is left. */
  lemma {:induction false} RedactTwice(s: string, secret: string -> bool)
    ensures Redacted(Redacted(s, secret), secret) == Redacted(s, secret)
    ensures KeyFree(Redacted(s, secret))
  {
    hide MaskKeys, KeyFree, Scrub;
    var u := MaskKeys(s);
    var t := Scrub(u, secret);
    MaskedIsKeyFree(s);
    assert "" + u == u && "" + t == t;
    ScrubKeyFree("", u, secret);
    KeyFreeUnchanged(t);
    ScrubTwice(u, secret);
  }

  ghost predicate Harmless(s: string, secret: string -> bool, m: Span)
    requires SpanWithin(m, 0, |s|)
  {
    secret(s[m.start..m.nameEnd]) ==> MarkerExtent(s[m.end..]) > 0 || ValueExtent(s[m.end..]) == 0
  }

  lemma AfterMarker(s: string, pos: nat)
    requires pos <= |s| && MarkerExtent(s[pos..]) > 0
    ensures AllPairs(s, pos) == AllPairs(s, pos + MarkerExtent(s[pos..]))
  {
    hide FirstPair, PairAtHead, MarkerExtent, IsMarkerForm, MarkerAtHead;
    var m, n := MarkerAtHead(s[pos..]), MarkerExtent(s[pos..]);
    assert s[pos..][n..] == s[pos + n..] && s[pos..] == m + s[pos + n..];
    NoPairInForm(m, s[pos + n..]);
  }

  lemma {:induction false} FixedFrom(s: string, secret: string -> bool, pos: nat)
    requires pos <= |s|
    ensures Scrub(s[pos..], secret) == s[pos..] <==> forall m :: m in AllPairs(s, pos) ==> Harmless(s, secret, m)
    decreases |s| - pos
  {
    hide FirstPair, PairAtHead, Scrub, Judge, Harmless;
    var u, h := s[pos..], FirstPair(s[pos..]);
    if h.NoHit? {
      ScrubNothing(u, secret);
    } else {
      var m := Span(pos + h.start, pos + h.start + h.pair.nameLen, pos + h.End());
      assert AllPairs(s, pos) == [m] + AllPairs(s, m.end);
      if Harmless(s, secret, m) {
        var k := HarmlessStep(s, secret, pos, m);
        FixedFrom(s, secret, k);
      } else {
        HarmfulStep(s, secret, pos, m);
      }
    }
  }

  lemma HarmlessStep(s: string, secret: string -> bool, pos: nat, m: Span) returns (k: nat)
    requires SpanWithin(m, pos, |s|) && Harmless(s, secret, m)
    requires FirstPair(s[pos..]) == Hit(m.start - pos, Pair(m.nameEnd - m.start, m.end - m.start))
    ensures m.end <= k <= |s| && AllPairs(s, k) == AllPairs(s, m.end)
    ensures Scrub(s[pos..], secret) == s[pos..] <==> Scrub(s[k..], secret) == s[k..]
  {
    hide FirstPair, PairAtHead, Scrub, MarkerExtent, ValueExtent, MarkerFor, Boundary, AllPairs;
    ScansFrom(s, pos, secret, m);
    k := m.end;
    if secret(s[m.start..m.nameEnd]) && MarkerExtent(s[m.end..]) > 0 {
      k := m.end + MarkerExtent(s[m.end..]);
      AfterMarker(s, m.end);
    }
    assert s[pos..m.end] + s[m.end..k] == s[pos..k];
    assert s[pos..] == s[pos..k] + s[k..];
    SameTail(s[pos..k], Scrub(s[k..], secret), s[k..]);
  }

  lemma HarmfulStep(s: string, secret: string -> bool, pos: nat, m: Span)
    requires SpanWithin(m, pos, |s|) && !Harmless(s, secret, m)
    requires FirstPair(s[pos..]) == Hit(m.start - pos, Pair(m.nameEnd - m.start, m.end - m.start))
    ensures Scrub(s[pos..], secret) != s[pos..]
  {
    hide FirstPair, PairAtHead, Scrub, MarkerExtent, ValueExtent, MarkerFor, Boundary;
    ScansFrom(s, pos, secret, m);
    var value := s[m.end..];
    var rest := Scrub(s[m.end + ValueExtent(value)..], secret);
    assert s[pos..] == s[pos..m.end] + value;
    MarkerIsForm(value);
    MarkerIsMeasured(MarkerFor(value), rest);
    Regroup(s[pos..m.end], MarkerFor(value), "", rest);
    SameTail(s[pos..m.end], MarkerFor(value) + rest, value);
  }

  lemma SameTail(a: string, b: string, c: string)
    ensures a + b == a + c <==> b == c
  {
    assert (a + b)[|a|..] == b && (a + c)[|a|..] == c;
  }

  /** A text is left alone exactly when, of all the pairs the search finds in it,
      those with a secret name are followed by a marker or by no value at all. */
  lemma {:induction false} CleanExactlyWhenHarmless(s: string, secret: string -> bool)
    ensures Scrub(s, secret) == s <==> forall m :: m in AllPairs(s, 0) ==> Harmless(s, secret, m)
  {
    assert s[0..] == s;
    FixedFrom(s, secret, 0);
  }

  /** So no secret-named pair of the output is followed by anything else. */
  lemma {:induction false} OutputIsHarmless(s: string, secret: string -> bool)
    ensures forall m :: m in AllPairs(Redacted(s, secret), 0) ==> Harmless(Redacted(s, secret), secret, m)
  {
    ScrubTwice(MaskKeys(s), secret);
    CleanExactlyWhenHarmless(Redacted(s, secret), secret);
  }

  // ---------- and what it keeps ----------

  /** `kept` is copied; `value`, where there is one, becomes a marker. */
  datatype Piece = Kept(kept: string) | Hidden(kept: string, value: string)

  function Pieces(u: string, secret: string -> bool): seq<Piece>
    decreases |u|
  {
    var h := FirstPair(u);
    if h.NoHit? then [Kept(u)]
    else
      match Judge(u, secret, h)
      case Keep(k) => [Kept(u[..k])] + Pieces(u[k..], secret)
      case Replace(a, b) => [Hidden(u[..a], u[a..b])] + Pieces(u[b..], secret)
  }

  ghost function Original(ps: seq<Piece>): string {
    if ps == [] then "" else ps[0].kept + (if ps[0].Hidden? then ps[0].value else "") + Original(ps[1..])
  }

  ghost function Written(ps: seq<Piece>): string
    requires forall p :: p in ps && p.Hidden? ==> p.value != ""
  {
    if ps == [] then ""
    else ps[0].kept + (if ps[0].Hidden? then MarkerFor(ps[0].value) else "") + Written(ps[1..])
  }

  /** A value is hidden only after the first pair of the text its piece starts,
      when that pair has a secret name, and then it is the whole value. */
  ghost predicate Justified(ps: seq<Piece>, i: nat, secret: string -> bool)
    requires i < |ps|
  {
    ps[i].Hidden? ==>
      var rest := Original(ps[i..]);
      var h := FirstPair(rest);
      && h.Hit? && h.End() == |ps[i].kept| && NameIsSecret(rest, secret, h)
      && ps[i].value != "" && ps[i].value == rest[h.End()..][..ValueExtent(rest[h.End()..])]
      && MarkerExtent(rest[h.End()..]) == 0
  }

  lemma {:induction false} PiecesCover(u: string, secret: string -> bool)
    ensures forall p :: p in Pieces(u, secret) && p.Hidden? ==> p.value != ""
    ensures Original(Pieces(u, secret)) == u
    decreases |u|
  {
    hide FirstPair, PairAtHead, Judge, Original;
    var h, ps := FirstPair(u), Pieces(u, secret);
    if h.NoHit? {
      OriginalStep(Kept(u), []);
      assert [Kept(u)] + [] == ps && u + "" + "" == u;
    } else {
      var j := Judge(u, secret, h);
      var rest := Pieces(u[j.upTo..], secret);
      PiecesCover(u[j.upTo..], secret);
      assert ps == [ps[0]] + rest;
      OriginalStep(ps[0], rest);
      if j.Replace? {
        assert u[..j.from] + u[j.from..j.upTo] + u[j.upTo..] == u;
      } else {
        assert u[..j.upTo] + "" + u[j.upTo..] == u;
      }
    }
  }

  lemma OriginalStep(p: Piece, rest: seq<Piece>)
    ensures Original([]) == ""
    ensures Original([p] + rest) == p.kept + (if p.Hidden? then p.value else "") + Original(rest)
  {
    assert ([p] + rest)[1..] == rest;
  }

  lemma {:induction false} PiecesWritten(u: string, secret: string -> bool)
    requires forall p :: p in Pieces(u, secret) && p.Hidden? ==> p.value != ""
    ensures Written(Pieces(u, secret)) == Scrub(u, secret)
    decreases |u|
  {
    hide FirstPair, PairAtHead, Judge, MarkerFor, Scrub, Written;
    var h, ps := FirstPair(u), Pieces(u, secret);
    if h.NoHit? {
      ScrubNothing(u, secret);
      WrittenStep(Kept(u), []);
      assert [Kept(u)] + [] == ps && u + "" + "" == u;
    } else {
      var j := Judge(u, secret, h);
      var rest := Pieces(u[j.upTo..], secret);
      assert ps[1..] == rest && ps == [ps[0]] + rest;
      assert forall p :: p in rest ==> p in ps;
      PiecesWritten(u[j.upTo..], secret);
      WrittenStep(ps[0], rest);
      if j.Replace? {
        ScrubReplaces(u, secret, h, j.from, j.upTo);
        SameQuoting(u[j.from..], j.upTo - j.from);
        assert u[j.from..][..j.upTo - j.from] == u[j.from..j.upTo];
      } else {
        ScrubKeeps(u, secret, h, j.upTo);
        assert u[..j.upTo] + "" == u[..j.upTo];
      }
    }
  }

  lemma WrittenStep(p: Piece, rest: seq<Piece>)
    requires forall q :: (q == p || q in rest) && q.Hidden? ==> q.value != ""
    ensures Written([]) == ""
    ensures Written([p] + rest) == p.kept + (if p.Hidden? then MarkerFor(p.value) else "") + Written(rest)
  {
    hide MarkerFor;
    assert ([p] + rest)[1..] == rest;
  }

  lemma {:induction false} PiecesJustified(u: string, secret: string -> bool, i: nat)
    requires i < |Pieces(u, secret)|
    ensures Justified(Pieces(u, secret), i, secret)
    decreases |u|
  {
    hide FirstPair, PairAtHead, MarkerExtent, ValueExtent, Original, Judge, Justified;
    var h, ps := FirstPair(u), Pieces(u, secret);
    if i == 0 {
      FirstJustified(u, secret);
    } else if h.Hit? {
      var k := Judge(u, secret, h).upTo;
      PiecesJustified(u[k..], secret, i - 1);
      LaterJustified(ps[0], Pieces(u[k..], secret), i - 1, secret);
      assert ps == [ps[0]] + Pieces(u[k..], secret);
    }
  }

  lemma LaterJustified(p: Piece, rest: seq<Piece>, i: nat, secret: string -> bool)
    requires i < |rest| && Justified(rest, i, secret)
    ensures Justified([p] + rest, i + 1, secret)
  {
    hide FirstPair, MarkerExtent, ValueExtent, Original;
    assert ([p] + rest)[i + 1..] == rest[i..];
  }

  lemma FirstJustified(u: string, secret: string -> bool)
    ensures Pieces(u, secret) != [] && Justified(Pieces(u, secret), 0, secret)
  {
    hide FirstPair, PairAtHead, MarkerExtent, ValueExtent, Original, Judge, NameIsSecret;
    var h, ps := FirstPair(u), Pieces(u, secret);
    PiecesCover(u, secret);
    assert ps[0..] == ps;
    if h.Hit? && Judge(u, secret, h).Replace? {
      JudgedWhole(u, secret, h);
      assert u[h.End()..][..ValueExtent(u[h.End()..])] == u[h.End()..h.End() + ValueExtent(u[h.End()..])];
    }
  }

  lemma JudgedWhole(u: string, secret: string -> bool, h: Hit)
    requires FirstPair(u) == h && h.Hit? && Judge(u, secret, h).Replace?
    ensures NameIsSecret(u, secret, h) && MarkerExtent(u[h.End()..]) == 0 && ValueExtent(u[h.End()..]) > 0
    ensures Judge(u, secret, h) == Replace(h.End(), h.End() + ValueExtent(u[h.End()..]))
  {
    hide FirstPair, PairAtHead, MarkerExtent, ValueExtent;
  }

  /** Every byte outside the hidden values is kept, in order. */
  lemma {:induction false} KeepsTheRest(u: string, secret: string -> bool)
    ensures forall p :: p in Pieces(u, secret) && p.Hidden? ==> p.value != ""
    ensures Original(Pieces(u, secret)) == u && Written(Pieces(u, secret)) == Scrub(u, secret)
    ensures forall i :: 0 <= i < |Pieces(u, secret)| ==> Justified(Pieces(u, secret), i, secret)
  {
    hide Pieces, Scrub, Justified;
    PiecesCover(u, secret);
    PiecesWritten(u, secret);
    forall i | 0 <= i < |Pieces(u, secret)|
      ensures Justified(Pieces(u, secret), i, secret)
    {
      PiecesJustified(u, secret, i);
    }
  }
}
