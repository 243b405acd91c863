/**
 How exactly redaction marks: when the marker is all that is left of a secret
 value, and when something of the value stays behind it.
 */
module ExactMarkers {
  import opened AlikeTexts
  import opened HiddenValues
  import opened Patterns
  import opened PrivateKeys
  import opened Redaction
  import opened Sequences

  // ---------- when the marker is the whole value ----------

  /** A quoted value is over: the text ends, or a terminator or white space comes. */
  predicate Stops(rest: string) { rest == "" || IsTerminator(rest[0]) || In(Space, rest[0]) }

  /** An unquoted value is over: the text ends, or a terminator or the next pair comes.
      White space alone is part of the value. */
  predicate StopsBare(rest: string) { rest == "" || IsTerminator(rest[0]) || NextPairStart(rest) == 0 }

  /** Is a value, or the marker in its place, over after n bytes? */
  predicate Ends(value: string, n: nat)
    requires value != "" && n <= |value|
  {
    if IsQuote(value[0]) then Stops(value[n..]) else StopsBare(value[n..])
  }

  /** A secret-named pair is followed by nothing, or by a marker and then no more. */
  ghost predicate ExactlyMarked(s: string, secret: string -> bool, m: Span)
    requires SpanWithin(m, 0, |s|)
  {
    var value := s[m.end..];
    secret(s[m.start..m.nameEnd]) ==>
      ValueExtent(value) == 0 || (MarkerExtent(value) > 0 && Ends(value, MarkerExtent(value)))
  }

  /** More text follows where the scanner takes a value to end: behind a marker it
      keeps, or right behind the closing quote. */
  predicate GoesOn(value: string) {
    if MarkerExtent(value) > 0 then !Ends(value, MarkerExtent(value))
    else value != "" && IsQuote(value[0]) && !Stops(value[QuotedExtent(value)..])
  }

  /** The pairs the scanner judges: the leftmost, and from where it leaves off the
      leftmost again. */
  function JudgedPairs(u: string, secret: string -> bool, pos: nat): (spans: seq<Span>)
    requires pos <= |u|
    ensures forall m :: m in spans ==> SpanWithin(m, pos, |u|)
    decreases |u| - pos
  {
    hide PairAtHead, FirstPair, Judge;
    var h := FirstPair(u[pos..]);
    if h.NoHit? then []
    else
      var first := Span(pos + h.start, pos + h.start + h.pair.nameLen, pos + h.End());
      var rest := JudgedPairs(u, secret, pos + Judge(u[pos..], secret, h).upTo);
      assert forall m :: m in [first] + rest ==> m == first || m in rest;
      [first] + rest
  }

  ghost predicate EndsCleanly(u: string, secret: string -> bool, m: Span)
    requires SpanWithin(m, 0, |u|)
  {
    secret(u[m.start..m.nameEnd]) ==> !GoesOn(u[m.end..])
  }

  /** No judged secret value goes on behind its end. */
  ghost predicate NothingGoesOn(u: string, secret: string -> bool, pos: nat)
    requires pos <= |u|
  {
    forall m :: m in JudgedPairs(u, secret, pos) ==> EndsCleanly(u, secret, m)
  }

  ghost predicate AllExactlyMarked(s: string, secret: string -> bool, pos: nat)
    requires pos <= |s|
  {
    forall m :: m in AllPairs(s, pos) ==> ExactlyMarked(s, secret, m)
  }

  /** An unquoted value runs up to where it has to stop. */
  lemma UnquotedStops(value: string)
    requires value != "" && !IsQuote(value[0])
    ensures Ends(value, ValueExtent(value))
  {
    hide PairAtHead, In;
    var n := ValueExtent(value);
    if n < FirstOf(value, IsTerminator) { NextIsLater(value, n); }
  }

  /** The next pair seen from where it starts. */
  lemma {:induction false} NextIsLater(u: string, n: nat)
    requires n <= |u| && NextPairStart(u) == n
    ensures NextPairStart(u[n..]) == 0
  {
    hide PairAtHead, In;
    if n == 0 {
      assert u[0..] == u;
    } else {
      NextIsLater(u[1..], n - 1);
      assert u[1..][n - 1..] == u[n..];
    }
  }

  lemma ScrubStops(u: string, secret: string -> bool)
    ensures Stops(Scrub(u, secret)) <==> Stops(u)
  {
    hide Scrub, In;
    ScrubHead(u, secret);
  }

  /** A pair that comes next does so in the result as well, and only then. */
  lemma ScrubStopsBare(u: string, secret: string -> bool)
    ensures StopsBare(Scrub(u, secret)) <==> StopsBare(u)
  {
    hide Scrub, FirstPair, PairAtHead, NextPairStart, BeginsPair;
    var w, h := Scrub(u, secret), FirstPair(u);
    ScrubHead(u, secret);
    NextIsHere(u);
    NextIsHere(w);
    if h.NoHit? {
      ScrubNothing(u, secret);
    } else {
      SamePair(u, secret, h);
      if BeginsPair(u) { SamePairStart(u, w); }
      if BeginsPair(w) { SamePairStart(w, u); }
    }
  }

  /** Whether the value is left exactly marked is decided when it is judged. */
  lemma MarkedAsJudged(value: string, secret: string -> bool, value': string)
    requires NoSpaceAhead(value)
    requires if MarkerExtent(value) > 0
             then value' == value[..MarkerExtent(value)] + Scrub(value[MarkerExtent(value)..], secret)
             else if ValueExtent(value) > 0
             then value' == MarkerFor(value) + Scrub(value[ValueExtent(value)..], secret)
             else value' == Scrub(value, secret)
    ensures !GoesOn(value) <==>
              ValueExtent(value') == 0 || (MarkerExtent(value') > 0 && Ends(value', MarkerExtent(value')))
  {
    hide Scrub, PairAtHead, ValueExtent, QuotedExtent, In, Stops, StopsBare, MarkerExtent, MarkerFor;
    if MarkerExtent(value) > 0 {
      var m, y := MarkerAtHead(value), value[MarkerExtent(value)..];
      assert value[..MarkerExtent(value)] == m;
      MarkedExactly(m, Scrub(y, secret));
      ScrubStops(y, secret);
      ScrubStopsBare(y, secret);
    } else if ValueExtent(value) > 0 {
      var y := value[ValueExtent(value)..];
      MarkerIsForm(value);
      MarkedExactly(MarkerFor(value), Scrub(y, secret));
      SameQuote(value);
      ScrubStops(y, secret);
      ScrubStopsBare(y, secret);
      QuotedOrNot(value);
    } else {
      EmptyValue(value);
      ScrubHead(value, secret);
      SameEmptyValue(value, value');
      NothingStops(value);
    }
  }

  lemma MarkedExactly(m: string, y: string)
    requires IsMarkerForm(m)
    ensures MarkerExtent(m + y) == |m| && (m + y)[|m|..] == y && ValueExtent(m + y) > 0
  {
    hide ValueExtent, MarkerExtent, In;
    MarkerIsMeasured(m, y);
    assert (m + y)[0] == m[0];
    EmptyValue(m + y);
  }

  lemma SameQuote(value: string)
    requires value != ""
    ensures MarkerFor(value) != "" && IsQuote(MarkerFor(value)[0]) == IsQuote(value[0])
  {
  }

  lemma QuotedOrNot(value: string)
    requires value != "" && MarkerExtent(value) == 0
    ensures GoesOn(value) <==> !Ends(value, ValueExtent(value))
  {
    hide PairAtHead, NextPairStart, In;
    if !IsQuote(value[0]) { UnquotedStops(value); }
  }

  lemma NothingStops(value: string)
    requires NoSpaceAhead(value) && StartsNothing(value)
    ensures !GoesOn(value)
  {
    hide MarkerExtent, QuotedExtent, In;
    EmptyValue(value);
  }

  // ---------- walking the text and the result side by side ----------

  lemma FirstSpan(s: string, p: nat, h: Hit)
    requires p <= |s| && FirstPair(s[p..]) == h && h.Hit?
    ensures AllPairs(s, p) ==
              [Span(p + h.start, p + h.start + h.pair.nameLen, p + h.End())] + AllPairs(s, p + h.End())
  {
    hide FirstPair, PairAtHead;
    var rest := AllPairs(s, p + h.End());
    assert AllPairs(s, p) == [Span(p + h.start, p + h.start + h.pair.nameLen, p + h.End())] + rest;
  }

  /** The first pair of the result is the first of the text, at the same place, and
      what follows it in the result is what the judgement makes of its value. */
  lemma SamePair(v: string, secret: string -> bool, h: Hit)
    requires FirstPair(v) == h && h.Hit?
    ensures var w := Scrub(v, secret);
            && h.End() <= |w| && w[..h.End()] == v[..h.End()] && FirstPair(w) == h
  {
    hide FirstPair, PairAtHead, Scrub, Judge, MarkerFor;
    var w, j := Scrub(v, secret), Judge(v, secret, h);
    if j.Keep? {
      ScrubKeeps(v, secret, h, j.upTo);
      var y := Scrub(v[j.upTo..], secret);
      ScrubHead(v[j.upTo..], secret);
      assert w[..j.upTo] == v[..j.upTo] && w[j.upTo..] == y;
      SettlesKept(v, secret, h, j.upTo, w);
      assert w[..h.End()] == w[..j.upTo][..h.End()] && v[..h.End()] == v[..j.upTo][..h.End()];
    } else {
      ScrubReplaces(v, secret, h, j.from, j.upTo);
      SettlesReplaced(v, secret, h, MarkerFor(v[j.from..]), Scrub(v[j.upTo..], secret), w);
      assert w[..j.from] == v[..j.from];
    }
  }

  /** What stands behind a secret name in the result. */
  lemma SecretValue(v: string, secret: string -> bool, h: Hit)
    requires FirstPair(v) == h && h.Hit? && NameIsSecret(v, secret, h)
    ensures var value := v[h.End()..];
            var w := Scrub(v, secret);
            && h.End() <= |w|
            && w[h.End()..] ==
                 (if MarkerExtent(value) > 0
                  then value[..MarkerExtent(value)] + Scrub(value[MarkerExtent(value)..], secret)
                  else if ValueExtent(value) > 0
                  then MarkerFor(value) + Scrub(value[ValueExtent(value)..], secret)
                  else Scrub(value, secret))
  {
    hide FirstPair, PairAtHead, Scrub, MarkerFor, MarkerExtent, ValueExtent, NameIsSecret, Judge;
    SamePair(v, secret, h);
    SecretJudged(v, secret, h);
    var value := v[h.End()..];
    if MarkerExtent(value) > 0 {
      ValueKept(v, secret, h, MarkerExtent(value));
    } else if ValueExtent(value) > 0 {
      ValueReplaced(v, secret, h, ValueExtent(value));
    } else {
      ValueKept(v, secret, h, 0);
      assert value[..0] == "" && value[0..] == value && "" + Scrub(value, secret) == Scrub(value, secret);
    }
  }

  lemma SecretJudged(v: string, secret: string -> bool, h: Hit)
    requires FirstPair(v) == h && h.Hit? && NameIsSecret(v, secret, h)
    ensures var e, value := h.End(), v[h.End()..];
            Judge(v, secret, h) ==
              if MarkerExtent(value) > 0 then Keep(e + MarkerExtent(value))
              else if ValueExtent(value) == 0 then Keep(e)
              else Replace(e, e + ValueExtent(value))
  {
    hide FirstPair, PairAtHead, MarkerExtent, ValueExtent, NameIsSecret;
  }

  lemma ValueKept(v: string, secret: string -> bool, h: Hit, n: nat)
    requires FirstPair(v) == h && h.Hit? && h.End() + n <= |v| && Judge(v, secret, h) == Keep(h.End() + n)
    requires h.End() <= |Scrub(v, secret)|
    ensures Scrub(v, secret)[h.End()..] == v[h.End()..][..n] + Scrub(v[h.End()..][n..], secret)
  {
    hide FirstPair, PairAtHead, Scrub, Judge;
    var e := h.End();
    ScrubKeeps(v, secret, h, e + n);
    SplitLater(v, e, n);
    Behind(v[..e], v[e..][..n], Scrub(v[e + n..], secret));
  }

  lemma ValueReplaced(v: string, secret: string -> bool, h: Hit, n: nat)
    requires FirstPair(v) == h && h.Hit? && h.End() < h.End() + n <= |v|
    requires Judge(v, secret, h) == Replace(h.End(), h.End() + n)
    requires h.End() <= |Scrub(v, secret)|
    ensures Scrub(v, secret)[h.End()..] == MarkerFor(v[h.End()..]) + Scrub(v[h.End()..][n..], secret)
  {
    hide FirstPair, PairAtHead, Scrub, Judge, MarkerFor;
    var e := h.End();
    ScrubReplaces(v, secret, h, e, e + n);
    SplitLater(v, e, n);
    Behind(v[..e], MarkerFor(v[e..]), Scrub(v[e + n..], secret));
  }

  lemma Behind(a: string, b: string, c: string)
    ensures (a + b + c)[|a|..] == b + c
  {
  }

  /** One judged pair, in the text and in the result. */
  lemma JudgedStep(u: string, q: nat, t: string, p: nat, secret: string -> bool, h: Hit)
    requires q <= |u| && p <= |t| && t[p..] == Scrub(u[q..], secret)
    requires FirstPair(u[q..]) == h && h.Hit?
    ensures p + h.End() <= |t| && FirstPair(t[p..]) == h
    ensures var m := Span(q + h.start, q + h.start + h.pair.nameLen, q + h.End());
            var m' := Span(p + h.start, p + h.start + h.pair.nameLen, p + h.End());
            EndsCleanly(u, secret, m) <==> ExactlyMarked(t, secret, m')
  {
    hide FirstPair, PairAtHead, Scrub, Judge, MarkerFor, MarkerExtent, ValueExtent, GoesOn, Stops;
    var v, w := u[q..], t[p..];
    SamePair(v, secret, h);
    PairIsGreedy(v, h);
    assert v[h.End()..] == u[q + h.End()..] && w[h.End()..] == t[p + h.End()..];
    SameName(v, w, secret, h);
    assert v[h.start..h.start + h.pair.nameLen] == u[q + h.start..q + h.start + h.pair.nameLen];
    assert w[h.start..h.start + h.pair.nameLen] == t[p + h.start..p + h.start + h.pair.nameLen];
    if NameIsSecret(v, secret, h) {
      SecretValue(v, secret, h);
      MarkedAsJudged(v[h.End()..], secret, w[h.End()..]);
    }
  }

  /** What is left to walk after it: the same in both. */
  lemma JudgedRest(u: string, q: nat, t: string, p: nat, secret: string -> bool, h: Hit) returns (p': nat)
    requires q <= |u| && p <= |t| && t[p..] == Scrub(u[q..], secret)
    requires FirstPair(u[q..]) == h && h.Hit? && p + h.End() <= |t|
    ensures p + h.End() <= p' <= |t| && AllPairs(t, p') == AllPairs(t, p + h.End())
    ensures t[p'..] == Scrub(u[q + Judge(u[q..], secret, h).upTo..], secret)
  {
    hide FirstPair, PairAtHead, Scrub, Judge, AllPairs, IsMarkerForm;
    var v, e := u[q..], h.End();
    var m := LeftBehind(v, secret, h);
    var rest := Scrub(u[q + Judge(v, secret, h).upTo..], secret);
    assert v[Judge(v, secret, h).upTo..] == u[q + Judge(v, secret, h).upTo..];
    assert t[p + e..] == t[p..][e..] == m + rest;
    p' := p + e + |m|;
    if m == "" {
      assert "" + rest == rest;
    } else {
      Skipped(t, p + e, m, rest);
    }
  }

  /** What stands behind a judged pair in the result, in front of the rest: a marker or
      nothing. */
  lemma LeftBehind(v: string, secret: string -> bool, h: Hit) returns (m: string)
    requires FirstPair(v) == h && h.Hit? && h.End() <= |Scrub(v, secret)|
    ensures m == "" || IsMarkerForm(m)
    ensures Scrub(v, secret)[h.End()..] == m + Scrub(v[Judge(v, secret, h).upTo..], secret)
  {
    hide FirstPair, PairAtHead, Scrub, Judge, MarkerFor, MarkerExtent, ValueExtent, IsMarkerForm;
    var e, j := h.End(), Judge(v, secret, h);
    if j.Keep? {
      var n := KeptLength(v, secret, h);
      ValueKept(v, secret, h, n);
      m := v[e..][..n];
      if n > 0 { MarkerAhead(v[e..]); }
    } else {
      ValueReplaced(v, secret, h, j.upTo - e);
      MarkerIsForm(v[e..]);
      m := MarkerFor(v[e..]);
    }
    assert v[e..][j.upTo - e..] == v[j.upTo..];
  }

  lemma MarkerAhead(v: string)
    requires MarkerExtent(v) > 0
    ensures IsMarkerForm(v[..MarkerExtent(v)])
  {
    hide MarkerExtent, IsMarkerForm;
    var m := MarkerAtHead(v);
    assert v[..|m|] == m;
  }

  lemma KeptLength(v: string, secret: string -> bool, h: Hit) returns (n: nat)
    requires FirstPair(v) == h && h.Hit? && Judge(v, secret, h).Keep?
    ensures h.End() + n <= |v| && Judge(v, secret, h) == Keep(h.End() + n)
    ensures n > 0 ==> MarkerExtent(v[h.End()..]) == n
  {
    hide FirstPair, PairAtHead, MarkerExtent, ValueExtent, NameIsSecret;
    n := Judge(v, secret, h).upTo - h.End();
  }

  lemma Skipped(t: string, p: nat, m: string, y: string)
    requires p <= |t| && IsMarkerForm(m) && t[p..] == m + y
    ensures p + |m| <= |t| && t[p + |m|..] == y && AllPairs(t, p + |m|) == AllPairs(t, p)
  {
    hide MarkerExtent, AllPairs, IsMarkerForm;
    MarkerIsMeasured(m, y);
    AfterMarker(t, p);
    assert t[p + |m|..] == t[p..][|m|..];
  }

  lemma {:induction false} MarkedFrom(u: string, q: nat, t: string, p: nat, secret: string -> bool)
    requires q <= |u| && p <= |t| && t[p..] == Scrub(u[q..], secret)
    ensures AllExactlyMarked(t, secret, p) <==> NothingGoesOn(u, secret, q)
    decreases |u| - q
  {
    hide FirstPair, PairAtHead, Scrub, Judge, EndsCleanly, ExactlyMarked, AllPairs, JudgedPairs,
      AllExactlyMarked, NothingGoesOn;
    var h := FirstPair(u[q..]);
    if h.NoHit? {
      ScrubNothing(u[q..], secret);
      NoneMarked(t, secret, p);
      NoneJudged(u, secret, q);
    } else {
      JudgedStep(u, q, t, p, secret, h);
      var p' := JudgedRest(u, q, t, p, secret, h);
      MarkedStep(t, secret, p, h, p');
      GoesOnStep(u, secret, q, h);
      MarkedFrom(u, q + Judge(u[q..], secret, h).upTo, t, p', secret);
    }
  }

  lemma NoneMarked(t: string, secret: string -> bool, p: nat)
    requires p <= |t| && FirstPair(t[p..]).NoHit?
    ensures AllExactlyMarked(t, secret, p)
  {
    hide FirstPair;
  }

  lemma NoneJudged(u: string, secret: string -> bool, q: nat)
    requires q <= |u| && FirstPair(u[q..]).NoHit?
    ensures NothingGoesOn(u, secret, q)
  {
    hide FirstPair;
  }

  lemma MarkedStep(t: string, secret: string -> bool, p: nat, h: Hit, p': nat)
    requires p <= |t| && FirstPair(t[p..]) == h && h.Hit?
    requires p + h.End() <= p' <= |t| && AllPairs(t, p') == AllPairs(t, p + h.End())
    ensures AllExactlyMarked(t, secret, p) <==>
              && ExactlyMarked(t, secret, Span(p + h.start, p + h.start + h.pair.nameLen, p + h.End()))
              && AllExactlyMarked(t, secret, p')
  {
    hide FirstPair, PairAtHead, ExactlyMarked, AllPairs;
    FirstSpan(t, p, h);
    var first, rest := Span(p + h.start, p + h.start + h.pair.nameLen, p + h.End()), AllPairs(t, p');
    assert forall m :: m in AllPairs(t, p) <==> m == first || m in rest;
  }

  lemma GoesOnStep(u: string, secret: string -> bool, q: nat, h: Hit)
    requires q <= |u| && FirstPair(u[q..]) == h && h.Hit?
    ensures NothingGoesOn(u, secret, q) <==>
              && EndsCleanly(u, secret, Span(q + h.start, q + h.start + h.pair.nameLen, q + h.End()))
              && NothingGoesOn(u, secret, q + Judge(u[q..], secret, h).upTo)
  {
    hide FirstPair, PairAtHead, EndsCleanly, Judge;
    var next := q + Judge(u[q..], secret, h).upTo;
    assert JudgedPairs(u, secret, q) ==
             [Span(q + h.start, q + h.start + h.pair.nameLen, q + h.End())] + JudgedPairs(u, secret, next);
    hide JudgedPairs;
  }

  /** In the redacted text every secret name is followed by nothing or exactly by a
      marker, if and only if no secret value judged on the way goes on behind a marker
      it starts with or behind its closing quote. */
  lemma {:induction false} ExactlyMarkedExactlyWhen(s: string, secret: string -> bool)
    ensures AllExactlyMarked(Redacted(s, secret), secret, 0) <==> NothingGoesOn(MaskKeys(s), secret, 0)
  {
    hide MaskKeys, Scrub, AllExactlyMarked, NothingGoesOn;
    var u := MaskKeys(s);
    var t := Scrub(u, secret);
    assert u[0..] == u && t[0..] == t;
    MarkedFrom(u, 0, t, 0, secret);
  }

  // ---------- an input that is not marked exactly ----------

  const PASSWORD := "password"

  /** A marker that somebody typed, or that a key left, with more text behind. */
  function Typed(tail: string): string { PASSWORD + ": " + MARKER + tail }

  predicate IsNameRun(tail: string) { tail != "" && forall i :: 0 <= i < |tail| ==> In(Name, tail[i]) }

  /** A word right behind the marker, or behind a blank. */
  predicate IsWord(tail: string) { IsNameRun(tail) || (tail != "" && tail[0] == ' ' && IsNameRun(tail[1..])) }

  lemma {:induction false} NamesAlone(tail: string)
    requires forall i :: 0 <= i < |tail| ==> In(Name, tail[i])
    ensures FirstPair(tail).NoHit?
  {
    if tail != "" {
      RunEndIs(tail, 0, Name, |tail|);
      NamesAlone(tail[1..]);
    }
  }

  lemma PasswordIsName()
    ensures forall i :: 0 <= i < 8 ==> In(Name, PASSWORD[i])
    ensures !In(Name, ':') && !In(Space, ':') && In(Space, ' ') && !In(Space, '[')
  {
  }

  lemma PasswordPair(value: string)
    requires value != "" && !In(Space, value[0])
    ensures var u := PASSWORD + ": " + value;
            FirstPair(u) == Hit(0, Pair(8, 10)) && u[10..] == value && u[..8] == PASSWORD
  {
    hide RunEnd, In;
    var u := PASSWORD + ": " + value;
    PasswordIsName();
    assert u[8] == ':' && u[9] == ' ' && u[10] == value[0] && u[..8] == PASSWORD;
    assert forall i :: 0 <= i < 8 ==> u[i] == PASSWORD[i];
    RunEndIs(u, 0, Name, 8);
    RunEndIs(u, 8, Space, 8);
    RunEndIs(u, 9, Space, 10);
  }

  /** Whatever comes to such a text once keys are masked, it goes out as it is: what
      stands behind the marker is copied. */
  lemma {:induction false} TextBehindMarkerStays(s: string, secret: string -> bool, tail: string)
    requires secret(PASSWORD) && IsWord(tail) && MaskKeys(s) == Typed(tail)
    ensures Redacted(s, secret) == Typed(tail)
    ensures !AllExactlyMarked(Redacted(s, secret), secret, 0)
  {
    hide MaskKeys, Scrub, FirstPair, PairAtHead, MarkerExtent, ValueExtent, In;
    var u, h := Typed(tail), Hit(0, Pair(8, 10));
    assert u == PASSWORD + ": " + (MARKER + tail) && !In(Space, MARKER[0]) by { PasswordIsName(); }
    PasswordPair(MARKER + tail);
    assert u[0..8] == PASSWORD;
    MarkerIsMeasured(MARKER, tail);
    JudgeMarked(u, secret, h, MARKER, tail);
    ScrubKeeps(u, secret, h, 10 + |MARKER|);
    assert u[10 + |MARKER|..] == tail && u == u[..10 + |MARKER|] + tail;
    WordGoesOn(tail);
    ScrubNothing(tail, secret);
    assert u[0..] == u;
    FirstSpan(u, 0, h);
    var m := Span(0, 8, 10);
    assert m in AllPairs(u, 0);
    MarkedExactly(MARKER, tail);
    assert !ExactlyMarked(u, secret, m);
  }

  /** Neither right behind a marker nor behind a blank does a word end the value. */
  lemma WordGoesOn(tail: string)
    requires IsWord(tail)
    ensures FirstPair(tail).NoHit? && !StopsBare(tail)
  {
    hide NextPairStart, FirstPair, RunEnd;
    NextIsHere(tail);
    if IsNameRun(tail) {
      NamesAlone(tail);
    } else {
      NamesAlone(tail[1..]);
      NoPairThere(tail[1..]);
      SpaceIsNoName(' ');
      NamelessPrefix(tail, 1);
    }
  }

  lemma NoPairThere(u: string)
    requires u != "" && FirstPair(u).NoHit?
    ensures PairAtHead(u).NoPair?
  {
    hide PairAtHead;
  }

  /** A header needs a space well behind a dash; here there is none. */
  lemma TypedHasNoKey(tail: string)
    requires IsWord(tail)
    ensures KeyFree(Typed(tail)) && KeyFree(tail)
  {
    hide HeaderLen, IsWord, Typed;
    var u := Typed(tail);
    TypedIs(tail);
    forall i | 0 <= i <= |u| ensures HeaderLen(u[i..]) == 0 {
      HeaderHasBlank(u[i..]);
      if i + 10 < |u| && i != 10 { NoBlankAt(tail, i + 10); }
    }
    KeyFreeParts(u, 20);
  }

  lemma TypedIs(tail: string)
    ensures |Typed(tail)| == 20 + |tail| && Typed(tail)[20..] == tail && Typed(tail)[10] == '['
    ensures Typed(tail)[..10] == PASSWORD + ": " && Typed(tail)[10..20] == MARKER
  {
  }

  lemma NoBlankAt(tail: string, i: nat)
    requires IsWord(tail) && 10 <= i < |Typed(tail)| && i != 20
    ensures Typed(tail)[i] != ' '
  {
    var u := Typed(tail);
    TypedIs(tail);
    hide Typed;
    if i < 20 {
      assert u[10..20][i - 10] == MARKER[i - 10];
    } else {
      assert tail[i - 20] == u[20..][i - 20] && tail[1..][i - 21] == tail[i - 20];
    }
  }

  lemma HeaderHasBlank(u: string)
    ensures HeaderLen(u) > 0 ==> |u| > 10 && u[0] == '-' && u[10] == ' '
  {
    hide RunEnd;
    assert BEGIN[0] == '-' && BEGIN[10] == ' ';
  }

  /** The least a key block can be, in front of some text. */
  function KeyBefore(tail: string): string {
    BEGIN + (KEY_WORDS + (DASHES + (END + (KEY_WORDS + (DASHES + tail)))))
  }

  /** A key pasted as the value with more text right behind it. */
  function Pasted(tail: string): string { PASSWORD + ": " + KeyBefore(tail) }

  lemma BlockIsKey(tail: string)
    ensures HeaderLen(KeyBefore(tail)) == 27 && PastTrailer(KeyBefore(tail)[27..]) == 25
    ensures KeyBefore(tail)[52..] == tail
  {
    hide ArmourLen;
    var trailer := END + (KEY_WORDS + (DASHES + tail));
    ArmourRead(BEGIN, trailer);
    assert KeyBefore(tail)[27..] == trailer && trailer[25..] == tail;
    ArmourRead(END, tail);
  }

  lemma PastedIsMasked(tail: string)
    requires IsWord(tail)
    ensures MaskKeys(Pasted(tail)) == Typed(tail)
  {
    hide MaskKeys, MaskBlocks, MaskHeadless, HeaderLen, PastTrailer, KeyFree, KeyBefore, IsWord;
    var start, u := PASSWORD + ": ", KeyBefore(tail);
    TypedHasNoKey(tail);
    KeyFreeUnchanged(Typed(tail));
    KeyFreeUnchanged(tail);
    BlockIsKey(tail);
    BlockStep(u, 25);
    NoDashAhead(start, u);
    assert MaskBlocks(Pasted(tail)) == start + (MARKER + tail) == Typed(tail);
    MaskingIsBoth(Pasted(tail));
  }

  /** Both a marker somebody typed and a pasted key come to the same: the text right
      behind is left in the clear, although its pair is one the pass is content with. */
  lemma {:induction false} TextBehindStays(secret: string -> bool, tail: string)
    requires secret(PASSWORD) && IsWord(tail)
    ensures Redacted(Typed(tail), secret) == Redacted(Pasted(tail), secret) == Typed(tail)
    ensures !AllExactlyMarked(Typed(tail), secret, 0)
  {
    hide MaskKeys, Redacted, AllExactlyMarked, KeyFree, Typed, Pasted;
    TypedHasNoKey(tail);
    KeyFreeUnchanged(Typed(tail));
    PastedIsMasked(tail);
    TextBehindMarkerStays(Typed(tail), secret, tail);
    TextBehindMarkerStays(Pasted(tail), secret, tail);
  }

  /** Text an unquoted value runs over, blanks included. */
  predicate IsPlain(value: string) {
    && value != "" && value[0] !in "\"' \t\U{000C}"
    && forall i :: 0 <= i < |value| ==> value[i] !in ",}]\n\r" && value[i] !in ":="
  }

  lemma {:induction false} NoPairAhead(u: string)
    requires forall i :: 0 <= i < |u| ==> !IsSeparator(u[i])
    ensures NextPairStart(u) == |u|
  {
    if u != "" {
      NoSeparatorNoPair(u[1..]);
      if |u| > 1 { NoSeparatorNoPair(u[2..]); }
      hide PairAtHead, In;
      NoPairAhead(u[1..]);
    }
  }

  lemma NoSeparatorNoPair(u: string)
    requires forall i :: 0 <= i < |u| ==> !IsSeparator(u[i])
    ensures PairAtHead(u).NoPair?
  {
    hide RunEnd, In;
  }

  lemma PlainRunsOn(value: string)
    requires IsPlain(value)
    ensures ValueExtent(value) == |value|
  {
    hide PairAtHead, NextPairStart, FirstOf, In;
    EndBytes(value[0]);
    forall i | 0 <= i < |value| ensures !IsTerminator(value[i]) && !IsSeparator(value[i]) { EndBytes(value[i]); }
    NoPairAhead(value);
    FirstOfIs(value, IsTerminator, |value|);
  }

  /** Where no marker was typed, such a value is hidden whole. */
  lemma {:induction false} PlainIsHidden(secret: string -> bool, value: string)
    requires secret(PASSWORD) && IsPlain(value) && MarkerExtent(value) == 0 && KeyFree(PASSWORD + ": " + value)
    ensures Redacted(PASSWORD + ": " + value, secret) == PASSWORD + ": " + MARKER
  {
    hide MaskKeys, Scrub, FirstPair, PairAtHead, MarkerExtent, ValueExtent, In, KeyFree, NextPairStart;
    var u, h := PASSWORD + ": " + value, Hit(0, Pair(8, 10));
    PlainRunsOn(value);
    EndBytes(value[0]);
    PasswordPair(value);
    KeyFreeUnchanged(u);
    assert u[0..8] == PASSWORD;
    assert NameIsSecret(u, secret, h);
    SecretJudged(u, secret, h);
    ScrubReplaces(u, secret, h, 10, |u|);
    assert u[|u|..] == "" && u[..10] == PASSWORD + ": ";
    NothingScrubbed(secret);
  }

  lemma NothingScrubbed(secret: string -> bool)
    ensures Scrub("", secret) == ""
  {
  }
}
