/**
 Texts that differ only in what is secret in them: the same stretches around hidden
 values and keys. They redact to the same text, and exchanging one hidden value for
 another is the way from one to the next.
 */
module AlikeTexts {
  import opened Patterns
  import opened PrivateKeys
  import opened Redaction
  import opened Sequences

  // ---------- likeness ----------

  predicate SameOpening(value: string, other: string) {
    && value != "" && other != ""
    && (IsQuote(value[0]) || IsQuote(other[0]) ==> value[0] == other[0])
  }

  predicate LikePiece(p: Piece, q: Piece) {
    && p.kept == q.kept
    && (p.Hidden? <==> q.Hidden?)
    && (p.Hidden? ==> SameOpening(p.value, q.value))
  }

  /** The same kept stretches, values hidden in the same places, opened by the same
      quotes. */
  ghost predicate LikePieces(ps: seq<Piece>, qs: seq<Piece>) {
    |ps| == |qs| && forall i :: 0 <= i < |ps| ==> LikePiece(ps[i], qs[i])
  }

  ghost predicate LikeTexts(s: string, t: string, secret: string -> bool) {
    LikePieces(Pieces(MaskKeys(s), secret), Pieces(MaskKeys(t), secret))
  }

  lemma {:induction false} LikePiecesWriteAlike(ps: seq<Piece>, qs: seq<Piece>)
    requires LikePieces(ps, qs)
    requires (forall p :: p in ps && p.Hidden? ==> p.value != "") && forall q :: q in qs && q.Hidden? ==> q.value != ""
    ensures Written(ps) == Written(qs)
  {
    if ps != [] {
      assert LikePiece(ps[0], qs[0]);
      LikePiecesWriteAlike(ps[1..], qs[1..]);
    }
  }

  /** Like texts redact alike. */
  lemma {:induction false} LikeTextsRedactAlike(s: string, t: string, secret: string -> bool)
    requires LikeTexts(s, t, secret)
    ensures Redacted(s, secret) == Redacted(t, secret)
  {
    hide Pieces, Written, Scrub, MaskKeys, LikePieces, Original;
    PiecesCover(MaskKeys(s), secret);
    PiecesCover(MaskKeys(t), secret);
    PiecesWritten(MaskKeys(s), secret);
    PiecesWritten(MaskKeys(t), secret);
    LikePiecesWriteAlike(Pieces(MaskKeys(s), secret), Pieces(MaskKeys(t), secret));
  }

  /** Texts with the same bytes around keys in the same places are alike. */
  lemma {:induction false} LikeAroundKeys(s: string, t: string, secret: string -> bool)
    requires LikeStretches(Stretches(s), Stretches(t))
    ensures LikeTexts(s, t, secret)
  {
    hide Pieces, MaskKeys, Stretches;
    KeysDoNotShow(s, t);
    var ps := Pieces(MaskKeys(s), secret);
    PiecesCover(MaskKeys(s), secret);
    hide Original;
    forall i | 0 <= i < |ps| ensures LikePiece(ps[i], ps[i]) { assert ps[i] in ps; }
  }

  // ---------- exchanging one hidden value ----------

  /** Can `other` stand in front of `rest` where `value` was hidden? It opens as that
      did, is no marker, and ends in the same place. */
  predicate Fits(value: string, other: string, rest: string) {
    && SameOpening(value, other) && !In(Space, other[0])
    && MarkerExtent(other + rest) == 0 && ValueExtent(other + rest) == |other|
  }

  function Exchanged(ps: seq<Piece>, i: nat, other: string): seq<Piece>
    requires i < |ps|
  {
    ps[i := Hidden(ps[i].kept, other)]
  }

  /** The text from a hidden value on. */
  ghost function From(ps: seq<Piece>, j: nat): string
    requires j < |ps| && ps[j].Hidden?
  {
    ps[j].value + Original(ps[j + 1..])
  }

  /** Quoted, with no closing quote anywhere behind. */
  predicate LeftOpen(text: string) { text != "" && IsQuote(text[0]) && ClosingQuote(text, text[0], 1) == -1 }

  /** The exchange closes no earlier value that its text left open. */
  ghost predicate ClosesNothing(ps: seq<Piece>, i: nat, other: string)
    requires i < |ps|
  {
    forall j :: 0 <= j < i && ps[j].Hidden? && LeftOpen(From(ps, j)) ==> LeftOpen(From(Exchanged(ps, i, other), j))
  }

  // ---------- an earlier value ends where it did ----------

  /** White space and then a pair, with or without a quote before its name. */
  predicate BeginsPair(u: string) {
    u != "" && In(Space, u[0]) && PairAtHead(if |u| > 1 && IsQuote(u[1]) then u[2..] else u[1..]).Pair?
  }

  lemma NextIsHere(u: string)
    ensures NextPairStart(u) == if u == "" || BeginsPair(u) then 0 else 1 + NextPairStart(u[1..])
  {
    hide PairAtHead, In;
  }

  /** Two texts with the same first pair at the same place. */
  ghost predicate SameFirstPair(v: string, v': string) {
    && FirstPair(v).Hit? && FirstPair(v') == FirstPair(v)
    && FirstPair(v).End() <= |v'| && v'[..FirstPair(v).End()] == v[..FirstPair(v).End()]
  }

  lemma SameStart(v: string, v': string)
    requires SameFirstPair(v, v')
    ensures v != "" && v' != "" && v'[0] == v[0]
  {
    hide FirstPair, PairAtHead;
    var e := FirstPair(v).End();
    assert v'[..e][0] == v[..e][0];
  }

  lemma SpaceIsNoName(c: char)
    ensures In(Space, c) ==> !In(Name, c) && !IsQuote(c)
    ensures IsQuote(c) || IsTerminator(c) ==> !In(Name, c)
    ensures IsTerminator(c) ==> !IsQuote(c)
  {
  }

  lemma NamedAt(v: string, h: Hit)
    requires FirstPair(v) == h && h.Hit?
    ensures In(Name, v[h.start])
  {
    hide FirstPair, PairAtHead, In;
    var q, w := PairSpells(v, h.start);
  }

  /** Where no pair matches before the first pair of v, none does before that of v'. */
  lemma NoPairAppears(x: string, v: string, v': string, i: nat)
    requires SameFirstPair(v, v') && i <= |x| && !In(Name, v[0]) && PairAtHead((x + v)[i..]).NoPair?
    ensures PairAtHead((x + v')[i..]).NoPair?
  {
    hide FirstPair, PairAtHead, In;
    var h := FirstPair(v);
    NamedAt(v, h);
    Offset(x, v, h.start, h.End());
    Offset(x, v', h.start, h.End());
    var start, e := |x| + h.start, |x| + h.End();
    assert PairAtHead(v[h.start..]) == h.pair;
    assert i < start;
    assert (x + v)[..e] == (x + v')[..e];
    NoPairShared(x + v, x + v', i, start, e);
  }

  lemma Offset(x: string, v: string, i: nat, j: nat)
    requires i <= j <= |v|
    ensures (x + v)[|x| + i..] == v[i..] && (x + v)[..|x| + j] == x + v[..j]
  {
  }

  lemma NoNewStart(x: string, v: string, v': string)
    requires x != "" && SameFirstPair(v, v') && !In(Name, v[0]) && !IsQuote(v[0]) && !BeginsPair(x + v)
    ensures !BeginsPair(x + v')
  {
    SameStart(v, v');
    hide FirstPair, PairAtHead, In, SameFirstPair;
    var w, w' := x + v, x + v';
    assert w[0] == w'[0] && w[1] == w'[1] && (|x| == 1 ==> w[1] == v[0]);
    if In(Space, w[0]) {
      NoPairAppears(x, v, v', if IsQuote(w[1]) then 2 else 1);
    }
  }

  /** A pair that starts at the head still does. */
  lemma SamePairStart(v: string, v': string)
    requires SameFirstPair(v, v') && BeginsPair(v)
    ensures BeginsPair(v')
  {
    SameStart(v, v');
    var h := FirstPair(v);
    var s := if 1 < |v| && IsQuote(v[1]) then 2 else 1;
    FirstIsThere(v, s);
    hide FirstPair, PairAtHead, In;
    assert v'[..h.End()][1] == v[..h.End()][1];
    assert PairAtHead(v'[s..]).Pair?;
  }

  lemma FirstIsThere(v: string, s: nat)
    requires 1 <= s <= 2 && s <= |v| && PairAtHead(v[s..]).Pair? && In(Space, v[0]) && (s == 2 ==> IsQuote(v[1]))
    ensures FirstPair(v).Hit? && FirstPair(v).start == s && 1 < FirstPair(v).End()
  {
    hide In, PairAtHead, FirstPair, IsQuote;
    SpaceIsNoName(v[0]);
    if s == 2 { SpaceIsNoName(v[1]); }
    NamelessPrefix(v, s);
    PairIsFirst(v[s..]);
    var h := FirstPair(v[s..]);
    assert FirstPair(v) == Hit(s, h.pair);
  }

  lemma PairIsFirst(u: string)
    requires PairAtHead(u).Pair?
    ensures FirstPair(u).Hit? && FirstPair(u).start == 0
  {
    hide PairAtHead;
  }

  /** The next pair starts neither earlier nor, where it ended the value, elsewhere. */
  lemma {:induction false} SameNext(x: string, v: string, v': string)
    requires SameFirstPair(v, v') && !In(Name, v[0]) && !IsQuote(v[0]) && NextPairStart(x + v) >= |x|
    ensures NextPairStart(x + v') >= |x|
    ensures NextPairStart(x + v) == |x| ==> NextPairStart(x + v') == |x|
  {
    hide FirstPair, PairAtHead, In, NextPairStart, BeginsPair, SameFirstPair;
    NextIsHere(x + v);
    NextIsHere(x + v');
    SameStart(v, v');
    if x == "" {
      assert x + v == v && x + v' == v';
      if BeginsPair(v) { SamePairStart(v, v'); }
    } else {
      assert (x + v)[1..] == x[1..] + v && (x + v')[1..] == x[1..] + v';
      NoNewStart(x, v, v');
      SameNext(x[1..], v, v');
    }
  }

  lemma UnquotedEndsThere(x: string, v: string, v': string)
    requires x != "" && !IsQuote(x[0]) && ValueExtent(x + v) == |x| && SameFirstPair(v, v')
    ensures ValueExtent(x + v') == |x|
  {
    SameStart(v, v');
    SpaceIsNoName(v[0]);
    hide FirstPair, PairAtHead, In, NextPairStart, SameFirstPair;
    var w, w' := x + v, x + v';
    assert w[|x|] == v[0] && w'[|x|] == v[0] && forall i :: 0 <= i < |x| ==> w[i] == w'[i];
    SameNext(x, v, v');
    assert FirstOf(w, IsTerminator) > |x| ==> FirstOf(w', IsTerminator) >= |x|;
    if FirstOf(w, IsTerminator) == |x| { FirstOfIs(w', IsTerminator, |x|); }
  }

  lemma {:induction false} SameClose(u: string, w: string, quote: char, i: nat)
    requires var r := ClosingQuote(u, quote, i); r >= 0 && r <= |w| && w[..r] == u[..r]
    ensures ClosingQuote(w, quote, i) == ClosingQuote(u, quote, i)
    decreases |u| - i
  {
    var r := ClosingQuote(u, quote, i);
    assert w[..r][i] == u[..r][i];
    if u[i] == '\\' { SameClose(u, w, quote, i + 2); }
    else if u[i] != quote { SameClose(u, w, quote, i + 1); }
  }

  lemma QuotedEndsThere(x: string, v: string, v': string)
    requires x != "" && IsQuote(x[0]) && ValueExtent(x + v) == |x| && SameFirstPair(v, v')
    requires LeftOpen(x + v) ==> LeftOpen(x + v')
    ensures ValueExtent(x + v') == |x|
  {
    SameStart(v, v');
    hide FirstPair, PairAtHead;
    var w, w', close := x + v, x + v', ClosingQuote(x + v, x[0], 1);
    if close >= 0 {
      assert w'[..|x|] == x == w[..|x|];
      SameClose(w, w', x[0], 1);
    } else {
      assert w[|x|] == v[0] && w'[|x|] == v'[0];
      assert forall i :: 0 <= i < |x| ==> w[i] == w'[i];
      FirstOfIs(w', IsNewline, |x|);
    }
  }

  /** Nor does the value become a marker: that would need a byte it ends before. */
  lemma NoNewMarker(x: string, v: string, v': string)
    requires x != "" && v != "" && v' != "" && v'[0] == v[0] && ValueExtent(x + v) == |x|
    ensures MarkerExtent(x + v') > 0 ==> MarkerExtent(x + v) > 0
  {
    hide ValueExtent, MarkerExtent, IsMarkerForm;
    if MarkerExtent(x + v') > 0 {
      var m := MarkerAtHead(x + v');
      FormFits(x, v, v', m);
      assert x + v == m + (x + v)[|m|..];
      MarkerIsMeasured(m, (x + v)[|m|..]);
    }
  }

  lemma FormFits(x: string, v: string, v': string, m: string)
    requires x != "" && v != "" && v' != "" && v'[0] == v[0] && ValueExtent(x + v) == |x|
    requires IsMarkerForm(m) && m <= x + v'
    ensures m <= x + v
  {
    var w, w' := x + v, x + v';
    assert w[|x|] == v[0] && w'[|x|] == v[0] && forall i :: 0 <= i < |x| ==> w[i] == w'[i];
    ValueEnd(x, v);
    FormInside(m);
    hide ValueExtent, MarkerExtent, IsMarkerForm;
    assert forall i :: 0 <= i < |m| ==> m[i] == w'[i];
    assert |m| <= |x| + 1;
    assert w[..|m|] == w'[..|m|] == m;
  }

  /** What a value ends with, or what ends it. */
  lemma ValueEnd(x: string, v: string)
    requires x != "" && v != "" && ValueExtent(x + v) == |x|
    ensures if IsQuote(x[0]) then (|x| > 1 && x[|x| - 1] == x[0]) || IsNewline(v[0])
            else IsTerminator(v[0]) || In(Space, v[0])
  {
    var w := x + v;
    assert w[|x|] == v[0] && w[|x| - 1] == x[|x| - 1];
    hide PairAtHead, In, NextPairStart;
    if !IsQuote(x[0]) {
      assert NextPairStart(w) < |w| ==> In(Space, w[NextPairStart(w)]);
    }
  }

  /** The inside of a marker holds no quote, no newline, no white space, and no
      terminator before its closing bracket. */
  lemma FormInside(m: string)
    requires IsMarkerForm(m)
    ensures if IsQuote(m[0]) then forall i :: 0 < i < |m| - 1 ==> m[i] != m[0] && !IsNewline(m[i])
            else forall i :: 0 <= i < |m| - 1 ==> !IsTerminator(m[i]) && !In(Space, m[i])
    ensures |m| > 2
  {
  }

  /** A hidden value ends where it did when a later one is exchanged. */
  lemma EarlierValue(x: string, v: string, v': string)
    requires x != "" && MarkerExtent(x + v) == 0 && ValueExtent(x + v) == |x| && SameFirstPair(v, v')
    requires LeftOpen(x + v) ==> LeftOpen(x + v')
    ensures MarkerExtent(x + v') == 0 && ValueExtent(x + v') == |x|
  {
    hide MarkerExtent, ValueExtent, LeftOpen, SameFirstPair;
    SameStart(v, v');
    NoNewMarker(x, v, v');
    if IsQuote(x[0]) { QuotedEndsThere(x, v, v'); } else { UnquotedEndsThere(x, v, v'); }
  }

  // ---------- the exchange, from the hidden value back to the start ----------

  lemma SecretNameKept(u: string, u': string, secret: string -> bool, h: Hit)
    requires FirstPair(u) == h && h.Hit? && h.End() <= |u'| && u'[..h.End()] == u[..h.End()]
    requires h.End() < |u'| && ((h.End() < |u| && u'[h.End()] == u[h.End()]) || !In(Space, u'[h.End()]))
    ensures FirstPair(u') == h && NameIsSecret(u', secret, h) == NameIsSecret(u, secret, h)
  {
    hide FirstPair, PairAtHead, In, NameIsSecret;
    FirstPairKept(u, h, u');
    SameName(u, u', secret, h);
  }

  lemma JudgedSecret(u: string, secret: string -> bool, h: Hit, n: nat)
    requires h.Hit? && h.Within(u) && NameIsSecret(u, secret, h)
    requires MarkerExtent(u[h.End()..]) == 0 && ValueExtent(u[h.End()..]) == n > 0
    ensures Judge(u, secret, h) == Replace(h.End(), h.End() + n)
  {
    hide MarkerExtent, ValueExtent, NameIsSecret;
  }

  lemma PiecesReplaced(u: string, secret: string -> bool, h: Hit, b: nat)
    requires FirstPair(u) == h && h.Hit? && Judge(u, secret, h) == Replace(h.End(), b)
    ensures Pieces(u, secret) == [Hidden(u[..h.End()], u[h.End()..b])] + Pieces(u[b..], secret)
  {
    hide FirstPair, PairAtHead, Judge;
  }

  lemma PiecesKept(u: string, secret: string -> bool, h: Hit, k: nat)
    requires FirstPair(u) == h && h.Hit? && Judge(u, secret, h) == Keep(k)
    ensures Pieces(u, secret) == [Kept(u[..k])] + Pieces(u[k..], secret)
  {
    hide FirstPair, PairAtHead, Judge;
  }

  lemma PiecesNone(u: string, secret: string -> bool)
    requires FirstPair(u).NoHit?
    ensures Pieces(u, secret) == [Kept(u)]
  {
    hide FirstPair;
  }

  /** A text u[..a] + value + rest whose first pair ends at a, with the value exchanged. */
  lemma ExchangeHere(u: string, secret: string -> bool, h: Hit, b: nat, other: string)
    requires FirstPair(u) == h && h.Hit? && Judge(u, secret, h) == Replace(h.End(), b)
    requires Fits(u[h.End()..b], other, u[b..])
    ensures var u' := u[..h.End()] + other + u[b..];
            && FirstPair(u') == h && u'[..h.End()] == u[..h.End()]
            && Pieces(u', secret) == [Hidden(u[..h.End()], other)] + Pieces(u[b..], secret)
  {
    hide FirstPair, PairAtHead, MarkerExtent, ValueExtent, NameIsSecret, Judge, Pieces, In;
    var a := h.End();
    var u' := u[..a] + other + u[b..];
    JudgedWhole(u, secret, h);
    assert u'[..a] == u[..a] && u'[a] == other[0] && u'[a..] == other + u[b..];
    SecretNameKept(u, u', secret, h);
    JudgedSecret(u', secret, h, |other|);
    PiecesReplaced(u', secret, h, a + |other|);
    assert u'[a..a + |other|] == other && u'[a + |other|..] == u[b..];
  }

  /** An earlier piece, with what follows it changed further on. */
  lemma KeptBefore(u: string, secret: string -> bool, h: Hit, k: nat, v': string)
    requires FirstPair(u) == h && h.Hit? && Judge(u, secret, h) == Keep(k) && SameFirstPair(u[k..], v')
    ensures var u' := u[..k] + v';
            && FirstPair(u') == h && u'[..h.End()] == u[..h.End()]
            && Pieces(u', secret) == [Kept(u[..k])] + Pieces(v', secret)
  {
    hide FirstPair, PairAtHead, Judge, Pieces, SameFirstPair;
    SameStart(u[k..], v');
    var u' := u[..k] + v';
    assert u'[..k] == u[..k] && u'[k..] == v' && u'[k] == v'[0] == u[k];
    SettlesKept(u, secret, h, k, u');
    PiecesKept(u', secret, h, k);
    assert u'[..h.End()] == u'[..k][..h.End()] && u[..h.End()] == u[..k][..h.End()];
  }

  lemma HiddenBefore(u: string, secret: string -> bool, h: Hit, b: nat, v': string)
    requires FirstPair(u) == h && h.Hit? && Judge(u, secret, h) == Replace(h.End(), b) && SameFirstPair(u[b..], v')
    requires LeftOpen(u[h.End()..b] + u[b..]) ==> LeftOpen(u[h.End()..b] + v')
    ensures var u' := u[..h.End()] + u[h.End()..b] + v';
            && FirstPair(u') == h && u'[..h.End()] == u[..h.End()]
            && Pieces(u', secret) == [Hidden(u[..h.End()], u[h.End()..b])] + Pieces(v', secret)
  {
    hide FirstPair, PairAtHead, Judge, Pieces, SameFirstPair, MarkerExtent, ValueExtent, NameIsSecret, LeftOpen;
    var a, x := h.End(), u[h.End()..b];
    var u' := u[..a] + x + v';
    JudgedWhole(u, secret, h);
    assert u[a..] == x + u[b..];
    EarlierValue(x, u[b..], v');
    assert u'[..a] == u[..a] && u'[a] == x[0] == u[a] && u'[a..] == x + v';
    SecretNameKept(u, u', secret, h);
    JudgedSecret(u', secret, h, |x|);
    PiecesReplaced(u', secret, h, b);
    assert u'[a..b] == x && u'[b..] == v';
  }

  /** Exchanging one hidden value for another that fits in its place changes the text
      there and nowhere else: no piece starts, ends or is judged otherwise. */
  lemma {:induction false} ExchangeIsLocal(u: string, secret: string -> bool, i: nat, other: string)
    requires i < |Pieces(u, secret)| && Pieces(u, secret)[i].Hidden?
    requires Fits(Pieces(u, secret)[i].value, other, Original(Pieces(u, secret)[i + 1..]))
    requires ClosesNothing(Pieces(u, secret), i, other)
    ensures var ps := Exchanged(Pieces(u, secret), i, other);
            Pieces(Original(ps), secret) == ps && SameFirstPair(u, Original(ps))
    decreases |u|
  {
    hide FirstPair, PairAtHead, Judge, Pieces, Original, Fits, LeftOpen, ClosesNothing;
    var h, ps := FirstPair(u), Pieces(u, secret);
    if h.NoHit? {
      PiecesNone(u, secret);
    } else {
      var j := Judge(u, secret, h);
      var rest := Pieces(u[j.upTo..], secret);
      PiecesCover(u[j.upTo..], secret);
      if j.Keep? { PiecesKept(u, secret, h, j.upTo); } else { PiecesReplaced(u, secret, h, j.upTo); }
      assert ps[1..] == rest && ps == [ps[0]] + rest;
      if i == 0 {
        ExchangeHere(u, secret, h, j.upTo, other);
        OriginalStep(Hidden(ps[0].kept, other), rest);
        assert Exchanged(ps, 0, other) == [Hidden(ps[0].kept, other)] + rest;
      } else {
        assert ps[i + 1..] == rest[i..];
        TailClosesNothing(ps[0], rest, i - 1, other);
        ExchangeIsLocal(u[j.upTo..], secret, i - 1, other);
        var rest' := Exchanged(rest, i - 1, other);
        assert Exchanged(ps, i, other) == [ps[0]] + rest';
        OriginalStep(ps[0], rest');
        if j.Keep? {
          KeptBefore(u, secret, h, j.upTo, Original(rest'));
          assert u[..j.upTo] + "" == u[..j.upTo];
        } else {
          StaysOpen(ps[0], rest, i - 1, other);
          HiddenBefore(u, secret, h, j.upTo, Original(rest'));
        }
      }
    }
  }

  lemma StaysOpen(first: Piece, rest: seq<Piece>, i: nat, other: string)
    requires i < |rest| && first.Hidden? && ClosesNothing([first] + rest, i + 1, other)
    ensures LeftOpen(first.value + Original(rest)) ==> LeftOpen(first.value + Original(Exchanged(rest, i, other)))
  {
    hide Original, LeftOpen;
    var ps := [first] + rest;
    assert ps[0] == first && ps[0 + 1..] == rest;
    assert Exchanged(ps, i + 1, other)[0 + 1..] == Exchanged(rest, i, other);
    assert LeftOpen(From(ps, 0)) ==> LeftOpen(From(Exchanged(ps, i + 1, other), 0));
  }

  lemma TailClosesNothing(first: Piece, rest: seq<Piece>, i: nat, other: string)
    requires i < |rest| && ClosesNothing([first] + rest, i + 1, other)
    ensures ClosesNothing(rest, i, other)
  {
    hide Original, LeftOpen;
    var ps := [first] + rest;
    forall j | 0 <= j < i && rest[j].Hidden? && LeftOpen(From(rest, j))
      ensures LeftOpen(From(Exchanged(rest, i, other), j))
    {
      assert ps[j + 1..][1..] == rest[j + 1..] && ps[j + 1] == rest[j] && ps[j + 2..] == rest[j + 1..];
      assert Exchanged(ps, i + 1, other) == [first] + Exchanged(rest, i, other);
      assert ([first] + Exchanged(rest, i, other))[j + 2..] == Exchanged(rest, i, other)[j + 1..];
      assert From(ps, j + 1) == From(rest, j);
    }
  }

  /** So the two texts are alike, and redact alike. */
  lemma {:induction false} ExchangeIsLike(u: string, secret: string -> bool, i: nat, other: string)
    requires KeyFree(u) && i < |Pieces(u, secret)| && Pieces(u, secret)[i].Hidden?
    requires Fits(Pieces(u, secret)[i].value, other, Original(Pieces(u, secret)[i + 1..]))
    requires ClosesNothing(Pieces(u, secret), i, other)
    requires KeyFree(Original(Exchanged(Pieces(u, secret), i, other)))
    ensures var u' := Original(Exchanged(Pieces(u, secret), i, other));
            LikeTexts(u, u', secret) && Redacted(u, secret) == Redacted(u', secret)
  {
    hide Pieces, MaskKeys, Original, KeyFree, MarkerExtent, ValueExtent, In, ClosesNothing, Redacted, LikeTexts;
    var ps := Pieces(u, secret);
    var u' := Original(Exchanged(ps, i, other));
    ExchangeIsLocal(u, secret, i, other);
    KeyFreeUnchanged(u);
    KeyFreeUnchanged(u');
    PiecesCover(u, secret);
    LikeExchanged(ps, i, other);
    LikeByPieces(u, u', secret);
    LikeTextsRedactAlike(u, u', secret);
  }

  lemma LikeByPieces(s: string, t: string, secret: string -> bool)
    requires MaskKeys(s) == s && MaskKeys(t) == t && LikePieces(Pieces(s, secret), Pieces(t, secret))
    ensures LikeTexts(s, t, secret)
  {
  }

  lemma LikeExchanged(ps: seq<Piece>, i: nat, other: string)
    requires i < |ps| && ps[i].Hidden? && SameOpening(ps[i].value, other)
    requires forall p :: p in ps && p.Hidden? ==> p.value != ""
    ensures LikePieces(ps, Exchanged(ps, i, other))
  {
    var qs := Exchanged(ps, i, other);
    forall j | 0 <= j < |ps| ensures LikePiece(ps[j], qs[j]) { assert ps[j] in ps; }
  }
}
