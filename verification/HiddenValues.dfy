/**
 How far redaction hides, byte by byte: where the value of a secret name ends, in the
 bytes that end it.
 */
module HiddenValues {
  import opened Patterns
  import opened PrivateKeys
  import opened Redaction
  import opened Sequences

  // ---------- the bytes the pattern is made of ----------

  const UPPER := "ABCDEFGHIJKLMNOPQRSTUVWXYZ"
  const LOWER := "abcdefghijklmnopqrstuvwxyz"
  const DIGITS := "0123456789"

  lemma ByteClasses(c: char)
    ensures In(Name, c) <==> c in UPPER || c in LOWER || c in DIGITS || c in "_.-"
    ensures In(Label, c) <==> c in UPPER || c in DIGITS || c == ' '
  {
    Capitals(c);
    SmallLetters(c);
    Digits(c);
    hide UPPER, LOWER, DIGITS;
  }

  lemma EndBytes(c: char)
    ensures In(Space, c) <==> c in " \t\n\r\U{000C}"
    ensures IsQuote(c) <==> c in "\"'"
    ensures IsSeparator(c) <==> c in ":="
    ensures IsTerminator(c) <==> c in ",}]\n\r"
    ensures IsNewline(c) <==> c in "\n\r"
  {
  }

  lemma Capitals(c: char)
    ensures c in UPPER <==> 'A' <= c <= 'Z'
  {
    if 'A' <= c <= 'Z' { assert UPPER[c as int - 65] == c; }
  }

  lemma SmallLetters(c: char)
    ensures c in LOWER <==> 'a' <= c <= 'z'
  {
    if 'a' <= c <= 'z' { assert LOWER[c as int - 97] == c; }
  }

  lemma Digits(c: char)
    ensures c in DIGITS <==> '0' <= c <= '9'
  {
    if '0' <= c <= '9' { assert DIGITS[c as int - 48] == c; }
  }

  /** A name of up to 64 bytes begins a pair; of a longer one only its last 64 do. */
  lemma NamesAreShort(name: string, rest: string)
    requires forall i :: 0 <= i < |name| ==> In(Name, name[i])
    ensures PairAtHead(name + ":" + rest).Pair? <==> 1 <= |name| <= 64
  {
    var u := name + ":" + rest;
    assert u[|name|] == ':' && forall i :: 0 <= i < |name| ==> u[i] == name[i];
    RunEndIs(u, 0, Name, |name|);
    RunEndIs(u, |name|, Space, |name|);
  }

  // ---------- where a value ends ----------

  /** A pair, behind a quote or not, starts one byte after k. */
  ghost predicate PairBehind(text: string, k: nat)
    requires k < |text|
  {
    exists o, n, q, w, e ::
      (o == k + 1 || (o == k + 2 < |text| && text[k + 1] in "\"'")) && Spells(text, o, n, q, w, e)
  }

  /** An unquoted value cannot go on: the text ends here, or a comma, a closing brace or
      bracket or a line end comes, or white space with a pair behind it. */
  ghost predicate BareEnd(text: string, k: nat)
    requires k <= |text|
  {
    || k == |text|
    || text[k] in ",}]\n\r"
    || (text[k] in " \t\n\r\U{000C}" && PairBehind(text, k))
  }

  /** A byte is escaped by an odd number of backslashes right before it. */
  lemma {:induction false} EscapedIs(u: string, i: nat, k: nat)
    requires i <= k <= |u|
    ensures var n := Slashes(u, i, k);
            && i + n <= k && (forall j :: k - n <= j < k ==> u[j] == '\\') && (i < k - n ==> u[k - n - 1] != '\\')
            && (Escaped(u, i, k) <==> n % 2 == 1)
  {
    if k > i && u[k - 1] == '\\' { EscapedIs(u, i, k - 1); }
  }

  /** The quote that opens the text stands again before k, not escaped. */
  ghost predicate ClosedAt(text: string, k: nat)
    requires 1 < k <= |text|
  {
    text[k - 1] == text[0] && !Escaped(text, 1, k - 1)
  }

  /** A quoted value ends behind the first quote that is not escaped and closes it, or,
      with none anywhere, where the line does. */
  ghost predicate QuotedEnd(text: string, n: nat)
    requires 0 < n <= |text|
  {
    || (1 < n && ClosedAt(text, n) && forall k :: 1 < k < n ==> !ClosedAt(text, k))
    || ((forall k :: 1 < k <= |text| ==> !ClosedAt(text, k))
        && (n == |text| || text[n] in "\n\r") && forall k :: 0 <= k < n ==> text[k] !in "\n\r")
  }

  /** The value at the head of the text is its first n bytes. */
  ghost predicate ValueIs(text: string, n: nat)
    requires n <= |text|
  {
    if text != "" && text[0] in "\"'" then 0 < n && QuotedEnd(text, n)
    else BareEnd(text, n) && forall k :: 0 <= k < n ==> !BareEnd(text, k)
  }

  lemma BeginsBehind(text: string, k: nat)
    requires k < |text|
    ensures PairBehind(text, k) <==>
              PairAtHead(if k + 1 < |text| && IsQuote(text[k + 1]) then text[k + 2..] else text[k + 1..]).Pair?
  {
    hide PairAtHead, In;
    var o := if k + 1 < |text| && IsQuote(text[k + 1]) then k + 2 else k + 1;
    if PairAtHead(text[o..]).Pair? {
      var q, w := PairSpells(text, o);
    }
    forall o', n, q, w, e
      | (o' == k + 1 || (o' == k + 2 < |text| && text[k + 1] in "\"'")) && Spells(text, o', n, q, w, e)
      ensures PairAtHead(text[o..]).Pair?
    {
      assert In(Name, text[o']);
      QuotesAreNoNames(text[o']);
      SpellsPair(text, o', n, q, w, e);
    }
  }

  lemma QuotesAreNoNames(c: char)
    ensures In(Name, c) ==> !IsQuote(c)
  {
  }

  lemma {:induction false} NextPairIs(text: string, k: nat, n: nat)
    requires k <= |text| && n == k + NextPairStart(text[k..])
    ensures n <= |text| && (n < |text| ==> In(Space, text[n]) && PairBehind(text, n))
    ensures forall i :: k <= i < n ==> !(In(Space, text[i]) && PairBehind(text, i))
    decreases |text| - k
  {
    hide PairAtHead, In, PairBehind;
    if k < |text| {
      BeginsBehind(text, k);
      var u := text[k..];
      assert u[1..] == text[k + 1..];
      assert k + 1 < |text| ==> u[1] == text[k + 1] && u[2..] == text[k + 2..];
      if n > k { NextPairIs(text, k + 1, n); }
    }
  }

  lemma BareExtent(text: string)
    requires text == "" || !IsQuote(text[0])
    ensures BareEnd(text, ValueExtent(text)) && forall k :: 0 <= k < ValueExtent(text) ==> !BareEnd(text, k)
  {
    hide PairAtHead, In, PairBehind, NextPairStart, FirstOf, IsTerminator;
    assert text[0..] == text;
    NextPairIs(text, 0, NextPairStart(text));
    forall c: char ensures IsTerminator(c) <==> c in ",}]\n\r" { EndBytes(c); }
    forall c: char ensures In(Space, c) <==> c in " \t\n\r\U{000C}" { EndBytes(c); }
  }

  lemma QuotedExtentEnds(text: string)
    requires text != "" && IsQuote(text[0])
    ensures QuotedEnd(text, QuotedExtent(text))
  {
    hide Escaped, FirstOf, ClosingQuote, IsNewline;
    var r, n := ClosingQuote(text, text[0], 1), QuotedExtent(text);
    ClosesAtFirstUnescaped(text, text[0], 1);
    forall c: char ensures IsNewline(c) <==> c in "\n\r" { EndBytes(c); }
  }

  /** The measure of a value is exact: the value is that many bytes and no other number. */
  lemma {:induction false} ExtentIsExact(text: string, n: nat)
    requires n <= |text|
    ensures ValueExtent(text) == n <==> ValueIs(text, n)
  {
    hide ValueExtent, BareEnd, QuotedEnd;
    if text != "" && IsQuote(text[0]) {
      QuotedIs(text);
      EndBytes(text[0]);
      if ValueIs(text, n) { OneQuotedEnd(text, n, ValueExtent(text)); }
    } else {
      BareExtent(text);
      if text != "" { EndBytes(text[0]); }
    }
  }

  lemma QuotedIs(text: string)
    requires text != "" && IsQuote(text[0])
    ensures ValueExtent(text) > 0 && QuotedEnd(text, ValueExtent(text))
  {
    hide QuotedEnd;
    QuotedExtentEnds(text);
  }

  lemma OneQuotedEnd(text: string, n: nat, m: nat)
    requires 0 < n <= |text| && 0 < m <= |text| && QuotedEnd(text, n) && QuotedEnd(text, m)
    ensures n == m
  {
    hide ClosedAt;
  }

  // ---------- what is hidden, and what is not ----------

  /** The markers the pass leaves as they are. */
  predicate StartsWithMarker(text: string) {
    "[redacted]" <= text || "\"[redacted]\"" <= text || "'[redacted]'" <= text
  }

  lemma MarkersAre(text: string)
    ensures MarkerExtent(text) > 0 <==> StartsWithMarker(text)
    ensures text != "" && text[0] == '"' ==> MarkerFor(text) == "\"[redacted]\""
    ensures text != "" && text[0] == '\'' ==> MarkerFor(text) == "'[redacted]'"
    ensures text != "" && text[0] !in "\"'" ==> MarkerFor(text) == "[redacted]"
  {
    assert Quoted('"') == "\"[redacted]\"" && Quoted('\'') == "'[redacted]'";
  }

  /** The text from the value of a piece on. */
  ghost function FromValue(ps: seq<Piece>, i: nat): string
    requires i < |ps| && ps[i].Hidden?
  {
    ps[i].value + Original(ps[i + 1..])
  }

  /** Every hidden stretch is the whole value behind a secret name, to the byte. */
  lemma {:induction false} HiddenIsWhole(u: string, secret: string -> bool, i: nat)
    requires i < |Pieces(u, secret)| && Pieces(u, secret)[i].Hidden?
    ensures var ps := Pieces(u, secret);
            && ps[i].value != "" && ValueIs(FromValue(ps, i), |ps[i].value|)
            && !StartsWithMarker(FromValue(ps, i))
  {
    hide Pieces, FirstPair, PairAtHead, ValueExtent, MarkerExtent, Original, NameIsSecret, ValueIs, StartsWithMarker;
    var ps := Pieces(u, secret);
    PiecesJustified(u, secret, i);
    var rest := Original(ps[i..]);
    assert ps[i..] == [ps[i]] + ps[i + 1..];
    OriginalStep(ps[i], ps[i + 1..]);
    Behind(ps[i].kept, ps[i].value, Original(ps[i + 1..]));
    ExtentIsExact(rest[|ps[i].kept|..], |ps[i].value|);
    MarkersAre(rest[|ps[i].kept|..]);
  }

  lemma Behind(a: string, b: string, c: string)
    ensures (a + b + c)[|a|..] == b + c
  {
  }

  /** A secret name's value that is not hidden is empty or starts with a marker. */
  lemma HarmlessIs(s: string, secret: string -> bool, m: Span)
    requires SpanWithin(m, 0, |s|)
    ensures Harmless(s, secret, m) <==>
              (secret(s[m.start..m.nameEnd]) ==> StartsWithMarker(s[m.end..]) || ValueIs(s[m.end..], 0))
  {
    hide ValueExtent, MarkerExtent, ValueIs, StartsWithMarker;
    ExtentIsExact(s[m.end..], 0);
    MarkersAre(s[m.end..]);
  }

  /** In the redacted text every secret-named pair has an empty value or one that starts
      with a marker. */
  lemma {:induction false} NothingElseIsLeft(s: string, secret: string -> bool, m: Span)
    requires m in AllPairs(Redacted(s, secret), 0) && secret(Redacted(s, secret)[m.start..m.nameEnd])
    ensures StartsWithMarker(Redacted(s, secret)[m.end..]) || ValueIs(Redacted(s, secret)[m.end..], 0)
  {
    hide Redacted, AllPairs, Harmless, ValueIs, StartsWithMarker;
    OutputIsHarmless(s, secret);
    HarmlessIs(Redacted(s, secret), secret, m);
  }

  // ---------- keys, by the expression for their lines ----------

  predicate IsLabel(kind: string) { forall i :: 0 <= i < |kind| ==> kind[i] in UPPER || kind[i] in DIGITS || kind[i] == ' ' }

  /** A line that opens or closes a key is its opening, a label and PRIVATE KEY. */
  lemma {:induction false} ArmourIsExact(u: string, opening: string)
    ensures ArmourLen(u, opening) > 0 <==>
              exists kind :: IsLabel(kind) && opening + kind + "PRIVATE KEY-----" <= u
    ensures forall kind :: IsLabel(kind) && opening + kind + "PRIVATE KEY-----" <= u ==>
              ArmourLen(u, opening) == |opening| + |kind| + 16
  {
    forall kind | IsLabel(kind) && opening + kind + "PRIVATE KEY-----" <= u
      ensures ArmourLen(u, opening) == |opening| + |kind| + 16
    {
      LabelledIsArmour(u, opening, kind);
    }
    if ArmourLen(u, opening) > 0 { var kind := ArmourHasLabel(u, opening); }
  }

  lemma LabelledIsArmour(u: string, opening: string, kind: string)
    requires IsLabel(kind) && opening + kind + "PRIVATE KEY-----" <= u
    ensures ArmourLen(u, opening) == |opening| + |kind| + 16
  {
    hide RunEnd, In, UPPER, DIGITS;
    var line, body := opening + kind + "PRIVATE KEY-----", kind + "PRIVATE KEY";
    var e := |opening| + |body|;
    assert line == opening + body + "-----";
    assert u[..|line|] == line && u[..|opening|] == opening && u[|opening|..e] == body && u[e..e + 5] == "-----";
    WordsAreLabels();
    forall i | |opening| <= i < e ensures In(Label, u[i]) {
      assert u[i] == body[i - |opening|];
      ByteClasses(u[i]);
    }
    assert u[e] == u[e..e + 5][0] == '-';
    RunEndIs(u, |opening|, Label, e);
    assert u[e - 11..e] == body[|body| - 11..] == "PRIVATE KEY";
    assert u[e..][..5] == "-----";
  }

  lemma ArmourHasLabel(u: string, opening: string) returns (kind: string)
    requires ArmourLen(u, opening) > 0
    ensures IsLabel(kind) && opening + kind + "PRIVATE KEY-----" <= u
  {
    hide RunEnd, In, UPPER, DIGITS;
    var e := RunEnd(u, |opening|, Label);
    kind := u[|opening|..e - 11];
    forall i | 0 <= i < |kind| ensures kind[i] in UPPER || kind[i] in DIGITS || kind[i] == ' ' {
      ByteClasses(u[|opening| + i]);
    }
    assert u[..e + 5] == opening + kind + u[e - 11..e] + u[e..e + 5];
    assert u[e..e + 5] == u[e..][..5] == "-----";
  }

  /** What opens a key and what closes it. */
  lemma KeyLines(u: string)
    ensures HeaderLen(u) > 0 <==> exists kind :: IsLabel(kind) && "-----BEGIN " + kind + "PRIVATE KEY-----" <= u
    ensures ArmourLen(u, END) > 0 <==> exists kind :: IsLabel(kind) && "-----END " + kind + "PRIVATE KEY-----" <= u
  {
    hide ArmourLen;
    ArmourIsExact(u, "-----BEGIN ");
    ArmourIsExact(u, "-----END ");
  }

  ghost predicate ClosesAt(u: string, i: nat)
    requires i <= |u|
  {
    exists kind :: IsLabel(kind) && "-----END " + kind + "PRIVATE KEY-----" <= u[i..]
  }

  lemma ClosesIs(u: string, i: nat)
    requires i <= |u|
    ensures ClosesAt(u, i) <==> ArmourLen(u[i..], END) > 0
  {
    hide ArmourLen, IsLabel;
    KeyLines(u[i..]);
  }

  /** Index of the first closing line, or one past the end. */
  lemma {:induction false} FirstCloser(u: string) returns (i: nat)
    ensures i <= |u| + 1
    ensures i <= |u| ==> ArmourLen(u[i..], END) > 0 && PastTrailer(u) == i + ArmourLen(u[i..], END)
    ensures i > |u| ==> PastTrailer(u) == 0
    ensures forall j :: 0 <= j < i && j <= |u| ==> ArmourLen(u[j..], END) == 0
  {
    assert u[0..] == u;
    if u == "" {
      i := 1;
    } else if ArmourLen(u, END) > 0 {
      i := 0;
    } else {
      hide ArmourLen;
      var k := FirstCloser(u[1..]);
      i := k + 1;
      assert k < |u| ==> u[1..][k..] == u[i..];
      forall j | 0 < j < i && j <= |u| ensures ArmourLen(u[j..], END) == 0 { assert u[1..][j - 1..] == u[j..]; }
    }
  }

  /** The trailer that counts is the first one. */
  lemma {:induction false} TrailerIsFirst(u: string)
    ensures PastTrailer(u) == 0 <==> forall i :: 0 <= i <= |u| ==> !ClosesAt(u, i)
    ensures PastTrailer(u) > 0 ==>
              exists i :: (0 <= i <= |u| && ClosesAt(u, i) && PastTrailer(u) == i + ArmourLen(u[i..], END)
                           && forall j :: 0 <= j < i ==> !ClosesAt(u, j))
  {
    hide ArmourLen, PastTrailer, ClosesAt;
    var i := FirstCloser(u);
    forall j | 0 <= j <= |u| ensures ClosesAt(u, j) <==> ArmourLen(u[j..], END) > 0 { ClosesIs(u, j); }
  }

  /** From a header to the first trailer behind it, or, for the last stretch of a text,
      to its end where there is none. */
  ghost predicate WholeKey(text: string, last: bool) {
    var h := HeaderLen(text);
    h > 0 && if PastTrailer(text[h..]) > 0 then h + PastTrailer(text[h..]) == |text| else last
  }

  ghost predicate AllWhole(ss: seq<Stretch>) {
    forall i :: 0 <= i < |ss| && ss[i].Key? ==> WholeKey(ss[i].text, i == |ss| - 1)
  }

  lemma OneMoreWhole(first: Stretch, rest: seq<Stretch>)
    requires AllWhole(rest) && (first.Key? ==> WholeKey(first.text, rest == []))
    ensures AllWhole([first] + rest)
  {
    hide WholeKey;
    var ss := [first] + rest;
    forall i | 0 <= i < |ss| && ss[i].Key? ensures WholeKey(ss[i].text, i == |ss| - 1) {
      if i > 0 { assert ss[i] == rest[i - 1]; }
    }
  }

  /** What is hidden as a key is one, whole. */
  lemma {:induction false} KeysAreWhole(u: string)
    ensures AllWhole(Stretches(u))
    decreases |u|
  {
    hide HeaderLen, PastTrailer, WholeKey, Stretches;
    var h := HeaderLen(u);
    if u == "" {
      NothingMasked();
    } else if h > 0 && PastTrailer(u[h..]) > 0 {
      var t := PastTrailer(u[h..]);
      hide AllWhole;
      BlockStep(u, t);
      KeysAreWhole(u[h + t..]);
      ClosedKey(u, t, Stretches(u[h + t..]) == []);
      OneMoreWhole(Key(u[..h + t]), Stretches(u[h + t..]));
    } else if h > 0 {
      OpenKey(u);
    } else {
      hide AllWhole;
      PlainStep(u);
      KeysAreWhole(u[1..]);
      OneMoreWhole(Plain([u[0]]), Stretches(u[1..]));
    }
  }

  lemma OpenKey(u: string)
    requires HeaderLen(u) > 0 && PastTrailer(u[HeaderLen(u)..]) == 0
    ensures Stretches(u) == [Key(u)] && WholeKey(u, true)
  {
    hide HeaderLen, PastTrailer;
  }

  lemma ClosedKey(u: string, t: nat, last: bool)
    requires HeaderLen(u) > 0 && t == PastTrailer(u[HeaderLen(u)..]) > 0
    ensures WholeKey(u[..HeaderLen(u) + t], last)
  {
    hide HeaderLen, PastTrailer;
    var h := HeaderLen(u);
    HeaderIsLocal(u, u[h..h + t]);
    assert u[..h] + u[h..h + t] == u[..h + t] && u[..h + t][h..] == u[h..][..t];
    TrailerAlone(u[h..]);
  }
}
