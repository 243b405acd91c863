/**
 PEM private-key blocks, masked by shape wherever they appear in a text.
 */
module PrivateKeys {
  import opened Patterns

  /** Replaces whatever was secret. */
  const MARKER := "[redacted]"

  const KEY_WORDS := "PRIVATE KEY"
  const DASHES := "-----"
  const BEGIN := "-----BEGIN "
  const END := "-----END "

  /** Length of  <opening>[A-Z0-9 ]*PRIVATE KEY-----  at the head of u, or 0. The
      label class cannot match a dash, so it always runs up to the closing dashes. */
  function ArmourLen(u: string, opening: string): (n: nat)
    ensures n <= |u|
    ensures n > 0 ==> |opening| < n
  {
    if opening <= u then
      var e := RunEnd(u, |opening|, Label);
      if e - |opening| >= |KEY_WORDS| && u[e - |KEY_WORDS|..e] == KEY_WORDS && DASHES <= u[e..]
      then e + |DASHES|
      else 0
    else 0
  }

  function HeaderLen(u: string): (n: nat) ensures n <= |u| { ArmourLen(u, BEGIN) }

  /** Index just past the first END line of u, or 0 when there is none. */
  function PastTrailer(u: string): (n: nat)
    ensures n <= |u|
  {
    if u == "" then 0
    else if ArmourLen(u, END) > 0 then ArmourLen(u, END)
    else
      var n := PastTrailer(u[1..]);
      if n == 0 then 0 else 1 + n
  }

  /** Every whole BEGIN … END block becomes one marker. */
  function MaskBlocks(u: string): string
    decreases |u|
  {
    if u == "" then ""
    else
      var h := HeaderLen(u);
      var t := PastTrailer(u[h..]);
      if h > 0 && t > 0 then MARKER + MaskBlocks(u[h..][t..])
      else [u[0]] + MaskBlocks(u[1..])
  }

  /** A header nothing closes takes the rest of the text with it. */
  function MaskHeadless(u: string): string {
    if u == "" then ""
    else if HeaderLen(u) > 0 then MARKER
    else [u[0]] + MaskHeadless(u[1..])
  }

  ghost predicate Contains(u: string, part: string) {
    exists i :: 0 <= i <= |u| && part <= u[i..]
  }

  predicate Mentions(u: string, part: string)
    requires part != ""
    ensures Mentions(u, part) <==> Contains(u, part)
  {
    if part <= u then
      assert u[0..] == u;
      true
    else if u == "" then false
    else
      var rest := Mentions(u[1..], part);
      assert forall i :: 1 <= i <= |u| ==> u[i..] == u[1..][i - 1..];
      assert forall i :: 0 <= i <= |u| - 1 ==> u[1..][i..] == u[i + 1..];
      assert u[0..] == u;
      rest
  }

  function MaskKeys(u: string): string {
    if !Mentions(u, KEY_WORDS) then u else MaskHeadless(MaskBlocks(u))
  }

  // ---------- no private-key header is left, and then nothing changes ----------

  ghost predicate KeyFree(u: string) {
    forall i :: 0 <= i <= |u| ==> HeaderLen(u[i..]) == 0
  }

  lemma WordsAreLabels()
    ensures (forall i :: 0 <= i < |KEY_WORDS| ==> In(Label, KEY_WORDS[i])) && !In(Label, DASHES[0])
  {
  }

  /** An armour line depends only on its own bytes. */
  lemma ArmourKept(u: string, v: string, opening: string)
    requires var h := ArmourLen(u, opening); h > 0 && h <= |v| && v[..h] == u[..h]
    ensures ArmourLen(v, opening) == ArmourLen(u, opening)
  {
    hide RunEnd, In;
    var h := ArmourLen(u, opening);
    var e := RunEnd(u, |opening|, Label);
    assert h == e + |DASHES| && u[e..h] == DASHES && u[e] == u[e..h][0] == DASHES[0];
    WordsAreLabels();
    assert forall i :: 0 <= i < h ==> v[i] == v[..h][i] == u[..h][i] == u[i];
    RunEndIs(v, |opening|, Label, e);
    assert v[e - |KEY_WORDS|..e] == u[e - |KEY_WORDS|..e] && v[e..h] == u[e..h];
    assert v[..|opening|] == u[..|opening|];
  }

  lemma HeaderBytes(u: string, i: nat)
    requires i < HeaderLen(u)
    ensures u[i] !in "[]\"'"
  {
    hide RunEnd;
    var e := RunEnd(u, |BEGIN|, Label);
    if i < |BEGIN| {
      assert u[i] == BEGIN[i];
    } else if i < e {
      assert In(Label, u[i]);
    } else {
      assert u[i] == u[e..][i - e] == DASHES[i - e];
    }
  }

  /** A header depends only on its own bytes, and none of them is a bracket or a quote. */
  lemma HeaderIsLocal(u: string, rest: string)
    requires HeaderLen(u) > 0
    ensures HeaderLen(u[..HeaderLen(u)] + rest) == HeaderLen(u)
    ensures forall i :: 0 <= i < HeaderLen(u) ==> u[i] !in "[]\"'"
  {
    hide ArmourLen;
    var h := HeaderLen(u);
    ArmourKept(u, u[..h] + rest, BEGIN);
    forall i | 0 <= i < h ensures u[i] !in "[]\"'" { HeaderBytes(u, i); }
  }

  lemma HeaderExtends(u: string, rest: string)
    ensures HeaderLen(u) > 0 ==> HeaderLen(u + rest) > 0 && u[0] == '-'
  {
    if HeaderLen(u) > 0 {
      var h := HeaderLen(u);
      HeaderIsLocal(u, u[h..] + rest);
      assert u[..h] + (u[h..] + rest) == u + rest;
      assert u[0] == BEGIN[0];
    }
  }

  /** A header cannot reach a fencing byte: it lies wholly before it. */
  lemma HeaderBeforeFence(u: string, k: nat)
    requires HeaderLen(u) > 0
    requires k < |u| && u[k] in "[]\"'"
    ensures HeaderLen(u[..k]) > 0
  {
    var h := HeaderLen(u);
    HeaderIsLocal(u, if h <= k then u[h..k] else "");
    assert h <= k;
    assert u[..h] + u[h..k] == u[..k];
  }

  lemma HeaderMentions(u: string, i: nat)
    requires i <= |u|
    ensures HeaderLen(u[i..]) > 0 ==> Contains(u, KEY_WORDS)
  {
    if HeaderLen(u[i..]) > 0 {
      var j := RunEnd(u[i..], |BEGIN|, Label) - |KEY_WORDS|;
      assert u[i + j..][..|KEY_WORDS|] == u[i..][j..j + |KEY_WORDS|];
    }
  }

  lemma KeyFreeParts(u: string, k: nat)
    requires KeyFree(u) && k <= |u|
    ensures KeyFree(u[..k]) && KeyFree(u[k..])
  {
    hide HeaderLen;
    forall i | 0 <= i <= k
      ensures HeaderLen(u[..k][i..]) == 0
    {
      assert u[..k][i..] + u[k..] == u[i..];
      HeaderExtends(u[..k][i..], u[k..]);
    }
    forall i | 0 <= i <= |u| - k
      ensures HeaderLen(u[k..][i..]) == 0
    {
      assert u[k..][i..] == u[k + i..];
    }
  }

  /** A marker as it is written: fenced by brackets or quotes, without a dash. */
  ghost predicate Fenced(m: string) {
    m != "" && m[0] in "[]\"'" && m[|m| - 1] in "[]\"'" && '-' !in m
  }

  /** No header can reach across a marker. */
  lemma KeyFreeAround(a: string, m: string, b: string)
    requires KeyFree(a) && KeyFree(b) && Fenced(m)
    ensures KeyFree(a + m + b)
  {
    hide HeaderLen;
    var u := a + m + b;
    forall i | 0 <= i <= |u|
      ensures HeaderLen(u[i..]) == 0
    {
      if i >= |a| + |m| {
        assert u[i..] == b[i - |a| - |m|..];
      } else if i >= |a| {
        HeaderExtends(u[i..], "");
        assert u[i..][0] == m[i - |a|];
      } else {
        assert u[i..][|a| - i] == m[0];
        assert u[i..][..|a| - i] == a[i..];
        if HeaderLen(u[i..]) > 0 {
          HeaderBeforeFence(u[i..], |a| - i);
        }
      }
    }
  }

  lemma HeadlessShape(u: string) returns (k: nat)
    ensures k <= |u|
    ensures MaskHeadless(u) == u[..k] + (if k == |u| then "" else MARKER)
  {
    hide HeaderLen;
    if u == "" || HeaderLen(u) > 0 {
      k := 0;
    } else {
      var j := HeadlessShape(u[1..]);
      k := j + 1;
      assert [u[0]] + u[1..][..j] == u[..k];
    }
  }

  lemma NothingHasNoKey()
    ensures KeyFree("") && Fenced(MARKER)
  {
  }

  lemma {:induction false} HeadlessKeyFree(u: string)
    ensures KeyFree(MaskHeadless(u))
  {
    hide HeaderLen;
    var m := MaskHeadless(u);
    NothingHasNoKey();
    if u == "" {
    } else if HeaderLen(u) > 0 {
      KeyFreeAround("", MARKER, "");
      assert "" + MARKER + "" == MARKER;
    } else {
      HeadlessKeyFree(u[1..]);
      assert HeaderLen(m) == 0 by {
        var k := HeadlessShape(u);
        HeaderExtends(u[..k], u[k..]);
        assert u[..k] + u[k..] == u;
        if k < |u| && HeaderLen(m) > 0 {
          assert m[k] == MARKER[0];
          assert m[..k] == u[..k];
          HeaderBeforeFence(m, k);
        }
      }
      forall i | 0 <= i <= |m|
        ensures HeaderLen(m[i..]) == 0
      {
        if i == 0 { assert m[0..] == m; }
        else { assert m[i..] == MaskHeadless(u[1..])[i - 1..]; }
      }
    }
  }

  lemma {:induction false} KeyFreeUnchanged(u: string)
    requires KeyFree(u)
    ensures MaskBlocks(u) == u && MaskHeadless(u) == u && MaskKeys(u) == u
  {
    hide HeaderLen;
    if u != "" {
      assert u[0..] == u;
      KeyFreeParts(u, 1);
      KeyFreeUnchanged(u[1..]);
    }
  }

  /** After the masking no private-key header is left anywhere. */
  lemma {:induction false} MaskedIsKeyFree(u: string)
    ensures KeyFree(MaskKeys(u))
  {
    hide HeaderLen;
    if Mentions(u, KEY_WORDS) {
      HeadlessKeyFree(MaskBlocks(u));
    } else {
      forall i | 0 <= i <= |u|
        ensures HeaderLen(u[i..]) == 0
      {
        HeaderMentions(u, i);
      }
    }
  }

  // ---------- what the masking keeps ----------

  /** A byte that is copied, or a whole key that becomes one marker. */
  datatype Stretch = Plain(text: string) | Key(text: string)

  /** A text cut into its keys and the bytes around them. */
  function Stretches(u: string): seq<Stretch>
    decreases |u|
  {
    if u == "" then []
    else
      var h := HeaderLen(u);
      var t := PastTrailer(u[h..]);
      if h > 0 && t > 0 then [Key(u[..h + t])] + Stretches(u[h + t..])
      else if h > 0 then [Key(u)]
      else [Plain([u[0]])] + Stretches(u[1..])
  }

  ghost function Joined(ss: seq<Stretch>): string {
    if ss == [] then "" else ss[0].text + Joined(ss[1..])
  }

  ghost function Shown(ss: seq<Stretch>): string {
    if ss == [] then "" else (if ss[0].Key? then MARKER else ss[0].text) + Shown(ss[1..])
  }

  /** From a header up to the first trailer behind it, or to the end if there is none. */
  ghost predicate IsKey(text: string) {
    var h := HeaderLen(text);
    h > 0 && (PastTrailer(text[h..]) == 0 || h + PastTrailer(text[h..]) == |text|)
  }

  /** Only keys are hidden, and no copied byte begins a header. */
  ghost predicate WellCut(ss: seq<Stretch>) {
    ss != [] ==>
      && (if ss[0].Key? then IsKey(ss[0].text) else HeaderLen(Joined(ss)) == 0)
      && WellCut(ss[1..])
  }

  lemma {:induction false} LaterTrailer(u: string, k: nat)
    requires k <= |u| && PastTrailer(u) == 0
    ensures PastTrailer(u[k..]) == 0
  {
    hide ArmourLen;
    if k > 0 {
      LaterTrailer(u[1..], k - 1);
      assert u[1..][k - 1..] == u[k..];
    } else {
      assert u[0..] == u;
    }
  }

  /** Behind its five dashes an opening has none, so no other opening begins inside it. */
  lemma OpeningsApart(u: string, i: nat, e: nat)
    requires BEGIN <= u && 0 < i <= |u| && BEGIN <= u[i..] && e <= |u|
    requires forall j :: |BEGIN| <= j < e ==> u[j] != '-'
    ensures i >= e
  {
    assert u[i] == u[i..][0] == BEGIN[0] == '-' && u[i + 4] == u[i..][4] == BEGIN[4] == '-';
    assert forall k :: 0 <= k < |BEGIN| ==> u[k] == BEGIN[k];
    assert forall k :: 5 <= k < |BEGIN| ==> BEGIN[k] != '-';
  }

  lemma HeaderHasOpening(u: string)
    requires HeaderLen(u) > 0
    ensures BEGIN <= u && |BEGIN| < HeaderLen(u)
    ensures forall j :: |BEGIN| <= j < HeaderLen(u) - |DASHES| ==> u[j] != '-'
  {
    var e := RunEnd(u, |BEGIN|, Label);
    assert HeaderLen(u) == e + |DASHES|;
    assert forall j :: |BEGIN| <= j < e ==> In(Label, u[j]);
  }

  /** Two headers share at most the dashes between them. */
  lemma HeadersApart(u: string, i: nat)
    requires HeaderLen(u) > 0 && 0 < i <= |u| && HeaderLen(u[i..]) > 0
    ensures i + HeaderLen(u[i..]) >= HeaderLen(u)
  {
    HeaderHasOpening(u);
    HeaderHasOpening(u[i..]);
    hide HeaderLen;
    OpeningsApart(u, i, HeaderLen(u) - |DASHES|);
  }

  lemma {:induction false} NoBlocks(u: string)
    requires forall i :: 0 <= i <= |u| && HeaderLen(u[i..]) > 0 ==> PastTrailer(u[i..][HeaderLen(u[i..])..]) == 0
    ensures MaskBlocks(u) == u
  {
    hide HeaderLen, PastTrailer;
    if u != "" {
      assert u[0..] == u;
      forall i | 0 <= i <= |u| - 1 && HeaderLen(u[1..][i..]) > 0
        ensures PastTrailer(u[1..][i..][HeaderLen(u[1..][i..])..]) == 0
      {
        assert u[1..][i..] == u[i + 1..];
      }
      NoBlocks(u[1..]);
    }
  }

  /** A header without a trailer behind it is left by the first pass, and so is all
      that follows it. */
  lemma HeadlessAlone(u: string)
    requires HeaderLen(u) > 0 && PastTrailer(u[HeaderLen(u)..]) == 0
    ensures MaskBlocks(u) == u && MaskHeadless(u) == MARKER
  {
    hide HeaderLen, PastTrailer;
    var h := HeaderLen(u);
    forall i | 0 <= i <= |u| && HeaderLen(u[i..]) > 0
      ensures PastTrailer(u[i..][HeaderLen(u[i..])..]) == 0
    {
      var n := HeaderLen(u[i..]);
      if i == 0 { assert u[0..] == u; } else { HeadersApart(u, i); }
      assert u[i..][n..] == u[h..][i + n - h..];
      LaterTrailer(u[h..], i + n - h);
    }
    NoBlocks(u);
  }

  lemma BlocksShape(u: string) returns (k: nat)
    ensures k <= |u| && u[..k] <= MaskBlocks(u)
    ensures if k == |u| then MaskBlocks(u) == u else k < |MaskBlocks(u)| && MaskBlocks(u)[k] == MARKER[0]
  {
    hide HeaderLen, PastTrailer;
    if u == "" {
      k := 0;
    } else if HeaderLen(u) > 0 && PastTrailer(u[HeaderLen(u)..]) > 0 {
      k := 0;
    } else {
      assert MaskBlocks(u) == [u[0]] + MaskBlocks(u[1..]);
      hide MaskBlocks;
      var j := BlocksShape(u[1..]);
      k := j + 1;
      OneAhead(u, MaskBlocks(u[1..]), j);
    }
  }

  lemma OneAhead(u: string, v: string, j: nat)
    requires u != "" && j <= |u| - 1 && u[1..][..j] <= v
    ensures u[..j + 1] <= [u[0]] + v
  {
    assert u[..j + 1] == [u[0]] + u[1..][..j];
  }

  lemma NoNewHeader(u: string)
    requires HeaderLen(u) == 0
    ensures HeaderLen(MaskBlocks(u)) == 0
  {
    hide HeaderLen, MaskBlocks;
    var k := BlocksShape(u);
    var v := MaskBlocks(u);
    if HeaderLen(v) > 0 && k < |u| {
      HeaderBeforeFence(v, k);
      assert v[..k] == u[..k] && u == u[..k] + u[k..];
      HeaderExtends(u[..k], u[k..]);
    }
  }

  lemma PlainStep(u: string)
    requires u != "" && HeaderLen(u) == 0
    ensures MaskBlocks(u) == [u[0]] + MaskBlocks(u[1..]) && MaskHeadless(u) == [u[0]] + MaskHeadless(u[1..])
    ensures Stretches(u) == [Plain([u[0]])] + Stretches(u[1..])
  {
    hide HeaderLen, PastTrailer;
  }

  /** Before text without a dash nothing is cut. */
  lemma {:induction false} NoDashAhead(a: string, y: string)
    requires '-' !in a
    ensures MaskHeadless(a + y) == a + MaskHeadless(y) && MaskBlocks(a + y) == a + MaskBlocks(y)
  {
    hide HeaderLen, MaskHeadless, MaskBlocks, Stretches;
    if a == "" {
      assert a + y == y && a + MaskHeadless(y) == MaskHeadless(y) && a + MaskBlocks(y) == MaskBlocks(y);
    } else {
      var u := a + y;
      HeaderExtends(u, "");
      assert u[0] == a[0] && u[1..] == a[1..] + y && a == [a[0]] + a[1..];
      PlainStep(u);
      NoDashAhead(a[1..], y);
      assert [a[0]] + (a[1..] + MaskHeadless(y)) == a + MaskHeadless(y);
      assert [a[0]] + (a[1..] + MaskBlocks(y)) == a + MaskBlocks(y);
    }
  }

  lemma BlockMasked(u: string, t: nat)
    requires HeaderLen(u) > 0 && t == PastTrailer(u[HeaderLen(u)..]) > 0
    ensures MaskBlocks(u) == MARKER + MaskBlocks(u[HeaderLen(u) + t..])
  {
    hide HeaderLen, PastTrailer;
    var h := HeaderLen(u);
    assert u[h..][t..] == u[h + t..];
  }

  lemma BlockStretched(u: string, t: nat)
    requires HeaderLen(u) > 0 && t == PastTrailer(u[HeaderLen(u)..]) > 0
    ensures Stretches(u) == [Key(u[..HeaderLen(u) + t])] + Stretches(u[HeaderLen(u) + t..])
  {
    hide HeaderLen, PastTrailer;
  }

  lemma BlockStep(u: string, t: nat)
    requires HeaderLen(u) > 0 && t == PastTrailer(u[HeaderLen(u)..]) > 0
    ensures var n := HeaderLen(u) + t;
            MaskBlocks(u) == MARKER + MaskBlocks(u[n..]) && Stretches(u) == [Key(u[..n])] + Stretches(u[n..])
  {
    hide HeaderLen, PastTrailer, MaskBlocks, Stretches;
    BlockMasked(u, t);
    BlockStretched(u, t);
  }

  lemma CutStep(first: Stretch, rest: seq<Stretch>)
    ensures Joined([first] + rest) == first.text + Joined(rest)
    ensures Shown([first] + rest) == (if first.Key? then MARKER else first.text) + Shown(rest)
    ensures Joined([]) == "" && Shown([]) == ""
  {
    assert ([first] + rest)[1..] == rest;
  }

  lemma OneByteCut(u: string)
    requires u != "" && HeaderLen(u) == 0
    ensures Joined(Stretches(u)) == [u[0]] + Joined(Stretches(u[1..]))
    ensures Shown(Stretches(u)) == [u[0]] + Shown(Stretches(u[1..]))
    ensures MaskHeadless(MaskBlocks(u)) == [u[0]] + MaskHeadless(MaskBlocks(u[1..]))
  {
    hide HeaderLen, PastTrailer, MaskBlocks, Joined, Shown, Stretches, MaskHeadless;
    PlainStep(u);
    CutStep(Plain([u[0]]), Stretches(u[1..]));
    NoNewHeader(u);
    PlainStep(MaskBlocks(u));
    assert MaskBlocks(u)[1..] == MaskBlocks(u[1..]);
  }

  lemma BlockCut(u: string, n: nat)
    requires HeaderLen(u) > 0 && PastTrailer(u[HeaderLen(u)..]) > 0
    requires n == HeaderLen(u) + PastTrailer(u[HeaderLen(u)..])
    ensures Joined(Stretches(u)) == u[..n] + Joined(Stretches(u[n..]))
    ensures Shown(Stretches(u)) == MARKER + Shown(Stretches(u[n..]))
    ensures MaskHeadless(MaskBlocks(u)) == MARKER + MaskHeadless(MaskBlocks(u[n..]))
  {
    hide HeaderLen, PastTrailer, MaskBlocks, Joined, Shown, Stretches, MaskHeadless;
    BlockStep(u, n - HeaderLen(u));
    CutStep(Key(u[..n]), Stretches(u[n..]));
    NoDashAhead(MARKER, MaskBlocks(u[n..]));
  }

  lemma RestCut(u: string)
    requires HeaderLen(u) > 0 && PastTrailer(u[HeaderLen(u)..]) == 0
    ensures Joined(Stretches(u)) == u && Shown(Stretches(u)) == MARKER == MaskHeadless(MaskBlocks(u))
  {
    hide HeaderLen, PastTrailer, MaskBlocks, MaskHeadless;
    assert Stretches(u) == [Key(u)] + [];
    hide Stretches, Joined, Shown;
    HeadlessAlone(u);
    CutStep(Key(u), []);
    assert u + "" == u && MARKER + "" == MARKER;
  }

  /** The two passes cut where the stretches do. */
  lemma {:induction false} CutInOne(u: string)
    ensures Joined(Stretches(u)) == u && Shown(Stretches(u)) == MaskHeadless(MaskBlocks(u))
    decreases |u|
  {
    hide HeaderLen, PastTrailer, MaskBlocks, MaskHeadless, Stretches, Joined, Shown;
    if u == "" {
      CutStep(Plain(""), []);
      NothingMasked();
    } else {
      var h := HeaderLen(u);
      var t := PastTrailer(u[h..]);
      if h > 0 && t > 0 {
        BlockCut(u, h + t);
        CutInOne(u[h + t..]);
        assert u == u[..h + t] + u[h + t..];
      } else if h > 0 {
        RestCut(u);
      } else {
        OneByteCut(u);
        CutInOne(u[1..]);
      }
    }
  }

  lemma NothingMasked()
    ensures MaskBlocks("") == "" && MaskHeadless("") == "" && Stretches("") == []
  {
  }

  lemma MaskingIsBoth(u: string)
    ensures MaskKeys(u) == MaskHeadless(MaskBlocks(u))
  {
    hide HeaderLen;
    if !Mentions(u, KEY_WORDS) {
      forall i | 0 <= i <= |u| ensures HeaderLen(u[i..]) == 0 { HeaderMentions(u, i); }
      KeyFreeUnchanged(u);
    }
  }

  lemma KeyAlone(u: string, t: nat)
    requires HeaderLen(u) > 0 && t == PastTrailer(u[HeaderLen(u)..]) > 0
    ensures IsKey(u[..HeaderLen(u) + t])
  {
    hide HeaderLen, PastTrailer;
    var h := HeaderLen(u);
    var text := u[..h + t];
    HeaderIsLocal(u, u[h..h + t]);
    assert u[..h] + u[h..h + t] == text;
    assert text[h..] == u[h..][..t];
    TrailerAlone(u[h..]);
  }

  /** The first trailer is found with nothing behind it. */
  lemma {:induction false} TrailerAlone(u: string)
    requires PastTrailer(u) > 0
    ensures PastTrailer(u[..PastTrailer(u)]) == PastTrailer(u)
  {
    hide ArmourLen;
    var t := PastTrailer(u);
    var v := u[..t];
    if ArmourLen(u, END) > 0 {
      EndIsLocal(u);
    } else {
      EndIsLocal(v);
      assert v + u[t..] == u;
      TrailerAlone(u[1..]);
      assert v[1..] == u[1..][..t - 1];
    }
  }

  /** A trailer depends on its own bytes only. */
  lemma EndIsLocal(u: string)
    ensures ArmourLen(u, END) > 0 ==> ArmourLen(u[..ArmourLen(u, END)], END) == ArmourLen(u, END)
    ensures ArmourLen(u, END) > 0 ==> forall rest :: ArmourLen(u + rest, END) == ArmourLen(u, END)
  {
    var h := ArmourLen(u, END);
    if h > 0 {
      ArmourKept(u, u[..h], END);
      forall rest ensures ArmourLen(u + rest, END) == h {
        assert (u + rest)[..h] == u[..h];
        ArmourKept(u, u + rest, END);
      }
    }
  }

  /** The shortest armour line is read whole, whatever follows. */
  lemma ArmourRead(opening: string, rest: string)
    ensures ArmourLen(opening + (KEY_WORDS + (DASHES + rest)), opening) == |opening| + |KEY_WORDS| + |DASHES|
  {
    var words := KEY_WORDS + (DASHES + rest);
    var u, e := opening + words, |opening| + |KEY_WORDS|;
    WordsAreLabels();
    hide RunEnd, In;
    assert forall i :: |opening| <= i < e ==> u[i] == words[i - |opening|] == KEY_WORDS[i - |opening|];
    assert u[e..] == DASHES + rest && u[e] == DASHES[0];
    RunEndIs(u, |opening|, Label, e);
    assert u[|opening|..e] == KEY_WORDS;
  }

  lemma {:induction false} CutsAreWell(u: string)
    ensures WellCut(Stretches(u))
    decreases |u|
  {
    hide HeaderLen, PastTrailer;
    if u != "" {
      var h := HeaderLen(u);
      var t := PastTrailer(u[h..]);
      CutInOne(u);
      if h > 0 && t > 0 {
        assert Stretches(u)[1..] == Stretches(u[h + t..]);
        KeyAlone(u, t);
        CutsAreWell(u[h + t..]);
      } else if h > 0 {
        assert Stretches(u)[1..] == [];
      } else {
        assert Stretches(u)[1..] == Stretches(u[1..]);
        CutsAreWell(u[1..]);
      }
    }
  }

  /** Every byte outside the keys is kept, in order, and nothing but keys is hidden. */
  lemma {:induction false} KeysKeepTheRest(u: string)
    ensures Joined(Stretches(u)) == u && Shown(Stretches(u)) == MaskKeys(u) && WellCut(Stretches(u))
  {
    hide MaskKeys, Stretches, Joined, Shown, WellCut;
    CutInOne(u);
    CutsAreWell(u);
    MaskingIsBoth(u);
  }

  /** The same bytes around keys in the same places. */
  ghost predicate LikeStretches(ss: seq<Stretch>, rs: seq<Stretch>) {
    |ss| == |rs| && forall i :: 0 <= i < |ss| ==> (ss[i].Key? && rs[i].Key?) || ss[i] == rs[i]
  }

  lemma {:induction false} LikeShowsAlike(ss: seq<Stretch>, rs: seq<Stretch>)
    requires LikeStretches(ss, rs)
    ensures Shown(ss) == Shown(rs)
  {
    if ss != [] { LikeShowsAlike(ss[1..], rs[1..]); }
  }

  /** Which keys stand in a text does not show. */
  lemma {:induction false} KeysDoNotShow(u: string, v: string)
    requires LikeStretches(Stretches(u), Stretches(v))
    ensures MaskKeys(u) == MaskKeys(v)
  {
    hide MaskKeys, Stretches, Shown, Joined, WellCut;
    KeysKeepTheRest(u);
    KeysKeepTheRest(v);
    LikeShowsAlike(Stretches(u), Stretches(v));
  }
}
