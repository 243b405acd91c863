/**
 Scrubbing a whole request before it leaves for a provider: grounding values are
 walked by field name first and then as prose, messages and the system prompt as
 prose. The two walks come to one.
 */
module RequestRedaction {
  import opened AlikeTexts
  import opened ExactMarkers
  import opened PrivateKeys
  import opened Redaction

  /** One `map[string]any`. */
  datatype Fields = Fields(at: map<string, Tree>)

  /** A grounding value. `List` is `[]any`, `Maps` is `[]map[string]any`, `Lines` is
      `[]string`; anything else is known by how it prints. */
  datatype Tree =
    | Map(fields: Fields)
    | List(items: seq<Tree>)
    | Maps(maps: seq<Fields>)
    | Lines(lines: seq<string>)
    | Text(text: string)
    | Scalar(rendered: string)

  // ---------- the two walks ----------

  /** By name: whatever a secret name holds becomes the marker. */
  function MaskFields(f: Fields, secret: string -> bool): Fields
    decreases f, 1
  {
    Fields(map k | k in f.at :: if secret(k) then Text(MARKER) else Mask(f.at[k], secret))
  }

  function Mask(v: Tree, secret: string -> bool): Tree
    decreases v, 0
  {
    match v
    case Map(f) => Map(MaskFields(f, secret))
    case List(items) => List(seq(|items|, i requires 0 <= i < |items| => Mask(items[i], secret)))
    case Maps(maps) => Maps(seq(|maps|, i requires 0 <= i < |maps| => MaskFields(maps[i], secret)))
    case Lines(lines) => Lines(seq(|lines|, i requires 0 <= i < |lines| => MaskKeys(lines[i])))
    case Text(s) => Text(MaskKeys(s))
    case Scalar(_) => v
  }

  /** As prose: every string that is left. */
  function ProseFields(f: Fields, secret: string -> bool): Fields
    decreases f, 1
  {
    Fields(map k | k in f.at :: Prose(f.at[k], secret))
  }

  function Prose(v: Tree, secret: string -> bool): Tree
    decreases v, 0
  {
    match v
    case Map(f) => Map(ProseFields(f, secret))
    case List(items) => List(seq(|items|, i requires 0 <= i < |items| => Prose(items[i], secret)))
    case Maps(maps) => Maps(seq(|maps|, i requires 0 <= i < |maps| => ProseFields(maps[i], secret)))
    case Lines(lines) => Lines(seq(|lines|, i requires 0 <= i < |lines| => Redacted(lines[i], secret)))
    case Text(s) => Text(Redacted(s, secret))
    case Scalar(_) => v
  }

  function Scrubbed(f: Fields, secret: string -> bool): Fields { ProseFields(MaskFields(f, secret), secret) }

  function ScrubbedTree(v: Tree, secret: string -> bool): Tree { Prose(Mask(v, secret), secret) }

  // ---------- values there is nothing left to redact in ----------

  /** No private key, and every secret-named pair followed by nothing or by something
      that starts with a marker: what redaction leaves as it is. */
  ghost predicate CleanText(s: string, secret: string -> bool) {
    KeyFree(s) && forall m :: m in AllPairs(s, 0) ==> Harmless(s, secret, m)
  }

  ghost predicate CleanFields(f: Fields, secret: string -> bool)
    decreases f, 1
  {
    forall k :: k in f.at ==> if secret(k) then f.at[k] == Text(MARKER) else Clean(f.at[k], secret)
  }

  /** Every secret name holds the marker, every other string is clean in that sense. */
  ghost predicate Clean(v: Tree, secret: string -> bool)
    decreases v, 0
  {
    match v
    case Map(f) => CleanFields(f, secret)
    case List(items) => forall i :: 0 <= i < |items| ==> Clean(items[i], secret)
    case Maps(maps) => forall i :: 0 <= i < |maps| ==> CleanFields(maps[i], secret)
    case Lines(lines) => forall i :: 0 <= i < |lines| ==> CleanText(lines[i], secret)
    case Text(s) => CleanText(s, secret)
    case Scalar(_) => true
  }

  lemma {:induction false} CleanTextIsFixed(s: string, secret: string -> bool)
    ensures Redacted(s, secret) == s <==> CleanText(s, secret)
    ensures CleanText(Redacted(s, secret), secret)
    ensures Redacted(MaskKeys(s), secret) == Redacted(s, secret)
  {
    hide MaskKeys, KeyFree, Scrub, AllPairs, Harmless;
    RedactTwice(s, secret);
    OutputIsHarmless(s, secret);
    MaskedIsKeyFree(s);
    KeyFreeUnchanged(MaskKeys(s));
    if KeyFree(s) {
      KeyFreeUnchanged(s);
      CleanExactlyWhenHarmless(s, secret);
    }
  }

  lemma MarkerIsNoKey()
    ensures MaskKeys(MARKER) == MARKER
  {
    hide MaskKeys, KeyFree;
    NothingHasNoKey();
    KeyFreeAround("", MARKER, "");
    assert "" + MARKER + "" == MARKER;
    KeyFreeUnchanged(MARKER);
  }

  lemma MarkerIsNoPair(secret: string -> bool)
    ensures Scrub(MARKER, secret) == MARKER
  {
    hide Scrub, FirstPair;
    assert MARKER + "" == MARKER;
    NoPairInMarker("");
    NothingInNothing();
    ScrubNothing(MARKER, secret);
  }

  lemma NothingInNothing()
    ensures FirstPair("").NoHit?
  {
  }

  /** The marker is not a pair and not a key. */
  lemma MarkerIsClean(secret: string -> bool)
    ensures MaskKeys(MARKER) == MARKER && Redacted(MARKER, secret) == MARKER
  {
    hide MaskKeys, Scrub;
    MarkerIsNoKey();
    MarkerIsNoPair(secret);
  }

  // ---------- what a request becomes ----------

  /** One pass: the marker for what a secret name holds, redacted text elsewhere. */
  ghost predicate IsScrubbedFields(f: Fields, r: Fields, secret: string -> bool)
    decreases f, 1
  {
    && f.at.Keys == r.at.Keys
    && forall k :: k in f.at ==>
         if secret(k) then r.at[k] == Text(MARKER) else IsScrubbed(f.at[k], r.at[k], secret)
  }

  ghost predicate IsScrubbed(v: Tree, r: Tree, secret: string -> bool)
    decreases v, 0
  {
    match v
    case Map(f) => r.Map? && IsScrubbedFields(f, r.fields, secret)
    case List(items) =>
      r.List? && |r.items| == |items| && forall i :: 0 <= i < |items| ==> IsScrubbed(items[i], r.items[i], secret)
    case Maps(maps) =>
      r.Maps? && |r.maps| == |maps| && forall i :: 0 <= i < |maps| ==> IsScrubbedFields(maps[i], r.maps[i], secret)
    case Lines(lines) =>
      r.Lines? && |r.lines| == |lines| && forall i :: 0 <= i < |lines| ==> r.lines[i] == Redacted(lines[i], secret)
    case Text(s) => r == Text(Redacted(s, secret))
    case Scalar(_) => r == v
  }

  lemma {:induction false} ScrubsFields(f: Fields, secret: string -> bool)
    ensures IsScrubbedFields(f, Scrubbed(f, secret), secret)
    decreases f, 1
  {
    hide MaskKeys, Redacted, IsScrubbed;
    MarkerIsClean(secret);
    var m, r := MaskFields(f, secret), Scrubbed(f, secret);
    forall k | k in f.at
      ensures if secret(k) then r.at[k] == Text(MARKER) else IsScrubbed(f.at[k], r.at[k], secret)
    {
      assert r.at[k] == Prose(m.at[k], secret);
      if !secret(k) { Scrubs(f.at[k], secret); }
    }
  }

  /** The walk by name and then the walk over prose leave the marker under secret
      names and redacted text elsewhere, and change nothing else. */
  lemma {:induction false} Scrubs(v: Tree, secret: string -> bool)
    ensures IsScrubbed(v, ScrubbedTree(v, secret), secret)
    decreases v, 0
  {
    hide MaskKeys, Redacted;
    match v
    case Map(f) => ScrubsFields(f, secret);
    case List(items) =>
      forall i | 0 <= i < |items| ensures IsScrubbed(items[i], ScrubbedTree(items[i], secret), secret) {
        Scrubs(items[i], secret);
      }
    case Maps(maps) =>
      forall i | 0 <= i < |maps| ensures IsScrubbedFields(maps[i], Scrubbed(maps[i], secret), secret) {
        ScrubsFields(maps[i], secret);
      }
    case Lines(lines) =>
      forall i | 0 <= i < |lines| ensures Redacted(MaskKeys(lines[i]), secret) == Redacted(lines[i], secret) {
        CleanTextIsFixed(lines[i], secret);
      }
    case Text(s) => CleanTextIsFixed(s, secret);
    case Scalar(_) =>
  }

  lemma {:induction false} ScrubbedFieldsAreClean(f: Fields, r: Fields, secret: string -> bool)
    requires IsScrubbedFields(f, r, secret)
    ensures CleanFields(r, secret)
    ensures r == f <==> CleanFields(f, secret)
    decreases f, 1
  {
    hide CleanText, Redacted;
    forall k | k in f.at && !secret(k)
      ensures Clean(r.at[k], secret) && (r.at[k] == f.at[k] <==> Clean(f.at[k], secret))
    {
      ScrubbedIsClean(f.at[k], r.at[k], secret);
    }
    if CleanFields(f, secret) { assert f.at == r.at; }
  }

  /** What comes out is clean, and what was clean comes out as it was. */
  lemma {:induction false} ScrubbedIsClean(v: Tree, r: Tree, secret: string -> bool)
    requires IsScrubbed(v, r, secret)
    ensures Clean(r, secret)
    ensures r == v <==> Clean(v, secret)
    decreases v, 0
  {
    hide CleanText, Redacted;
    match v
    case Map(f) => ScrubbedFieldsAreClean(f, r.fields, secret);
    case List(items) =>
      forall i | 0 <= i < |items|
        ensures Clean(r.items[i], secret) && (r.items[i] == items[i] <==> Clean(items[i], secret))
      {
        ScrubbedIsClean(items[i], r.items[i], secret);
      }
    case Maps(maps) =>
      forall i | 0 <= i < |maps|
        ensures CleanFields(r.maps[i], secret) && (r.maps[i] == maps[i] <==> CleanFields(maps[i], secret))
      {
        ScrubbedFieldsAreClean(maps[i], r.maps[i], secret);
      }
    case Lines(lines) =>
      forall i | 0 <= i < |lines|
        ensures CleanText(r.lines[i], secret) && (r.lines[i] == lines[i] <==> CleanText(lines[i], secret))
      {
        CleanTextIsFixed(lines[i], secret);
      }
    case Text(s) => CleanTextIsFixed(s, secret);
    case Scalar(_) =>
  }

  // ---------- values that are marked exactly ----------

  ghost predicate ExactFields(f: Fields, secret: string -> bool)
    decreases f, 1
  {
    forall k :: k in f.at ==> if secret(k) then f.at[k] == Text(MARKER) else Exact(f.at[k], secret)
  }

  /** Every secret name holds the marker, and in every other string a secret-named pair
      is followed by nothing or by exactly a marker. */
  ghost predicate Exact(v: Tree, secret: string -> bool)
    decreases v, 0
  {
    match v
    case Map(f) => ExactFields(f, secret)
    case List(items) => forall i :: 0 <= i < |items| ==> Exact(items[i], secret)
    case Maps(maps) => forall i :: 0 <= i < |maps| ==> ExactFields(maps[i], secret)
    case Lines(lines) => forall i :: 0 <= i < |lines| ==> AllExactlyMarked(lines[i], secret, 0)
    case Text(s) => AllExactlyMarked(s, secret, 0)
    case Scalar(_) => true
  }

  /** No secret value in the text goes on behind where the scanner takes it to end. */
  ghost predicate EndedText(s: string, secret: string -> bool) { NothingGoesOn(MaskKeys(s), secret, 0) }

  ghost predicate EndedFields(f: Fields, secret: string -> bool)
    decreases f, 1
  {
    forall k :: k in f.at && !secret(k) ==> Ended(f.at[k], secret)
  }

  ghost predicate Ended(v: Tree, secret: string -> bool)
    decreases v, 0
  {
    match v
    case Map(f) => EndedFields(f, secret)
    case List(items) => forall i :: 0 <= i < |items| ==> Ended(items[i], secret)
    case Maps(maps) => forall i :: 0 <= i < |maps| ==> EndedFields(maps[i], secret)
    case Lines(lines) => forall i :: 0 <= i < |lines| ==> EndedText(lines[i], secret)
    case Text(s) => EndedText(s, secret)
    case Scalar(_) => true
  }

  lemma {:induction false} FieldsExactlyWhen(f: Fields, r: Fields, secret: string -> bool)
    requires IsScrubbedFields(f, r, secret)
    ensures ExactFields(r, secret) <==> EndedFields(f, secret)
    decreases f, 1
  {
    hide Redacted, AllExactlyMarked, EndedText;
    forall k | k in f.at && !secret(k) ensures Exact(r.at[k], secret) <==> Ended(f.at[k], secret) {
      ExactExactlyWhen(f.at[k], r.at[k], secret);
    }
  }

  /** What comes out is marked exactly, at every depth, if and only if no secret value
      in any string that is not under a secret name goes on behind its end. */
  lemma {:induction false} ExactExactlyWhen(v: Tree, r: Tree, secret: string -> bool)
    requires IsScrubbed(v, r, secret)
    ensures Exact(r, secret) <==> Ended(v, secret)
    decreases v, 0
  {
    hide Redacted, AllExactlyMarked, NothingGoesOn, MaskKeys;
    match v
    case Map(f) => FieldsExactlyWhen(f, r.fields, secret);
    case List(items) =>
      forall i | 0 <= i < |items| ensures Exact(r.items[i], secret) <==> Ended(items[i], secret) {
        ExactExactlyWhen(items[i], r.items[i], secret);
      }
    case Maps(maps) =>
      forall i | 0 <= i < |maps| ensures ExactFields(r.maps[i], secret) <==> EndedFields(maps[i], secret) {
        FieldsExactlyWhen(maps[i], r.maps[i], secret);
      }
    case Lines(lines) =>
      forall i | 0 <= i < |lines|
        ensures AllExactlyMarked(r.lines[i], secret, 0) <==> EndedText(lines[i], secret)
      {
        ExactlyMarkedExactlyWhen(lines[i], secret);
      }
    case Text(s) => ExactlyMarkedExactlyWhen(s, secret);
    case Scalar(_) =>
  }

  // ---------- what it does not depend on ----------

  /** Do two values differ at most in what secret names hold and in what is hidden in
      like texts? */
  ghost predicate AlikeFields(f: Fields, g: Fields, secret: string -> bool)
    decreases f, 1
  {
    f.at.Keys == g.at.Keys && forall k :: k in f.at && !secret(k) ==> Alike(f.at[k], g.at[k], secret)
  }

  ghost predicate Alike(v: Tree, w: Tree, secret: string -> bool)
    decreases v, 0
  {
    match v
    case Map(f) => w.Map? && AlikeFields(f, w.fields, secret)
    case List(items) =>
      w.List? && |w.items| == |items| && forall i :: 0 <= i < |items| ==> Alike(items[i], w.items[i], secret)
    case Maps(maps) =>
      w.Maps? && |w.maps| == |maps| && forall i :: 0 <= i < |maps| ==> AlikeFields(maps[i], w.maps[i], secret)
    case Lines(lines) =>
      w.Lines? && |w.lines| == |lines|
      && forall i :: 0 <= i < |lines| ==> LikeTexts(lines[i], w.lines[i], secret)
    case Text(s) => w.Text? && LikeTexts(s, w.text, secret)
    case Scalar(_) => v == w
  }

  lemma {:induction false} SecretsDoNotShowInFields(f: Fields, g: Fields, r: Fields, q: Fields, secret: string -> bool)
    requires AlikeFields(f, g, secret) && IsScrubbedFields(f, r, secret) && IsScrubbedFields(g, q, secret)
    ensures r == q
    decreases f, 1
  {
    hide Redacted, LikeTexts;
    forall k | k in f.at && !secret(k) ensures r.at[k] == q.at[k] {
      SecretsDoNotShow(f.at[k], g.at[k], r.at[k], q.at[k], secret);
    }
    assert r.at == q.at;
  }

  /** Values that differ only in their secrets come out the same. */
  lemma {:induction false} SecretsDoNotShow(v: Tree, w: Tree, r: Tree, q: Tree, secret: string -> bool)
    requires Alike(v, w, secret) && IsScrubbed(v, r, secret) && IsScrubbed(w, q, secret)
    ensures r == q
    decreases v, 0
  {
    hide Redacted, LikeTexts;
    match v
    case Map(f) => SecretsDoNotShowInFields(f, w.fields, r.fields, q.fields, secret);
    case List(items) =>
      forall i | 0 <= i < |items| ensures r.items[i] == q.items[i] {
        SecretsDoNotShow(items[i], w.items[i], r.items[i], q.items[i], secret);
      }
    case Maps(maps) =>
      forall i | 0 <= i < |maps| ensures r.maps[i] == q.maps[i] {
        SecretsDoNotShowInFields(maps[i], w.maps[i], r.maps[i], q.maps[i], secret);
      }
    case Lines(lines) =>
      forall i | 0 <= i < |lines| ensures r.lines[i] == q.lines[i] {
        LikeTextsRedactAlike(lines[i], w.lines[i], secret);
      }
    case Text(s) => LikeTextsRedactAlike(s, w.text, secret);
    case Scalar(_) =>
  }
}
