/**
 The line editor that keeps the `security:` block of a sensor's configuration
 file: it rewrites the block's managed keys where they stand and adds the rest.
 */
module SecurityBlock {
  import opened Sequences
  import opened WhiteSpace

  /** Nothing to trim on the left, of spaces and tabs. */
  predicate IsTopLevel(line: string) { line == "" || (line[0] != ' ' && line[0] != '\t') }

  predicate StartsBlock(line: string) { Trim(line) == "security:" && IsTopLevel(line) }

  predicate EndsBlock(line: string) { Trim(line) != "" && IsTopLevel(line) }

  /** One managed key and the text to write after it. */
  datatype Entry = Entry(key: string, text: string)

  function Rendered(e: Entry): string { "  " + e.key + ": " + e.text }

  const COMMENT := "#" + " mTLS Certificate Configuration (auto-generated after registration" + ")"

  const HEADING := ["", COMMENT, "security:"]

  /** The managed entries: the secret's only where there is a path for it. */
  function Entries(quote: string -> string, cert: string, key: string, ca: string, secret: string): seq<Entry> {
    [Entry("clientCertPath", quote(cert)), Entry("clientKeyPath", quote(key)), Entry("serverCACertPath", quote(ca))]
    + (if secret != "" then [Entry("agentSecretPath", quote(secret))] else [])
    + [Entry("useTLS", "true")]
  }

  // ---------- what the editor computes ----------

  function FirstStart(lines: seq<string>): (i: nat)
    ensures i <= |lines| && (i < |lines| ==> StartsBlock(lines[i])) && forall j :: 0 <= j < i ==> !StartsBlock(lines[j])
  {
    FirstOf(lines, StartsBlock)
  }

  /** The length of the block whose lines these begin with. */
  function BlockLen(lines: seq<string>): (n: nat)
    ensures n <= |lines| && (n < |lines| ==> EndsBlock(lines[n])) && forall j :: 0 <= j < n ==> !EndsBlock(lines[j])
  {
    FirstOf(lines, EndsBlock)
  }

  predicate Names(line: string, e: Entry) { e.key + ":" <= Trim(line) }

  /** The first entry a line is for, or the number of entries. */
  function EntryOf(line: string, es: seq<Entry>): (i: nat)
    ensures i <= |es| && (i < |es| ==> Names(line, es[i])) && forall j :: 0 <= j < i ==> !Names(line, es[j])
  {
    FirstOf(es, (e: Entry) => Names(line, e))
  }

  function Rewritten(line: string, es: seq<Entry>): string {
    var i := EntryOf(line, es);
    if i < |es| then Rendered(es[i]) else line
  }

  function Rewrite(block: seq<string>, es: seq<Entry>): (r: seq<string>)
    ensures |r| == |block| && forall i :: 0 <= i < |r| ==> r[i] == Rewritten(block[i], es)
  {
    seq(|block|, i requires 0 <= i < |block| => Rewritten(block[i], es))
  }

  /** The entries some line of the block is for. */
  function Met(block: seq<string>, es: seq<Entry>): set<nat> {
    if block == [] then {} else Met(block[..|block| - 1], es) + {EntryOf(block[|block| - 1], es)}
  }

  /** The lines for the entries no line was for, up to entry n, in order. */
  function Missing(block: seq<string>, es: seq<Entry>, n: nat): seq<string>
    requires n <= |es|
  {
    if n == 0 then []
    else Missing(block, es, n - 1) + (if n - 1 in Met(block, es) then [] else [Rendered(es[n - 1])])
  }

  function RenderAll(es: seq<Entry>): (r: seq<string>)
    ensures |r| == |es| && forall i :: 0 <= i < |r| ==> r[i] == Rendered(es[i])
  {
    seq(|es|, i requires 0 <= i < |es| => Rendered(es[i]))
  }

  function NewBlock(block: seq<string>, es: seq<Entry>): seq<string> {
    Rewrite(block, es) + Missing(block, es, |es|)
  }

  function WithBlock(lines: seq<string>, from: nat, to: nat, es: seq<Entry>): seq<string>
    requires from <= to <= |lines|
  {
    lines[..from] + NewBlock(lines[from..to], es) + lines[to..]
  }

  function Upserted(lines: seq<string>, es: seq<Entry>): seq<string> {
    var s := FirstStart(lines);
    if s == |lines| then lines + (HEADING + RenderAll(es))
    else WithBlock(lines, s + 1, s + 1 + BlockLen(lines[s + 1..]), es)
  }

  // ---------- the editor ----------

  method FindBlock(lines: seq<string>) returns (start: int, end: nat)
    ensures var s := FirstStart(lines);
            if s == |lines| then start == -1 && end == |lines|
            else start == s && end == s + 1 + BlockLen(lines[s + 1..])
  {
    hide IsTopLevel, Trim;
    start, end := -1, |lines|;
    for i := 0 to |lines|
      invariant end == |lines| && -1 <= start < i
      invariant start == -1 ==> forall j :: 0 <= j < i ==> !StartsBlock(lines[j])
      invariant start >= 0 ==> StartsBlock(lines[start]) && (forall j :: 0 <= j < start ==> !StartsBlock(lines[j]))
                               && forall j :: start < j < i ==> !EndsBlock(lines[j])
    {
      var trimmed := Trim(lines[i]);
      if start == -1 {
        if trimmed == "security:" && IsTopLevel(lines[i]) {
          start := i;
        }
        continue;
      }
      if trimmed != "" && IsTopLevel(lines[i]) {
        end := i;
        break;
      }
    }
    hide StartsBlock, EndsBlock, FirstStart, BlockLen;
    FirstStartIs(lines, if start == -1 then |lines| else start);
    if start >= 0 {
      BlockLenIs(lines[start + 1..], end - start - 1);
    }
  }

  lemma FirstStartIs(lines: seq<string>, i: nat)
    requires i <= |lines| && (i < |lines| ==> StartsBlock(lines[i])) && forall j :: 0 <= j < i ==> !StartsBlock(lines[j])
    ensures FirstStart(lines) == i
  {
    hide StartsBlock;
    FirstOfIs(lines, StartsBlock, i);
  }

  lemma BlockLenIs(lines: seq<string>, n: nat)
    requires n <= |lines| && (n < |lines| ==> EndsBlock(lines[n])) && forall j :: 0 <= j < n ==> !EndsBlock(lines[j])
    ensures BlockLen(lines) == n
  {
    hide EndsBlock;
    FirstOfIs(lines, EndsBlock, n);
  }

  lemma EntryOfIs(line: string, es: seq<Entry>, i: nat)
    requires i <= |es| && (i < |es| ==> Names(line, es[i])) && forall j :: 0 <= j < i ==> !Names(line, es[j])
    ensures EntryOf(line, es) == i
  {
    hide Names;
    FirstOfIs(es, (e: Entry) => Names(line, e), i);
  }

  /** The inner loop: which entry, if any, is this line for? */
  method Match(line: string, es: seq<Entry>) returns (i: nat)
    ensures i == EntryOf(line, es)
  {
    var trimmed := Trim(line);
    i := 0;
    while i < |es|
      invariant i <= |es| && forall j :: 0 <= j < i ==> !Names(line, es[j])
    {
      if es[i].key + ":" <= trimmed {
        break;
      }
      i := i + 1;
    }
    EntryOfIs(line, es, i);
  }

  /** The lines after those from..i have been rewritten. */
  ghost function RewrittenUpTo(lines: seq<string>, from: nat, i: nat, es: seq<Entry>): (r: seq<string>)
    requires from <= i <= |lines|
    ensures |r| == |lines|
  {
    lines[..from] + Rewrite(lines[from..i], es) + lines[i..]
  }

  lemma OneMore(lines: seq<string>, from: nat, i: nat, es: seq<Entry>)
    requires from <= i < |lines|
    ensures RewrittenUpTo(lines, from, i, es)[i] == lines[i]
    ensures RewrittenUpTo(lines, from, i + 1, es) == RewrittenUpTo(lines, from, i, es)[i := Rewritten(lines[i], es)]
    ensures Met(lines[from..i + 1], es) == Met(lines[from..i], es) + {EntryOf(lines[i], es)}
  {
    hide Rewritten, EntryOf;
    assert lines[from..i + 1] == lines[from..i] + [lines[i]];
    assert lines[from..i + 1][..i - from] == lines[from..i];
    assert Rewrite(lines[from..i + 1], es) == Rewrite(lines[from..i], es) + [Rewritten(lines[i], es)];
  }

  /** Rewrites lines[from..to] in place and says which entries were met. */
  method RewriteLines(lines: array<string>, from: nat, to: nat, es: seq<Entry>) returns (seen: set<nat>)
    requires from <= to <= lines.Length
    modifies lines
    ensures lines[..] == RewrittenUpTo(old(lines[..]), from, to, es)
    ensures seen + {|es|} == Met(old(lines[..])[from..to], es) + {|es|}
  {
    hide EntryOf, Rendered, Met, RewrittenUpTo;
    seen := {};
    ghost var before := lines[..];
    NoneYet(before, from, es);
    for i := from to to
      invariant lines[..] == RewrittenUpTo(before, from, i, es)
      invariant seen + {|es|} == Met(before[from..i], es) + {|es|}
    {
      OneMore(before, from, i, es);
      assert lines[i] == lines[..][i];
      var j := Match(lines[i], es);
      if j < |es| {
        lines[i] := Rendered(es[j]);
        seen := seen + {j};
      }
    }
  }

  lemma NoneYet(lines: seq<string>, from: nat, es: seq<Entry>)
    requires from <= |lines|
    ensures RewrittenUpTo(lines, from, from, es) == lines && Met(lines[from..from], es) == {}
  {
  }

  method RenderSection(es: seq<Entry>) returns (section: seq<string>)
    ensures section == HEADING + RenderAll(es)
  {
    section := HEADING;
    for i := 0 to |es|
      invariant section == HEADING + RenderAll(es[..i])
    {
      assert RenderAll(es[..i + 1]) == RenderAll(es[..i]) + [Rendered(es[i])];
      section := section + [Rendered(es[i])];
    }
    assert es[..|es|] == es;
  }

  method UpsertSecurityConfigBlock(lines: array<string>, es: seq<Entry>) returns (updated: seq<string>)
    modifies lines
    ensures updated == Upserted(old(lines[..]), es)
  {
    hide FirstStart, BlockLen, RenderAll, WithBlock;
    var before := lines[..];
    var start, end := FindBlock(before);
    if start == -1 {
      var section := RenderSection(es);
      return before + section;
    }
    updated := EditBlock(lines, start + 1, end, es);
  }

  /** Rewrites the block lines[from..to] and puts what is missing behind it. */
  method EditBlock(lines: array<string>, from: nat, to: nat, es: seq<Entry>) returns (updated: seq<string>)
    requires from <= to <= lines.Length
    modifies lines
    ensures updated == WithBlock(old(lines[..]), from, to, es)
  {
    hide Rewrite, Missing, Met;
    ghost var before := lines[..];
    var seen := RewriteLines(lines, from, to, es);
    var missing := ListMissing(before[from..to], es, seen);
    ghost var r := Rewrite(before[from..to], es);
    assert lines[..to] == before[..from] + r && lines[to..] == before[to..] by {
      SplitRewritten(before, from, to, es, lines[..]);
      assert lines[..to] == lines[..][..to] && lines[to..] == lines[..][to..];
    }
    Regroup(before[..from], r, missing, before[to..]);
    updated := lines[..to] + missing + lines[to..];
    if |missing| == 0 {
      assert updated == lines[..];
      return lines[..];
    }
  }

  lemma SplitRewritten(lines: seq<string>, from: nat, to: nat, es: seq<Entry>, after: seq<string>)
    requires from <= to <= |lines| && after == RewrittenUpTo(lines, from, to, es)
    ensures after[..to] == lines[..from] + Rewrite(lines[from..to], es) && after[to..] == lines[to..]
  {
    hide Rewritten;
  }

  method ListMissing(ghost block: seq<string>, es: seq<Entry>, seen: set<nat>) returns (missing: seq<string>)
    requires seen + {|es|} == Met(block, es) + {|es|}
    ensures missing == Missing(block, es, |es|)
  {
    hide Met;
    assert forall j: nat :: j < |es| ==>
      (j in seen <==> j in seen + {|es|}) && (j in Met(block, es) <==> j in Met(block, es) + {|es|});
    missing := [];
    for j := 0 to |es|
      invariant missing == Missing(block, es, j)
    {
      if j !in seen {
        missing := missing + [Rendered(es[j])];
      }
    }
  }

  // ---------- every managed key is rewritten where it stands ----------

  /** Keys that can be told apart in a line: ASCII without colons and white space, and
      no key twice. */
  ghost predicate ProperKeys(es: seq<Entry>) {
    && (forall i :: 0 <= i < |es| ==> ProperKey(es[i].key))
    && (forall i, j :: 0 <= i < j < |es| ==> es[i].key != es[j].key)
  }

  ghost predicate ProperKey(k: string) {
    k != "" && forall i :: 0 <= i < |k| ==> k[i] != ':' && IsSolid(k[i])
  }

  ghost predicate SameKeys(es: seq<Entry>, fs: seq<Entry>) {
    |es| == |fs| && forall i :: 0 <= i < |es| ==> es[i].key == fs[i].key
  }

  lemma ColonAt(k: string, l: string, t: string)
    requires ProperKey(k) && ProperKey(l) && k + ":" <= t && l + ":" <= t
    ensures k == l
  {
    hide IsSolid;
    assert t[|k|] == (k + ":")[|k|] == ':' && t[|l|] == (l + ":")[|l|] == ':';
    assert forall i :: 0 <= i < |k| ==> t[i] == (k + ":")[i] == k[i];
    assert forall i :: 0 <= i < |l| ==> t[i] == (l + ":")[i] == l[i];
    assert |k| == |l|;
  }

  /** A rendered line is for its own entry, and neither starts nor ends a block. */
  lemma RenderedIsRead(es: seq<Entry>, i: nat)
    requires ProperKeys(es) && i < |es|
    ensures EntryOf(Rendered(es[i]), es) == i
    ensures !IsTopLevel(Rendered(es[i]))
  {
    hide IsSolid, TrimRight, SpaceAhead;
    var k, line := es[i].key, Rendered(es[i]);
    TrimLeftRendered(es[i]);
    var s := k + ": " + es[i].text;
    assert s[|k|] == ':' && s[..|k| + 1] == k + ":";
    ColonIsSolid();
    TrimRightKeeps(s, |k|);
    assert Names(line, es[i]);
    forall j | 0 <= j < i
      ensures !Names(line, es[j])
    {
      if Names(line, es[j]) { ColonAt(es[j].key, k, Trim(line)); }
    }
    EntryOfIs(line, es, i);
  }

  lemma ColonIsSolid()
    ensures IsSolid(':')
  {
  }

  lemma TrimLeftRendered(e: Entry)
    requires ProperKey(e.key)
    ensures TrimLeft(Rendered(e)) == e.key + ": " + e.text
  {
    var s := e.key + ": " + e.text;
    assert s[0] == e.key[0];
    SolidAhead(s);
    TrimSpaces(s);
    assert Rendered(e) == "  " + s;
  }

  lemma TrimSpaces(s: string)
    ensures TrimLeft("  " + s) == TrimLeft(s)
  {
    var t := "  " + s;
    assert t[1..] == " " + s && t[1..][1..] == s;
    assert TrimLeft(t) == TrimLeft(t[1..]);
  }

  /** A line is for entry i exactly when its text starts with that key and a colon. */
  lemma EntryOfExactly(line: string, es: seq<Entry>, i: nat)
    requires ProperKeys(es) && i < |es|
    ensures EntryOf(line, es) == i <==> Names(line, es[i])
  {
    hide IsSolid, Trim;
    var j := EntryOf(line, es);
    if Names(line, es[i]) && j < i {
      ColonAt(es[j].key, es[i].key, Trim(line));
    }
  }

  lemma SameEntryOf(line: string, es: seq<Entry>, fs: seq<Entry>)
    requires SameKeys(es, fs)
    ensures EntryOf(line, es) == EntryOf(line, fs)
  {
    hide Trim;
    EntryOfIs(line, fs, EntryOf(line, es));
  }

  lemma RewrittenTwice(line: string, es: seq<Entry>, fs: seq<Entry>)
    requires ProperKeys(es) && ProperKeys(fs) && SameKeys(es, fs)
    ensures Rewritten(Rewritten(line, es), fs) == Rewritten(line, fs)
    ensures EntryOf(Rewritten(line, es), fs) == EntryOf(line, fs)
    ensures !EndsBlock(line) ==> !EndsBlock(Rewritten(line, es))
  {
    hide EntryOf, Rendered;
    SameEntryOf(line, es, fs);
    var i := EntryOf(line, es);
    if i < |es| {
      RenderedIsRead(es, i);
      SameEntryOf(Rendered(es[i]), es, fs);
    }
  }

  // ---------- writing twice is writing once ----------

  lemma {:induction false} MissingShape(block: seq<string>, es: seq<Entry>, n: nat)
    requires n <= |es|
    ensures forall line :: line in Missing(block, es, n) <==>
      exists j :: 0 <= j < n && j !in Met(block, es) && line == Rendered(es[j])
  {
    hide Rendered, Met;
    if n > 0 {
      MissingShape(block, es, n - 1);
    }
  }

  lemma {:induction false} MetHas(block: seq<string>, es: seq<Entry>, i: nat)
    requires i < |block|
    ensures EntryOf(block[i], es) in Met(block, es)
  {
    hide EntryOf;
    if i < |block| - 1 { MetHas(block[..|block| - 1], es, i); }
  }

  lemma {:induction false} MetFrom(block: seq<string>, es: seq<Entry>, j: nat) returns (i: nat)
    requires j in Met(block, es)
    ensures i < |block| && EntryOf(block[i], es) == j
  {
    hide EntryOf;
    var n := |block| - 1;
    if EntryOf(block[n], es) == j { i := n; } else { i := MetFrom(block[..n], es, j); }
  }

  lemma {:induction false} MetExactly(block: seq<string>, es: seq<Entry>, j: nat)
    ensures j in Met(block, es) <==> exists i :: 0 <= i < |block| && EntryOf(block[i], es) == j
  {
    hide EntryOf, Met;
    if j in Met(block, es) { var i := MetFrom(block, es, j); }
    if i :| 0 <= i < |block| && EntryOf(block[i], es) == j { MetHas(block, es, i); }
  }

  lemma {:induction false} MissingSame(block: seq<string>, es: seq<Entry>, fs: seq<Entry>, n: nat)
    requires ProperKeys(es) && ProperKeys(fs) && SameKeys(es, fs) && n <= |es|
    ensures Rewrite(Missing(block, es, n), fs) == Missing(block, fs, n)
  {
    hide EntryOf, Rendered, Rewritten, Rewrite, Met, ProperKeys, SameKeys;
    SameLength(es, fs);
    if n == 0 {
      RewriteNothing(fs);
    } else {
      MissingSame(block, es, fs, n - 1);
      MetSame(block, es, fs);
      RenderedRewritten(es, fs, n - 1);
      RewriteOneMore(Missing(block, es, n - 1), Rendered(es[n - 1]), fs);
      assert n - 1 in Met(block, es) ==> Missing(block, es, n - 1) + [] == Missing(block, es, n - 1);
    }
  }

  lemma RewriteNothing(es: seq<Entry>)
    ensures Rewrite([], es) == []
  {
  }

  lemma RewriteOneMore(block: seq<string>, line: string, es: seq<Entry>)
    ensures Rewrite(block + [line], es) == Rewrite(block, es) + [Rewritten(line, es)]
  {
    hide Rewritten;
  }

  lemma SameLength(es: seq<Entry>, fs: seq<Entry>)
    ensures SameKeys(es, fs) ==> |es| == |fs|
  {
  }

  lemma RenderedRewritten(es: seq<Entry>, fs: seq<Entry>, i: nat)
    requires ProperKeys(es) && ProperKeys(fs) && SameKeys(es, fs) && i < |es|
    ensures Rewritten(Rendered(es[i]), fs) == Rendered(fs[i]) && EntryOf(Rendered(es[i]), fs) == i
  {
    hide EntryOf, Rendered, ProperKeys;
    RenderedIsRead(es, i);
    SameEntryOf(Rendered(es[i]), es, fs);
  }

  lemma {:induction false} MetSame(block: seq<string>, es: seq<Entry>, fs: seq<Entry>)
    requires SameKeys(es, fs)
    ensures Met(block, es) == Met(block, fs)
  {
    hide EntryOf, SameKeys;
    if block != [] {
      MetSame(block[..|block| - 1], es, fs);
      SameEntryOf(block[|block| - 1], es, fs);
    }
  }

  lemma RewriteTwice(block: seq<string>, es: seq<Entry>, fs: seq<Entry>)
    requires ProperKeys(es) && ProperKeys(fs) && SameKeys(es, fs)
    ensures Rewrite(Rewrite(block, es), fs) == Rewrite(block, fs)
  {
    hide Rewritten;
    forall i | 0 <= i < |block| ensures Rewritten(Rewritten(block[i], es), fs) == Rewritten(block[i], fs) {
      RewrittenTwice(block[i], es, fs);
    }
  }

  lemma {:induction false} NothingMissing(block: seq<string>, es: seq<Entry>, n: nat)
    requires n <= |es| && forall j :: 0 <= j < n ==> j in Met(block, es)
    ensures Missing(block, es, n) == []
  {
    if n > 0 { NothingMissing(block, es, n - 1); }
  }

  /** After a write every entry has a line in the block. */
  lemma AllMet(block: seq<string>, es: seq<Entry>, fs: seq<Entry>, j: nat)
    requires ProperKeys(es) && ProperKeys(fs) && SameKeys(es, fs) && j < |es|
    ensures j in Met(NewBlock(block, es), fs)
  {
    hide EntryOf, Rendered, ProperKeys, SameKeys, Met, Missing;
    var r, m := Rewrite(block, es), Missing(block, es, |es|);
    MetSame(block, es, fs);
    MetExactly(block, es, j);
    MetExactly(r + m, fs, j);
    MissingShape(block, es, |es|);
    if j in Met(block, es) {
      var i :| 0 <= i < |block| && EntryOf(block[i], es) == j;
      RewrittenTwice(block[i], es, fs);
      SameEntryOf(block[i], es, fs);
      assert (r + m)[i] == Rewritten(block[i], es);
    } else {
      assert Rendered(es[j]) in m;
      var i :| 0 <= i < |m| && m[i] == Rendered(es[j]);
      RenderedRewritten(es, fs, j);
      assert (r + m)[|r| + i] == m[i];
    }
  }

  lemma NewBlockTwice(block: seq<string>, es: seq<Entry>, fs: seq<Entry>)
    requires ProperKeys(es) && ProperKeys(fs) && SameKeys(es, fs)
    ensures NewBlock(NewBlock(block, es), fs) == NewBlock(block, fs)
  {
    hide Met, Missing, Rewritten, ProperKeys;
    var r, m := Rewrite(block, es), Missing(block, es, |es|);
    RewriteTwice(block, es, fs);
    MissingSame(block, es, fs, |es|);
    assert Rewrite(r + m, fs) == Rewrite(r, fs) + Rewrite(m, fs);
    forall j | 0 <= j < |fs| ensures j in Met(r + m, fs) { AllMet(block, es, fs, j); }
    NothingMissing(r + m, fs, |fs|);
  }

  /** No line of a written block ends it. */
  lemma NewBlockHolds(block: seq<string>, es: seq<Entry>)
    requires ProperKeys(es) && forall i :: 0 <= i < |block| ==> !EndsBlock(block[i])
    ensures forall line :: line in NewBlock(block, es) ==> !EndsBlock(line)
  {
    hide EntryOf, Rendered, ProperKeys, Met, Missing;
    MissingShape(block, es, |es|);
    SameAsItself(es);
    forall line | line in NewBlock(block, es)
      ensures !EndsBlock(line)
    {
      if line in Rewrite(block, es) {
        var i :| 0 <= i < |block| && Rewrite(block, es)[i] == line;
        RewrittenTwice(block[i], es, es);
      } else {
        var j :| 0 <= j < |es| && j !in Met(block, es) && line == Rendered(es[j]);
        RenderedIsRead(es, j);
      }
    }
  }

  lemma SameAsItself(es: seq<Entry>)
    ensures SameKeys(es, es)
  {
  }

  /** A file cut at its security block. */
  ghost predicate IsCut(pre: seq<string>, block: seq<string>, post: seq<string>) {
    && pre != [] && StartsBlock(pre[|pre| - 1]) && (forall i :: 0 <= i < |pre| - 1 ==> !StartsBlock(pre[i]))
    && (forall line :: line in block ==> !EndsBlock(line))
    && (post != [] ==> EndsBlock(post[0]))
  }

  lemma CutParts(pre: seq<string>, block: seq<string>, post: seq<string>)
    ensures var lines := pre + block + post;
            && lines[|pre|..] == block + post && lines[..|pre|] == pre
            && lines[|pre|..|pre| + |block|] == block && lines[|pre| + |block|..] == post
  {
  }

  lemma UpsertedCut(pre: seq<string>, block: seq<string>, post: seq<string>, es: seq<Entry>)
    requires IsCut(pre, block, post)
    ensures Upserted(pre + block + post, es) == pre + NewBlock(block, es) + post
  {
    hide StartsBlock, EndsBlock, NewBlock, FirstStart, BlockLen;
    var lines := pre + block + post;
    CutParts(pre, block, post);
    FirstStartIs(lines, |pre| - 1);
    assert forall j :: 0 <= j < |block| ==> (block + post)[j] in block;
    BlockLenIs(block + post, |block|);
  }

  lemma CutOf(lines: seq<string>) returns (pre: seq<string>, block: seq<string>, post: seq<string>)
    requires FirstStart(lines) < |lines|
    ensures lines == pre + block + post && IsCut(pre, block, post)
  {
    hide StartsBlock, EndsBlock, FirstStart, BlockLen;
    var s := FirstStart(lines);
    var n := BlockLen(lines[s + 1..]);
    pre, block, post := lines[..s + 1], lines[s + 1..][..n], lines[s + 1..][n..];
  }

  lemma HeadingStarts(lines: seq<string>)
    requires FirstStart(lines) == |lines|
    ensures IsCut(lines + HEADING, [], [])
  {
    hide FirstStart;
    HeadingTrims();
    var pre := lines + HEADING;
    hide StartsBlock;
    forall i | 0 <= i < |pre| - 1
      ensures !StartsBlock(pre[i])
    {
      if i >= |lines| { assert pre[i] == HEADING[i - |lines|]; }
    }
    assert pre[|pre| - 1] == HEADING[2];
  }

  lemma HeadingTrims()
    ensures !StartsBlock(HEADING[0]) && !StartsBlock(HEADING[1]) && StartsBlock(HEADING[2])
  {
    var comment, key := HEADING[1], HEADING[2];
    assert comment[0] == '#' && comment[|comment| - 1] == ')' && key[0] == 's' && key[|key| - 1] == ':';
    assert IsSolid('#') && IsSolid(')') && IsSolid('s') && IsSolid(':');
    hide IsSolid, TrimRight;
    TrimUnpadded(comment);
    TrimUnpadded(key);
    hide Trim;
    assert Trim("") == "" by { NothingToTrim(); }
    assert "security:"[0] == 's';
  }

  lemma NothingToTrim()
    ensures Trim("") == ""
  {
  }

  /** A block just rendered is rewritten to the block of the new entries. */
  lemma RenderedBlock(es: seq<Entry>, fs: seq<Entry>)
    requires ProperKeys(es) && ProperKeys(fs) && SameKeys(es, fs)
    ensures NewBlock(RenderAll(es), fs) == RenderAll(fs)
    ensures forall line :: line in RenderAll(es) ==> !EndsBlock(line)
  {
    hide EntryOf, Rendered, Rewritten, ProperKeys, Met, Missing;
    SameLength(es, fs);
    forall i | 0 <= i < |es|
      ensures Rewritten(Rendered(es[i]), fs) == Rendered(fs[i]) && EntryOf(Rendered(es[i]), fs) == i
      ensures !EndsBlock(Rendered(es[i]))
    {
      RenderedRewritten(es, fs, i);
      RenderedIsRead(es, i);
    }
    forall j | 0 <= j < |fs|
      ensures j in Met(RenderAll(es), fs)
    {
      MetExactly(RenderAll(es), fs, j);
      assert EntryOf(RenderAll(es)[j], fs) == j;
    }
    NothingMissing(RenderAll(es), fs, |fs|);
  }

  /** The last write wins: for one set of keys, writing p1 and then p2 is writing p2;
      in particular a second write of the same paths changes nothing. */
  lemma {:induction false} LastWriteWins(lines: seq<string>, es: seq<Entry>, fs: seq<Entry>)
    requires ProperKeys(es) && ProperKeys(fs) && SameKeys(es, fs)
    ensures Upserted(Upserted(lines, es), fs) == Upserted(lines, fs)
  {
    hide ProperKeys, SameKeys, FirstStart, Upserted, NewBlock, RenderAll;
    if FirstStart(lines) < |lines| {
      var pre, block, post := CutOf(lines);
      UpsertedCut(pre, block, post, es);
      UpsertedCut(pre, block, post, fs);
      NewBlockHolds(block, es);
      UpsertedCut(pre, NewBlock(block, es), post, fs);
      NewBlockTwice(block, es, fs);
    } else {
      HeadingStarts(lines);
      RenderedBlock(es, fs);
      NoBlock(lines, es);
      NoBlock(lines, fs);
      UpsertedCut(lines + HEADING, RenderAll(es), [], fs);
    }
  }

  lemma NoBlock(lines: seq<string>, es: seq<Entry>)
    requires FirstStart(lines) == |lines|
    ensures Upserted(lines, es) == lines + HEADING + RenderAll(es) + []
  {
    hide RenderAll, StartsBlock, WithBlock;
    Appended(lines, HEADING, RenderAll(es));
  }

  lemma Appended(a: seq<string>, b: seq<string>, c: seq<string>)
    ensures a + (b + c) == a + b + c + []
  {
  }

  /** Everything outside the block keeps its place, and in the block every line that
      is for no managed key; a block is added only where there was none. */
  lemma {:induction false} OutsideIsKept(lines: seq<string>, es: seq<Entry>)
    ensures if FirstStart(lines) == |lines| then lines <= Upserted(lines, es)
            else exists pre, block, post :: IsCut(pre, block, post) && lines == pre + block + post
                   && Upserted(lines, es) == pre + NewBlock(block, es) + post
                   && forall i :: 0 <= i < |block| && EntryOf(block[i], es) == |es| ==> NewBlock(block, es)[i] == block[i]
  {
    if FirstStart(lines) < |lines| {
      hide FirstStart, Upserted, EntryOf, Missing, IsCut;
      var pre, block, post := CutOf(lines);
      UpsertedCut(pre, block, post, es);
    }
  }

  /** In the written block each entry has a line, and every line for it says it. */
  lemma {:induction false} BlockSaysEntries(block: seq<string>, es: seq<Entry>, j: nat)
    requires ProperKeys(es) && j < |es|
    ensures exists i :: 0 <= i < |NewBlock(block, es)| && Names(NewBlock(block, es)[i], es[j])
    ensures forall i :: 0 <= i < |NewBlock(block, es)| && Names(NewBlock(block, es)[i], es[j]) ==>
              NewBlock(block, es)[i] == Rendered(es[j])
  {
    hide EntryOf, Rendered, Names, Met, Missing, ProperKeys;
    var b := NewBlock(block, es);
    SameAsItself(es);
    AllMet(block, es, es, j);
    MetExactly(b, es, j);
    MissingShape(block, es, |es|);
    forall i | 0 <= i < |b|
      ensures Names(b[i], es[j]) <==> EntryOf(b[i], es) == j
      ensures EntryOf(b[i], es) == j ==> b[i] == Rendered(es[j])
    {
      EntryOfExactly(b[i], es, j);
      if i < |block| {
        RewrittenTwice(block[i], es, es);
      } else {
        assert b[i] in Missing(block, es, |es|);
        var k :| 0 <= k < |es| && k !in Met(block, es) && b[i] == Rendered(es[k]);
        RenderedIsRead(es, k);
      }
    }
  }

  lemma LettersAreProper(k: string)
    requires k != "" && forall i :: 0 <= i < |k| ==> 'A' <= k[i] <= 'Z' || 'a' <= k[i] <= 'z'
    ensures ProperKey(k)
  {
  }

  lemma ManagedKeysAreProper()
    ensures ProperKey("clientCertPath") && ProperKey("clientKeyPath") && ProperKey("serverCACertPath")
    ensures ProperKey("agentSecretPath") && ProperKey("useTLS")
  {
    hide ProperKey;
    LettersAreProper("clientCertPath");
    LettersAreProper("clientKeyPath");
    LettersAreProper("serverCACertPath");
    LettersAreProper("agentSecretPath");
    LettersAreProper("useTLS");
  }

  lemma ManagedKeysDiffer()
    ensures "clientCertPath" != "clientKeyPath" && "clientCertPath" != "serverCACertPath"
    ensures "clientKeyPath" != "serverCACertPath"
    ensures "agentSecretPath" !in {"clientCertPath", "clientKeyPath", "serverCACertPath", "useTLS"}
    ensures "useTLS" !in {"clientCertPath", "clientKeyPath", "serverCACertPath"}
  {
    assert |"clientCertPath"| == 14 && |"clientKeyPath"| == 13 && |"serverCACertPath"| == 16;
    assert |"agentSecretPath"| == 15 && |"useTLS"| == 6;
  }

  /** The entries the sensor writes meet what the above asks of keys, and two
      writes share their keys exactly when both or neither have a secret path. */
  lemma {:induction false} EntriesAreProper(quote: string -> string, a: string, b: string, c: string, secret: string,
                         a': string, b': string, c': string, secret': string)
    ensures ProperKeys(Entries(quote, a, b, c, secret))
    ensures SameKeys(Entries(quote, a, b, c, secret), Entries(quote, a', b', c', secret')) <==>
              (secret == "" <==> secret' == "")
  {
    hide ProperKey;
    ManagedKeysAreProper();
    ManagedKeysDiffer();
    var es, fs := Entries(quote, a, b, c, secret), Entries(quote, a', b', c', secret');
    assert |es| == (if secret == "" then 4 else 5) && |fs| == (if secret' == "" then 4 else 5);
  }

  /** A line of a block for a key says what stands in its entry. */
  ghost predicate LineSays(line: string, key: string, text: string) {
    key + ":" <= Trim(line) ==> line == "  " + key + ": " + text
  }

  /** In the block the sensor has written each path stands behind its key, and TLS is on. */
  lemma {:induction false} SensorSays(block: seq<string>, quote: string -> string, cert: string, key: string,
                                      ca: string, secret: string, line: string)
    requires line in NewBlock(block, Entries(quote, cert, key, ca, secret))
    ensures LineSays(line, "clientCertPath", quote(cert)) && LineSays(line, "clientKeyPath", quote(key))
    ensures LineSays(line, "serverCACertPath", quote(ca)) && LineSays(line, "useTLS", "true")
    ensures secret != "" ==> LineSays(line, "agentSecretPath", quote(secret))
  {
    hide NewBlock, ProperKeys, Entries, LineSays;
    var es := Entries(quote, cert, key, ca, secret);
    EntriesAreProper(quote, cert, key, ca, secret, cert, key, ca, secret);
    EntriesSay(quote, cert, key, ca, secret);
    forall j | 0 <= j < |es| ensures LineSays(line, es[j].key, es[j].text) { Said(block, es, j, line); }
  }

  lemma Said(block: seq<string>, es: seq<Entry>, j: nat, line: string)
    requires ProperKeys(es) && j < |es| && line in NewBlock(block, es)
    ensures LineSays(line, es[j].key, es[j].text)
  {
    hide NewBlock, Trim, ProperKeys;
    BlockSaysEntries(block, es, j);
    assert es[j].key + ":" <= Trim(line) ==> Names(line, es[j]);
  }

  lemma EntriesSay(quote: string -> string, cert: string, key: string, ca: string, secret: string)
    ensures var es, n := Entries(quote, cert, key, ca, secret), if secret != "" then 4 else 3;
            && |es| == n + 1
            && es[0] == Entry("clientCertPath", quote(cert)) && es[1] == Entry("clientKeyPath", quote(key))
            && es[2] == Entry("serverCACertPath", quote(ca))
            && (secret != "" ==> es[3] == Entry("agentSecretPath", quote(secret)))
            && es[n] == Entry("useTLS", "true")
  {
  }

  // ---------- where a block is ----------

  /** A block starts at a line that is not indented and says so; it ends before the next
      line that is neither indented nor blank. */
  lemma BlocksAre(line: string)
    ensures StartsBlock(line) <==> Trim(line) == "security:" && !(" " <= line) && !("\t" <= line)
    ensures EndsBlock(line) <==> !AllSpace(line) && !(" " <= line) && !("\t" <= line)
  {
    hide Trim, AllSpace;
    TrimsToNothing(line);
  }

  /** A file without a block gets one at its end, under a heading. */
  lemma NewBlockHasHeading(lines: seq<string>, es: seq<Entry>)
    requires forall i :: 0 <= i < |lines| ==> !StartsBlock(lines[i])
    ensures Upserted(lines, es) ==
              lines + ["", "#" + " mTLS Certificate Configuration (auto-generated after registration" + ")", "security:"]
              + RenderAll(es)
  {
    hide StartsBlock, RenderAll, WithBlock;
    FirstStartIs(lines, |lines|);
    Appended(lines, HEADING, RenderAll(es));
  }

  /** A line is for the first key that stands at its beginning with a colon; a line for
      none of the keys stays as it is. */
  lemma UnmanagedStay(line: string, es: seq<Entry>)
    ensures (forall j :: 0 <= j < |es| ==> !(es[j].key + ":" <= Trim(line))) ==> Rewritten(line, es) == line
    ensures forall j :: 0 <= j < |es| && es[j].key + ":" <= Trim(line)
                        && (forall i :: 0 <= i < j ==> !(es[i].key + ":" <= Trim(line))) ==>
              Rewritten(line, es) == "  " + es[j].key + ": " + es[j].text
  {
    hide Trim, EntryOf;
    if forall j :: 0 <= j < |es| ==> !(es[j].key + ":" <= Trim(line)) { EntryOfIs(line, es, |es|); }
    forall j | 0 <= j < |es| && es[j].key + ":" <= Trim(line)
               && forall i :: 0 <= i < j ==> !(es[i].key + ":" <= Trim(line))
      ensures Rewritten(line, es) == "  " + es[j].key + ": " + es[j].text
    {
      EntryOfIs(line, es, j);
    }
  }
}
