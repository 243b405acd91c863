/**
 Writing the security block twice, once with and once without a secret path: when the
 second write alone decides the file, and what is left over when it does not.
 */
module SecretPath {
  import opened SecurityBlock
  import opened WhiteSpace

  const SECRET := "agentSecretPath"
  const TLS := "useTLS"

  predicate IsFor(line: string, key: string) { key + ":" <= Trim(line) }

  ghost predicate HasLine(block: seq<string>, key: string) {
    exists i :: 0 <= i < |block| && IsFor(block[i], key)
  }

  /** The block a file has; one without is given an empty one at its end first. */
  function BlockOf(lines: seq<string>): seq<string> {
    var s := FirstStart(lines);
    if s == |lines| then [] else lines[s + 1..s + 1 + BlockLen(lines[s + 1..])]
  }

  function Headed(lines: seq<string>): seq<string> { lines + HEADING }

  function BeforeBlock(lines: seq<string>): seq<string> {
    var s := FirstStart(lines);
    if s == |lines| then Headed(lines) else lines[..s + 1]
  }

  function AfterBlock(lines: seq<string>): seq<string> {
    var s := FirstStart(lines);
    if s == |lines| then [] else lines[s + 1 + BlockLen(lines[s + 1..])..]
  }

  /** Entries with a secret path in fourth place, and entries without one. */
  ghost predicate WithSecret(es: seq<Entry>) {
    ProperKeys(es) && |es| == 5 && es[3].key == SECRET && es[4].key == TLS
  }

  ghost predicate WithoutSecret(fs: seq<Entry>, es: seq<Entry>) {
    && ProperKeys(fs) && |fs| == 4 && WithSecret(es)
    && (forall j :: 0 <= j < 3 ==> fs[j].key == es[j].key) && fs[3].key == TLS
  }

  lemma SensorEntries(quote: string -> string, a: string, b: string, c: string, secret: string,
                      a': string, b': string, c': string)
    requires secret != ""
    ensures WithoutSecret(Entries(quote, a', b', c', ""), Entries(quote, a, b, c, secret))
  {
    EntriesAreProper(quote, a, b, c, secret, a', b', c', "");
    EntriesAreProper(quote, a', b', c', "", a', b', c', "");
  }

  // ---------- single lines ----------

  lemma NamesRendered(e: Entry, key: string)
    requires ProperKey(e.key) && ProperKey(key)
    ensures IsFor(Rendered(e), key) <==> key == e.key
  {
    hide ProperKey;
    ReadsOwn(e);
    if IsFor(Rendered(e), key) { ColonAt(key, e.key, Trim(Rendered(e))); }
  }

  lemma ReadsOwn(e: Entry)
    requires ProperKey(e.key)
    ensures IsFor(Rendered(e), e.key)
  {
    hide ProperKey;
    assert ProperKeys([e]);
    RenderedIsRead([e], 0);
  }

  lemma OnlyOneKey(line: string, k: string, l: string)
    requires ProperKey(k) && ProperKey(l) && IsFor(line, k) && IsFor(line, l)
    ensures k == l
  {
    ColonAt(k, l, Trim(line));
  }

  lemma RewrittenFor(line: string, es: seq<Entry>, j: nat)
    requires ProperKeys(es) && j < |es| && IsFor(line, es[j].key)
    ensures Rewritten(line, es) == Rendered(es[j]) && EntryOf(line, es) == j
  {
    hide EntryOf, Trim;
    assert Names(line, es[j]);
    EntryOfExactly(line, es, j);
  }

  lemma RewrittenForNone(line: string, es: seq<Entry>)
    requires forall j :: 0 <= j < |es| ==> !IsFor(line, es[j].key)
    ensures Rewritten(line, es) == line && EntryOf(line, es) == |es|
  {
    hide Trim;
  }

  /** Secret first, then none: the secret's own lines are left as first written. */
  lemma DroppedLine(line: string, es: seq<Entry>, fs: seq<Entry>)
    requires WithoutSecret(fs, es)
    ensures Rewritten(Rewritten(line, es), fs) == if IsFor(line, SECRET) then Rendered(es[3]) else Rewritten(line, fs)
  {
    hide Rewritten, IsFor, Rendered, ProperKey;
    if j :| 0 <= j < 5 && IsFor(line, es[j].key) {
      RewrittenFor(line, es, j);
      if j == 3 {
        forall k | 0 <= k < 4 ensures !IsFor(Rendered(es[3]), fs[k].key) { NamesRendered(es[3], fs[k].key); }
        RewrittenForNone(Rendered(es[3]), fs);
      } else {
        var k := if j == 4 then 3 else j;
        if IsFor(line, SECRET) { OnlyOneKey(line, SECRET, es[j].key); }
        NamesRendered(es[j], fs[k].key);
        RewrittenFor(Rendered(es[j]), fs, k);
        RewrittenFor(line, fs, k);
      }
    } else {
      assert es[3].key == SECRET;
      RewrittenForNone(line, es);
      KeysWithin(line, es, fs);
      RewrittenForNone(line, fs);
    }
  }

  lemma KeysWithin(line: string, es: seq<Entry>, fs: seq<Entry>)
    requires WithoutSecret(fs, es) && forall j :: 0 <= j < 5 ==> !IsFor(line, es[j].key)
    ensures forall k :: 0 <= k < 4 ==> !IsFor(line, fs[k].key)
  {
    hide IsFor;
    assert fs[0].key == es[0].key && fs[1].key == es[1].key && fs[2].key == es[2].key && fs[3].key == es[4].key;
  }

  /** None first, then the secret: every line ends up as the second write has it. */
  lemma AddedLine(line: string, es: seq<Entry>, fs: seq<Entry>)
    requires WithoutSecret(fs, es)
    ensures Rewritten(Rewritten(line, fs), es) == Rewritten(line, es)
    ensures IsFor(Rewritten(line, fs), SECRET) <==> IsFor(line, SECRET)
  {
    hide Rewritten, IsFor, Rendered, ProperKey;
    if k :| 0 <= k < 4 && IsFor(line, fs[k].key) {
      var j := if k == 3 then 4 else k;
      RewrittenFor(line, fs, k);
      RewrittenFor(line, es, j);
      NamesRendered(fs[k], es[j].key);
      NamesRendered(fs[k], SECRET);
      RewrittenFor(Rendered(fs[k]), es, j);
      if IsFor(line, SECRET) { OnlyOneKey(line, SECRET, fs[k].key); }
    } else {
      RewrittenForNone(line, fs);
    }
  }

  // ---------- what is missing ----------

  lemma MetIsHas(block: seq<string>, es: seq<Entry>, j: nat)
    requires ProperKeys(es) && j < |es|
    ensures j in Met(block, es) <==> HasLine(block, es[j].key)
  {
    hide Met, EntryOf, Trim;
    MetExactly(block, es, j);
    forall i | 0 <= i < |block| ensures EntryOf(block[i], es) == j <==> IsFor(block[i], es[j].key) {
      EntryOfExactly(block[i], es, j);
    }
  }

  /** A line unless there is one. */
  function Unless(has: bool, line: string): seq<string> { if has then [] else [line] }

  ghost function MissingAt(block: seq<string>, es: seq<Entry>, j: nat): seq<string>
    requires j < |es|
  {
    Unless(HasLine(block, es[j].key), Rendered(es[j]))
  }

  ghost function FirstThree(block: seq<string>, es: seq<Entry>): seq<string>
    requires |es| >= 3
  {
    MissingAt(block, es, 0) + MissingAt(block, es, 1) + MissingAt(block, es, 2)
  }

  lemma MissingStep(block: seq<string>, es: seq<Entry>, n: nat)
    requires ProperKeys(es) && n < |es|
    ensures Missing(block, es, n + 1) == Missing(block, es, n) + MissingAt(block, es, n)
  {
    MetIsHas(block, es, n);
    hide Met, HasLine, Rendered, ProperKeys;
  }

  lemma MissingParts(block: seq<string>, es: seq<Entry>)
    requires ProperKeys(es) && |es| >= 3
    ensures Missing(block, es, 3) == FirstThree(block, es)
    ensures |es| == 4 ==> Missing(block, es, 4) == FirstThree(block, es) + MissingAt(block, es, 3)
    ensures |es| == 5 ==>
              Missing(block, es, 5) == FirstThree(block, es) + MissingAt(block, es, 3) + MissingAt(block, es, 4)
  {
    assert Missing(block, es, 0) == [];
    hide Missing, MissingAt, ProperKeys;
    MissingStep(block, es, 0);
    MissingStep(block, es, 1);
    MissingStep(block, es, 2);
    assert [] + MissingAt(block, es, 0) == MissingAt(block, es, 0);
    if |es| >= 4 { MissingStep(block, es, 3); }
    if |es| == 5 { MissingStep(block, es, 4); }
  }

  // ---------- writing a block twice ----------

  lemma RewriteJoin(a: seq<string>, b: seq<string>, es: seq<Entry>)
    ensures Rewrite(a + b, es) == Rewrite(a, es) + Rewrite(b, es)
  {
    hide Rewritten;
  }

  lemma RewriteUnless(has: bool, line: string, es: seq<Entry>)
    ensures Rewrite(Unless(has, line), es) == Unless(has, Rewritten(line, es))
  {
    hide Rewritten;
  }

  lemma WrittenHas(block: seq<string>, es: seq<Entry>, j: nat)
    requires ProperKeys(es) && j < |es|
    ensures HasLine(NewBlock(block, es), es[j].key)
  {
    hide NewBlock, ProperKeys, Trim;
    BlockSaysEntries(block, es, j);
    var i :| 0 <= i < |NewBlock(block, es)| && Names(NewBlock(block, es)[i], es[j]);
    assert IsFor(NewBlock(block, es)[i], es[j].key);
  }

  /** The lines appended for the keys both lists have, after the other list is written. */
  lemma RenderedOver(e: Entry, fs: seq<Entry>, k: nat)
    requires ProperKeys(fs) && k < |fs| && e.key == fs[k].key
    ensures Rewritten(Rendered(e), fs) == Rendered(fs[k])
  {
    hide Rewritten, Rendered, IsFor, ProperKey;
    NamesRendered(e, fs[k].key);
    RewrittenFor(Rendered(e), fs, k);
  }

  lemma FirstThreeOver(block: seq<string>, es: seq<Entry>, fs: seq<Entry>)
    requires ProperKeys(fs) && |es| >= 3 && |fs| >= 3 && forall j :: 0 <= j < 3 ==> fs[j].key == es[j].key
    ensures Rewrite(FirstThree(block, es), fs) == FirstThree(block, fs)
  {
    hide Rewritten, Rendered, Rewrite, HasLine, ProperKeys;
    var m0, m1, m2 := MissingAt(block, es, 0), MissingAt(block, es, 1), MissingAt(block, es, 2);
    RewriteJoin(m0 + m1, m2, fs);
    RewriteJoin(m0, m1, fs);
    forall j | 0 <= j < 3 ensures Rewrite(MissingAt(block, es, j), fs) == MissingAt(block, fs, j) {
      RewriteUnless(HasLine(block, es[j].key), Rendered(es[j]), fs);
      RenderedOver(es[j], fs, j);
    }
  }

  /** With the secret and then without: all as the second write has it, but for the
      secret's lines, which stay as the first wrote them. */
  lemma DroppedBlock(block: seq<string>, es: seq<Entry>, fs: seq<Entry>)
    requires WithoutSecret(fs, es)
    ensures NewBlock(NewBlock(block, es), fs) ==
              Rewrite(Rewrite(block, es), fs)
              + (FirstThree(block, fs) + MissingAt(block, es, 3) + MissingAt(block, fs, 3))
  {
    hide Rewritten, Rendered, Rewrite, HasLine, ProperKey, Met, Missing, FirstThree;
    var b := NewBlock(block, es);
    forall k | 0 <= k < 4 ensures k in Met(b, fs) {
      MetIsHas(b, fs, k);
      WrittenHas(block, es, if k == 3 then 4 else k);
    }
    NothingMissing(b, fs, 4);
    MissingParts(block, es);
    var m, s, t := FirstThree(block, es), MissingAt(block, es, 3), MissingAt(block, es, 4);
    RewriteJoin(Rewrite(block, es), m + s + t, fs);
    RewriteJoin(m + s, t, fs);
    RewriteJoin(m, s, fs);
    FirstThreeOver(block, es, fs);
    RewriteUnless(HasLine(block, SECRET), Rendered(es[3]), fs);
    RewriteUnless(HasLine(block, TLS), Rendered(es[4]), fs);
    RenderedOver(es[4], fs, 3);
    SecretStays(es, fs);
    assert NewBlock(b, fs) == Rewrite(b, fs) + [];
  }

  lemma SecretStays(es: seq<Entry>, fs: seq<Entry>)
    requires WithoutSecret(fs, es)
    ensures Rewritten(Rendered(es[3]), fs) == Rendered(es[3])
  {
    hide Rewritten, Rendered, IsFor, ProperKey;
    forall k | 0 <= k < 4 ensures !IsFor(Rendered(es[3]), fs[k].key) { NamesRendered(es[3], fs[k].key); }
    RewrittenForNone(Rendered(es[3]), fs);
  }

  /** Without the secret and then with it: all as the second write has it, but for the
      order of the last two where both were missing. */
  lemma AddedBlock(block: seq<string>, es: seq<Entry>, fs: seq<Entry>)
    requires WithoutSecret(fs, es)
    ensures NewBlock(NewBlock(block, fs), es) ==
              Rewrite(block, es) + (FirstThree(block, es) + MissingAt(block, es, 4) + MissingAt(block, es, 3))
  {
    hide Rewritten, Rendered, Rewrite, HasLine, ProperKey, Met, Missing, FirstThree;
    var b := NewBlock(block, fs);
    MissingParts(block, fs);
    MissingParts(b, es);
    AddedMissing(block, es, fs);
    var m, t := FirstThree(block, fs), MissingAt(block, fs, 3);
    RewriteJoin(Rewrite(block, fs), m + t, es);
    RewriteJoin(m, t, es);
    FirstThreeOver(block, fs, es);
    RewriteUnless(HasLine(block, TLS), Rendered(fs[3]), es);
    RenderedOver(fs[3], es, 4);
    AddedRewrite(block, es, fs);
    var r, n, s := Rewrite(block, es), FirstThree(block, es) + MissingAt(block, es, 4), MissingAt(block, es, 3);
    assert (r + n) + s == r + (n + s);
  }

  lemma AddedRewrite(block: seq<string>, es: seq<Entry>, fs: seq<Entry>)
    requires WithoutSecret(fs, es)
    ensures Rewrite(Rewrite(block, fs), es) == Rewrite(block, es)
  {
    hide Rewritten, IsFor, WithoutSecret;
    forall i | 0 <= i < |block| ensures Rewritten(Rewritten(block[i], fs), es) == Rewritten(block[i], es) {
      AddedLine(block[i], es, fs);
    }
  }

  /** After the write without it, only the secret can be missing, and it is if it was. */
  lemma AddedMissing(block: seq<string>, es: seq<Entry>, fs: seq<Entry>)
    requires WithoutSecret(fs, es)
    ensures FirstThree(NewBlock(block, fs), es) == [] && MissingAt(NewBlock(block, fs), es, 4) == []
    ensures MissingAt(NewBlock(block, fs), es, 3) == MissingAt(block, es, 3)
  {
    hide Rewritten, Rendered, NewBlock, HasLine, ProperKey;
    WrittenHas(block, fs, 0);
    WrittenHas(block, fs, 1);
    WrittenHas(block, fs, 2);
    WrittenHas(block, fs, 3);
    SecretAsBefore(block, es, fs);
  }

  lemma SecretAsBefore(block: seq<string>, es: seq<Entry>, fs: seq<Entry>)
    requires WithoutSecret(fs, es)
    ensures HasLine(NewBlock(block, fs), SECRET) <==> HasLine(block, SECRET)
  {
    hide Rewritten, Rendered, Missing, Met, IsFor, ProperKey;
    var b := NewBlock(block, fs);
    MissingShape(block, fs, 4);
    forall i | 0 <= i < |b|
      ensures IsFor(b[i], SECRET) <==> i < |block| && IsFor(block[i], SECRET)
    {
      if i < |block| {
        AddedLine(block[i], es, fs);
      } else {
        assert b[i] in Missing(block, fs, 4);
        var k :| 0 <= k < 4 && k !in Met(block, fs) && b[i] == Rendered(fs[k]);
        NamesRendered(fs[k], SECRET);
      }
    }
  }

  // ---------- when the second write decides ----------

  /** Every line of the block for the secret says what the entry says, and there is one. */
  ghost predicate SaysSecret(block: seq<string>, e: Entry) {
    && HasLine(block, SECRET)
    && forall i :: 0 <= i < |block| && IsFor(block[i], SECRET) ==> block[i] == Rendered(e)
  }

  lemma DroppedDecides(block: seq<string>, es: seq<Entry>, fs: seq<Entry>)
    requires WithoutSecret(fs, es)
    ensures NewBlock(NewBlock(block, es), fs) == NewBlock(block, fs) <==> SaysSecret(block, es[3])
  {
    DroppedBlock(block, es, fs);
    MissingParts(block, fs);
    hide Rewritten, Rendered, HasLine, Missing, FirstThree, IsFor;
    var r, s := Rewrite(Rewrite(block, es), fs), Rewrite(block, fs);
    var m, x, t := FirstThree(block, fs), MissingAt(block, es, 3), MissingAt(block, fs, 3);
    forall i | 0 <= i < |block|
      ensures r[i] == if IsFor(block[i], SECRET) then Rendered(es[3]) else s[i]
      ensures IsFor(block[i], SECRET) ==> s[i] == block[i]
    {
      DroppedLine(block[i], es, fs);
      if IsFor(block[i], SECRET) { SecretUntouched(block[i], es, fs); }
    }
    assert m + [] + t == m + t;
    SameEnds(r, m + x + t, s, m + t);
    assert r == s <==> forall i :: 0 <= i < |block| ==> r[i] == s[i];
  }

  lemma SecretUntouched(line: string, es: seq<Entry>, fs: seq<Entry>)
    requires WithoutSecret(fs, es) && IsFor(line, SECRET)
    ensures Rewritten(line, fs) == line
  {
    hide Rewritten, IsFor, ProperKey;
    forall k | 0 <= k < 4 ensures !IsFor(line, fs[k].key) {
      if IsFor(line, fs[k].key) { OnlyOneKey(line, SECRET, fs[k].key); }
    }
    RewrittenForNone(line, fs);
  }

  lemma SameEnds<T>(a: seq<T>, b: seq<T>, c: seq<T>, d: seq<T>)
    requires |a| == |c|
    ensures a + b == c + d <==> a == c && b == d
  {
    assert (a + b)[..|a|] == a && (c + d)[..|c|] == c && (a + b)[|a|..] == b && (c + d)[|c|..] == d;
  }

  lemma AddedDecides(block: seq<string>, es: seq<Entry>, fs: seq<Entry>)
    requires WithoutSecret(fs, es)
    ensures NewBlock(NewBlock(block, fs), es) == NewBlock(block, es) <==> HasLine(block, SECRET) || HasLine(block, TLS)
  {
    AddedBlock(block, es, fs);
    MissingParts(block, es);
    SecretIsNotTls(es);
    hide Rewritten, Rendered, Rewrite, HasLine, Missing, FirstThree, IsFor, NewBlock, WithoutSecret;
    var r, m := Rewrite(block, es), FirstThree(block, es);
    var s, t := MissingAt(block, es, 3), MissingAt(block, es, 4);
    assert NewBlock(block, es) == r + (m + s + t) by { NewBlockIs(block, es); }
    SwappedEnds(r, m, t, s);
    Swapped(HasLine(block, TLS), Rendered(es[4]), HasLine(block, SECRET), Rendered(es[3]));
  }

  lemma NewBlockIs(block: seq<string>, es: seq<Entry>)
    ensures NewBlock(block, es) == Rewrite(block, es) + Missing(block, es, |es|)
  {
  }

  lemma SwappedEnds<T>(r: seq<T>, m: seq<T>, s: seq<T>, t: seq<T>)
    ensures r + (m + s + t) == r + (m + t + s) <==> s + t == t + s
  {
    assert m + s + t == m + (s + t) && m + t + s == m + (t + s);
    SameEnds(r, m + s + t, r, m + t + s);
    SameEnds(m, s + t, m, t + s);
  }

  lemma Swapped(hasA: bool, a: string, hasB: bool, b: string)
    requires a != b
    ensures Unless(hasA, a) + Unless(hasB, b) == Unless(hasB, b) + Unless(hasA, a) <==> hasA || hasB
  {
    if !hasA && !hasB { assert ([a] + [b])[0] != ([b] + [a])[0]; }
  }

  lemma SecretIsNotTls(es: seq<Entry>)
    requires WithSecret(es)
    ensures Rendered(es[3]) != Rendered(es[4])
  {
    hide Rendered, IsFor, ProperKey;
    NamesRendered(es[3], es[3].key);
    NamesRendered(es[4], es[3].key);
  }

  // ---------- whole files ----------

  lemma BlockIsCut(lines: seq<string>)
    ensures IsCut(BeforeBlock(lines), BlockOf(lines), AfterBlock(lines))
  {
    hide IsCut, FirstStart, BlockLen, BeforeBlock, BlockOf, AfterBlock;
    var s := FirstStart(lines);
    if s == |lines| {
      NoParts(lines);
      HeadingStarts(lines);
    } else {
      PartsOf(lines, s, BlockLen(lines[s + 1..]));
      FoundIsCut(lines, s, BlockLen(lines[s + 1..]));
    }
  }

  lemma NoParts(lines: seq<string>)
    requires FirstStart(lines) == |lines|
    ensures BeforeBlock(lines) == lines + HEADING && BlockOf(lines) == [] && AfterBlock(lines) == []
  {
    hide FirstStart, StartsBlock;
  }

  lemma PartsOf(lines: seq<string>, s: nat, n: nat)
    requires s < |lines| && s == FirstStart(lines) && n == BlockLen(lines[s + 1..])
    ensures BeforeBlock(lines) == lines[..s + 1]
    ensures BlockOf(lines) == lines[s + 1..s + 1 + n]
    ensures AfterBlock(lines) == lines[s + 1 + n..]
  {
    hide FirstStart, BlockLen, Headed, StartsBlock, EndsBlock;
  }

  lemma FoundIsCut(lines: seq<string>, s: nat, n: nat)
    requires s < |lines| && s == FirstStart(lines) && n == BlockLen(lines[s + 1..])
    ensures IsCut(lines[..s + 1], lines[s + 1..s + 1 + n], lines[s + 1 + n..])
  {
    hide StartsBlock, EndsBlock, FirstStart, BlockLen;
    var rest, block := lines[s + 1..], lines[s + 1..s + 1 + n];
    assert forall j :: 0 <= j < n ==> block[j] == rest[j];
    assert n < |rest| ==> lines[s + 1 + n..][0] == rest[n];
  }

  lemma BlockIsWritten(lines: seq<string>, es: seq<Entry>)
    ensures Upserted(lines, es) == BeforeBlock(lines) + NewBlock(BlockOf(lines), es) + AfterBlock(lines)
  {
    hide FirstStart, BlockLen, NewBlock, RenderAll;
    if FirstStart(lines) == |lines| {
      NoBlock(lines, es);
      EmptyBlock(es);
    }
  }

  lemma EmptyBlock(es: seq<Entry>)
    ensures NewBlock([], es) == RenderAll(es)
  {
    EmptyMissing(es, |es|);
    assert RenderAll(es)[..|es|] == RenderAll(es);
  }

  lemma {:induction false} EmptyMissing(es: seq<Entry>, n: nat)
    requires n <= |es|
    ensures Missing([], es, n) == RenderAll(es)[..n]
  {
    if n > 0 { EmptyMissing(es, n - 1); }
  }

  lemma TwoWrites(lines: seq<string>, es: seq<Entry>, fs: seq<Entry>)
    requires ProperKeys(es)
    ensures Upserted(Upserted(lines, es), fs) == Upserted(lines, fs) <==>
              NewBlock(NewBlock(BlockOf(lines), es), fs) == NewBlock(BlockOf(lines), fs)
  {
    hide NewBlock, Upserted, ProperKeys, BlockOf;
    var block := BlockOf(lines);
    var pre, post := BeforeBlock(lines), AfterBlock(lines);
    hide BeforeBlock, AfterBlock;
    BlockIsCut(lines);
    BlockIsWritten(lines, es);
    BlockIsWritten(lines, fs);
    WrittenCut(pre, block, post, es);
    UpsertedCut(pre, NewBlock(block, es), post, fs);
    SameMiddle(pre, NewBlock(NewBlock(block, es), fs), NewBlock(block, fs), post);
  }

  lemma WrittenCut(pre: seq<string>, block: seq<string>, post: seq<string>, es: seq<Entry>)
    requires IsCut(pre, block, post) && ProperKeys(es)
    ensures IsCut(pre, NewBlock(block, es), post)
  {
    hide NewBlock, ProperKeys, StartsBlock, EndsBlock;
    assert forall i :: 0 <= i < |block| ==> block[i] in block;
    NewBlockHolds(block, es);
  }

  lemma SameMiddle<T>(a: seq<T>, b: seq<T>, c: seq<T>, d: seq<T>)
    ensures a + b + d == a + c + d <==> b == c
  {
    if a + b + d == a + c + d {
      assert |b| == |c|;
      assert b == (a + b + d)[|a|..|a| + |b|] && c == (a + c + d)[|a|..|a| + |c|];
    }
  }

  /** The secret path has gone: the second write decides the file if and only if the
      block had a line for the secret and every such line said already what the first
      write says. */
  lemma DroppedExactlyWhen(lines: seq<string>, es: seq<Entry>, fs: seq<Entry>)
    requires WithoutSecret(fs, es)
    ensures Upserted(Upserted(lines, es), fs) == Upserted(lines, fs) <==> SaysSecret(BlockOf(lines), es[3])
  {
    hide Upserted, NewBlock, SaysSecret, ProperKeys;
    TwoWrites(lines, es, fs);
    DroppedDecides(BlockOf(lines), es, fs);
  }

  /** A secret path has come: the second write decides the file if and only if the block
      had a line for the secret or for TLS; else these two stand the other way round. */
  lemma AddedExactlyWhen(lines: seq<string>, es: seq<Entry>, fs: seq<Entry>)
    requires WithoutSecret(fs, es)
    ensures Upserted(Upserted(lines, fs), es) == Upserted(lines, es) <==>
              HasLine(BlockOf(lines), SECRET) || HasLine(BlockOf(lines), TLS)
  {
    hide Upserted, NewBlock, HasLine, ProperKeys;
    TwoWrites(lines, fs, es);
    AddedDecides(BlockOf(lines), es, fs);
  }

  /** In particular a file without a block keeps, after a write with a secret path and
      one without, the line of the secret that has gone, and nothing else more. */
  lemma SecretLeftBehind(lines: seq<string>, es: seq<Entry>, fs: seq<Entry>)
    requires WithoutSecret(fs, es) && FirstStart(lines) == |lines|
    ensures var both, last := Upserted(Upserted(lines, es), fs), Upserted(lines, fs);
            && both == last[..|last| - 1] + [Rendered(es[3])] + last[|last| - 1..]
            && |both| == |last| + 1 && both != last
  {
    hide Rewritten, Rendered, Upserted, IsCut, NewBlock, RenderAll, FirstStart;
    var pre := lines + HEADING;
    HeadingStarts(lines);
    NoBlock(lines, es);
    NoBlock(lines, fs);
    EmptyBlock(es);
    EmptyBlock(fs);
    WrittenCut(pre, [], [], es);
    UpsertedCut(pre, NewBlock([], es), [], fs);
    TwiceFromNothing(es, fs);
    var n := |RenderAll(fs)| - 1;
    assert pre + RenderAll(fs) + [] == pre + (RenderAll(fs)[..n] + RenderAll(fs)[n..]);
  }

  lemma TwiceFromNothing(es: seq<Entry>, fs: seq<Entry>)
    requires WithoutSecret(fs, es)
    ensures |RenderAll(fs)| == 4
    ensures NewBlock(NewBlock([], es), fs) == RenderAll(fs)[..3] + [Rendered(es[3])] + RenderAll(fs)[3..]
  {
    hide Rendered, Rewritten;
    DroppedBlock([], es, fs);
    assert Rewrite(Rewrite([], es), fs) == [];
  }
}
