/**
 Content revisions of effective values, and what a device's report says about
 how far it has got. SHA-256 is ideal: a revision is the byte stream it hashes.
 */
module Reconciliation {
  import opened Decimal
  import opened Delimiters
  import opened Ordering
  import opened Sequences
  import opened Settings
  import PortList

  const NUL := '\0'
  const RS := '\U{001E}'

  // ---------- Revision ----------

  function RuntimeName(rt: Runtime): string { if rt.Sensor? then "sensor" else "agent" }

  function Decimals(i: int): string { if i < 0 then "-" + Itoa(-i) else Itoa(i) }

  function Rendered(c: Content): string {
    match c
    case Unset => ""
    case Flag(b) => if b then "true" else "false"
    case Number(i) => Decimals(i)
    case Words(s) => s
  }

  function KindByte(c: Content): char {
    match c
    case Unset => 's'
    case Flag(_) => 'b'
    case Number(_) => 'i'
    case Words(_) => 's'
  }

  datatype Entry = Entry(key: Key, content: Content)

  function Encoded(e: Entry): string {
    e.key + [NUL] + [KindByte(e.content)] + [NUL] + Rendered(e.content) + [RS]
  }

  function Stream(es: seq<Entry>): string {
    if es == [] then "" else Stream(es[..|es| - 1]) + Encoded(es[|es| - 1])
  }

  /** The set values among some keys. */
  function LiveEntries(vals: Values, keys: seq<Key>): seq<Entry> {
    if keys == [] then []
    else
      var k := keys[|keys| - 1];
      LiveEntries(vals, keys[..|keys| - 1])
      + (if IsSet(vals, k) then [Entry(k, Lookup(vals, k).Content())] else [])
  }

  function Header(rt: Runtime): string { "v1\n" + RuntimeName(rt) + "\n" }

  ghost function Revision(rt: Runtime, vals: Values): string {
    Header(rt) + Stream(LiveEntries(vals, Sorted(vals.Keys)))
  }

  lemma OneKeyMore(vals: Values, keys: seq<Key>, n: nat)
    requires n < |keys|
    ensures var es := LiveEntries(vals, keys[..n]);
            var e := Entry(keys[n], Lookup(vals, keys[n]).Content());
            if IsSet(vals, keys[n])
            then Stream(LiveEntries(vals, keys[..n + 1])) == Stream(es) + Encoded(e)
            else LiveEntries(vals, keys[..n + 1]) == es
  {
    hide Encoded;
    assert keys[..n + 1][..n] == keys[..n];
    var es := LiveEntries(vals, keys[..n]);
    var e := Entry(keys[n], Lookup(vals, keys[n]).Content());
    assert (es + [e])[..|es|] == es;
  }

  method ComputeRevision(rt: Runtime, vals: Values) returns (h: string)
    ensures h == Revision(rt, vals)
  {
    hide Encoded, Sorted, Ascending, Before, Stream, Header, LiveEntries;
    h := Header(rt);
    var keys := SortedListing(vals.Keys);
    NothingYet(vals);
    assert keys[..0] == [] && h + "" == h;
    for n := 0 to |keys|
      invariant h == Header(rt) + Stream(LiveEntries(vals, keys[..n]))
    {
      OneKeyMore(vals, keys, n);
      var k := keys[n];
      var v := vals[k];
      if v.IsZero() {
        continue;
      }
      var kind := 's';
      if v.b.Some? {
        kind := 'b';
      } else if v.i.Some? {
        kind := 'i';
      }
      Regroup(Header(rt), Stream(LiveEntries(vals, keys[..n])), Encoded(Entry(k, v.Content())), "");
      EncodedIs(k, kind, v);
      h := h + (k + [NUL] + [kind] + [NUL] + Rendered(v.Content()) + [RS]);
    }
    assert keys[..|keys|] == keys;
  }

  lemma NothingYet(vals: Values)
    ensures Stream(LiveEntries(vals, [])) == ""
  {
  }

  lemma EncodedIs(k: Key, kind: char, v: Value)
    requires kind == if v.b.Some? then 'b' else if v.i.Some? then 'i' else 's'
    ensures Encoded(Entry(k, v.Content())) == k + [NUL] + [kind] + [NUL] + Rendered(v.Content()) + [RS]
  {
  }

  // ---------- a revision says exactly what the values are ----------

  /** Two sets of values say the same: a key that is absent is a key not set. */
  ghost predicate SameContents(a: Values, b: Values) {
    forall k {:trigger Lookup(a, k)} {:trigger Lookup(b, k)} :: Lookup(a, k).Content() == Lookup(b, k).Content()
  }

  /** The delimiters do not occur where they would be mistaken for delimiters. */
  ghost predicate CleanEntry(e: Entry) {
    NUL !in e.key && e.content != Unset && (e.content.Words? ==> RS !in e.content.words)
  }

  ghost predicate Clean(vals: Values) {
    forall k :: k in vals && IsSet(vals, k) ==> CleanEntry(Entry(k, vals[k].Content()))
  }

  lemma DecimalsAreExact(i: int, j: int)
    ensures Decimals(i) == Decimals(j) <==> i == j
    ensures RS !in Decimals(i)
  {
    hide Itoa;
    var m, n := if i < 0 then -i else i, if j < 0 then -j else j;
    AtoiItoa(m);
    AtoiItoa(n);
    assert i < 0 ==> Decimals(i)[1..] == Itoa(m);
    assert j < 0 ==> Decimals(j)[1..] == Itoa(n);
    assert IsDigit(Itoa(m)[0]) && IsDigit(Itoa(n)[0]);
    forall k | 0 <= k < |Itoa(m)| ensures Itoa(m)[k] != RS { assert IsDigit(Itoa(m)[k]); }
  }

  lemma RenderedIsExact(c: Content, d: Content)
    requires KindByte(c) == KindByte(d) && Rendered(c) == Rendered(d) && c != Unset && d != Unset
    ensures c == d
  {
    hide Decimals;
    if c.Number? { DecimalsAreExact(c.number, d.number); }
  }

  lemma EncodedSplits(e: Entry, f: Entry, x: string, y: string)
    requires CleanEntry(e) && CleanEntry(f) && Encoded(e) + x == Encoded(f) + y
    ensures e == f && x == y
  {
    hide Rendered, KindByte;
    EntryEnds(e);
    EntryEnds(f);
    var k, l := KindByte(e.content), KindByte(f.content);
    var s, t := Rendered(e.content), Rendered(f.content);
    var u, v := [k] + [NUL] + s + [RS] + x, [l] + [NUL] + t + [RS] + y;
    assert Encoded(e) + x == e.key + [NUL] + u;
    assert Encoded(f) + y == f.key + [NUL] + v;
    SplitAt(NUL, e.key, f.key, u, v);
    assert u[0] == k && v[0] == l && u[2..] == s + [RS] + x && v[2..] == t + [RS] + y;
    SplitAt(RS, s, t, x, y);
    RenderedIsExact(e.content, f.content);
  }

  lemma EntryEnds(e: Entry)
    requires CleanEntry(e)
    ensures RS !in Rendered(e.content)
  {
    hide Decimals;
    if e.content.Number? { DecimalsAreExact(e.content.number, 0); }
  }

  lemma {:induction false} StreamFirst(es: seq<Entry>)
    requires es != []
    ensures Stream(es) == Encoded(es[0]) + Stream(es[1..])
  {
    hide Encoded;
    if |es| > 1 {
      StreamFirst(es[..|es| - 1]);
      assert es[..|es| - 1][1..] == es[1..][..|es| - 2];
      Regroup(Encoded(es[0]), Stream(es[1..][..|es| - 2]), Encoded(es[|es| - 1]), "");
    }
  }

  lemma {:induction false} StreamIsExact(es: seq<Entry>, fs: seq<Entry>)
    requires Stream(es) == Stream(fs)
    requires (forall e :: e in es ==> CleanEntry(e)) && (forall f :: f in fs ==> CleanEntry(f))
    ensures es == fs
  {
    hide Encoded, Stream, CleanEntry;
    StreamIsEmpty(es);
    StreamIsEmpty(fs);
    if es != [] {
      StreamFirst(es);
      StreamFirst(fs);
      EncodedSplits(es[0], fs[0], Stream(es[1..]), Stream(fs[1..]));
      StreamIsExact(es[1..], fs[1..]);
      assert es == [es[0]] + es[1..] && fs == [fs[0]] + fs[1..];
    }
  }

  lemma StreamIsEmpty(es: seq<Entry>)
    ensures Stream(es) == "" <==> es == []
  {
  }

  lemma {:induction false} LiveEntriesAre(vals: Values, keys: seq<Key>)
    ensures forall e :: e in LiveEntries(vals, keys) <==>
      e.key in keys && IsSet(vals, e.key) && e.content == Lookup(vals, e.key).Content()
  {
    if keys != [] {
      var n := |keys| - 1;
      LiveEntriesAre(vals, keys[..n]);
      assert keys == keys[..n] + [keys[n]];
    }
  }

  ghost function KeysOf(es: seq<Entry>): (keys: seq<Key>)
    ensures |keys| == |es| && forall i :: 0 <= i < |es| ==> keys[i] == es[i].key
  {
    seq(|es|, i requires 0 <= i < |es| => es[i].key)
  }

  lemma {:induction false} LiveKeysAscend(vals: Values, keys: seq<Key>)
    requires Ascending(keys)
    ensures Ascending(KeysOf(LiveEntries(vals, keys)))
  {
    hide Before;
    if keys != [] {
      var n := |keys| - 1;
      LiveKeysAscend(vals, keys[..n]);
      LiveEntriesAre(vals, keys[..n]);
      var es := LiveEntries(vals, keys[..n]);
      assert forall i :: 0 <= i < |es| ==> es[i] in es && es[i].key in keys[..n];
    }
  }

  /** The live entries of sorted keys depend only on what the values say. */
  lemma SameContentsSameEntries(a: Values, b: Values)
    requires SameContents(a, b)
    ensures LiveEntries(a, Sorted(a.Keys)) == LiveEntries(b, Sorted(b.Keys))
  {
    var es, fs := Listing(a), Listing(b);
    hide LiveEntries, Sorted, Ascending;
    assert forall e :: e in es <==> e in fs by {
      forall e ensures e in es <==> e in fs {
        assert Lookup(a, e.key).Content() == Lookup(b, e.key).Content();
        EqualMeansSameContent(Lookup(a, e.key), NOTHING);
        EqualMeansSameContent(Lookup(b, e.key), NOTHING);
      }
    }
    SameKeyElements(es, fs);
    AscendingIsUnique(KeysOf(es), KeysOf(fs));
    forall i | 0 <= i < |es|
      ensures es[i] == fs[i]
    {
      assert KeysOf(es)[i] == KeysOf(fs)[i];
      assert es[i] in es && fs[i] in fs;
    }
  }

  lemma SameKeyElements(es: seq<Entry>, fs: seq<Entry>)
    requires forall e :: e in es <==> e in fs
    ensures Elements(KeysOf(es)) == Elements(KeysOf(fs))
  {
    forall k
      ensures k in Elements(KeysOf(es)) <==> k in Elements(KeysOf(fs))
    {
      if k in KeysOf(es) {
        var i :| 0 <= i < |es| && KeysOf(es)[i] == k;
        assert es[i] in fs;
      }
      if k in KeysOf(fs) {
        var i :| 0 <= i < |fs| && KeysOf(fs)[i] == k;
        assert fs[i] in es;
      }
    }
  }

  ghost function Listing(vals: Values): (es: seq<Entry>)
    ensures es == LiveEntries(vals, Sorted(vals.Keys)) && Ascending(KeysOf(es))
    ensures forall e :: e in es <==> IsSet(vals, e.key) && e.content == Lookup(vals, e.key).Content()
  {
    LiveKeysAscend(vals, Sorted(vals.Keys));
    LiveEntriesAre(vals, Sorted(vals.Keys));
    assert forall k :: k in Sorted(vals.Keys) <==> k in Elements(Sorted(vals.Keys));
    LiveEntries(vals, Sorted(vals.Keys))
  }

  lemma SameEntriesSameContents(a: Values, b: Values)
    requires LiveEntries(a, Sorted(a.Keys)) == LiveEntries(b, Sorted(b.Keys))
    ensures SameContents(a, b)
  {
    var es, fs := Listing(a), Listing(b);
    hide LiveEntries, Sorted, Ascending;
    forall k
      ensures Lookup(a, k).Content() == Lookup(b, k).Content()
    {
      EqualMeansSameContent(Lookup(a, k), NOTHING);
      EqualMeansSameContent(Lookup(b, k), NOTHING);
      if IsSet(a, k) { assert Entry(k, Lookup(a, k).Content()) in fs; }
      if IsSet(b, k) { assert Entry(k, Lookup(b, k).Content()) in es; }
    }
  }

  lemma HeadersSplit(rt: Runtime, rt': Runtime, x: string, y: string)
    requires Header(rt) + x == Header(rt') + y
    ensures rt == rt' && x == y
  {
    assert (Header(rt) + x)[3] == RuntimeName(rt)[0] && (Header(rt') + y)[3] == RuntimeName(rt')[0];
    assert (Header(rt) + x)[|Header(rt)|..] == x && (Header(rt') + y)[|Header(rt')|..] == y;
  }

  /** Equal revisions are equal values: of the same kind of device, key by key. */
  lemma {:induction false} RevisionIsExact(rt: Runtime, a: Values, rt': Runtime, b: Values)
    requires Clean(a) && Clean(b)
    ensures Revision(rt, a) == Revision(rt', b) <==> rt == rt' && SameContents(a, b)
  {
    hide Sorted, Ascending, Stream, Header, SameContents, CleanEntry;
    var es, fs := Listing(a), Listing(b);
    if Revision(rt, a) == Revision(rt', b) {
      HeadersSplit(rt, rt', Stream(es), Stream(fs));
      StreamIsExact(es, fs);
      SameEntriesSameContents(a, b);
    }
    if rt == rt' && SameContents(a, b) {
      SameContentsSameEntries(a, b);
    }
  }

  lemma LiveLast(vals: Values, keys: seq<Key>, k: Key)
    ensures LiveEntries(vals, keys + [k]) == LiveEntries(vals, keys)
      + (if IsSet(vals, k) then [Entry(k, Lookup(vals, k).Content())] else [])
  {
    assert (keys + [k])[..|keys|] == keys;
  }

  lemma StreamLast(es: seq<Entry>, e: Entry)
    ensures Stream(es + [e]) == Stream(es) + Encoded(e)
  {
    hide Encoded;
    assert (es + [e])[..|es|] == es;
  }

  /** One text that reads like the end of one entry and the start of another. */
  function Forged(x: string, b: Key, y: string): string {
    x + ([RS] + b + [NUL] + ['s'] + [NUL]) + y
  }

  lemma ForgedReadsAsTwo(a: Key, x: string, b: Key, y: string)
    ensures Encoded(Entry(a, Words(Forged(x, b, y)))) == Encoded(Entry(a, Words(x))) + Encoded(Entry(b, Words(y)))
  {
    var h := a + [NUL] + ['s'] + [NUL];
    var g := [RS] + b + [NUL] + ['s'] + [NUL];
    assert g + y + [RS] == [RS] + (b + [NUL] + ['s'] + [NUL] + y + [RS]);
    assert h + (x + g + y) + [RS] == h + x + (g + y + [RS]);
  }

  lemma OneEntryStream(k: Key, s: string)
    ensures var vals: Values := map[k := Text(s)];
            Stream(LiveEntries(vals, Sorted(vals.Keys))) == Encoded(Entry(k, Words(s)))
  {
    var vals: Values := map[k := Text(s)];
    ListingIs(vals, [k]);
    LiveLast(vals, [], k);
    assert [] + [k] == [k];
    hide Encoded, Sorted, LiveEntries;
    StreamLast([], Entry(k, Words(s)));
    assert [] + [Entry(k, Words(s))] == [Entry(k, Words(s))];
  }

  lemma TwoEntries(a: Key, x: string, b: Key, y: string)
    requires a != b
    ensures var vals: Values := map[a := Text(x), b := Text(y)];
            LiveEntries(vals, [a] + [b]) == [Entry(a, Words(x))] + [Entry(b, Words(y))]
  {
    var vals: Values := map[a := Text(x), b := Text(y)];
    assert Lookup(vals, a) == Text(x) && Lookup(vals, b) == Text(y);
    assert LiveEntries(vals, []) == [] && [] + [a] == [a];
    LiveLast(vals, [], a);
    LiveLast(vals, [a], b);
    hide LiveEntries;
    assert [] + [Entry(a, Words(x))] == [Entry(a, Words(x))];
  }

  lemma TwoEntryStream(a: Key, x: string, b: Key, y: string)
    requires Before(a, b)
    ensures var vals: Values := map[a := Text(x), b := Text(y)];
            Stream(LiveEntries(vals, Sorted(vals.Keys))) == Encoded(Entry(a, Words(x))) + Encoded(Entry(b, Words(y)))
  {
    hide Encoded, Sorted, LiveEntries;
    BeforeIsTotal(a, b);
    TwoEntries(a, x, b, y);
    ListingIs(map[a := Text(x), b := Text(y)], [a] + [b]);
    hide Before;
    var f, g := Entry(a, Words(x)), Entry(b, Words(y));
    StreamLast([], f);
    StreamLast([f], g);
    assert [] + [f] == [f];
  }

  /** What the exactness rests on: a text that holds the separators makes one set
      of values look like another, for any two keys. */
  lemma {:induction false} UncleanValuesCollide(rt: Runtime, a: Key, x: string, b: Key, y: string)
    requires Before(a, b)
    ensures var one: Values := map[a := Text(Forged(x, b, y))];
            var two: Values := map[a := Text(x), b := Text(y)];
            Revision(rt, one) == Revision(rt, two) && !SameContents(one, two)
  {
    hide LiveEntries, Sorted, Encoded, Forged;
    var one: Values := map[a := Text(Forged(x, b, y))];
    var two: Values := map[a := Text(x), b := Text(y)];
    OneEntryStream(a, Forged(x, b, y));
    TwoEntryStream(a, x, b, y);
    ForgedReadsAsTwo(a, x, b, y);
    BeforeIsTotal(a, b);
    assert Lookup(one, b).Content() == Unset && Lookup(two, b).Content() == Words(y);
  }

  lemma ListingIs(vals: Values, keys: seq<Key>)
    requires Ascending(keys) && Elements(keys) == vals.Keys
    ensures Sorted(vals.Keys) == keys
  {
    AscendingIsUnique(Sorted(vals.Keys), keys);
  }

  // ---------- validated values are clean ----------

  /** A registry whose own keys, words and defaults can be told apart in a revision. */
  ghost predicate Sound(reg: Registry) {
    && WellFormed(reg)
    && (forall k :: k in reg ==> NUL !in k)
    && (forall k, w :: k in reg && w in reg[k].allowed ==> RS !in w)
    && (forall k, rt :: k in reg && AppliesTo(reg, k, rt) ==> Issues(reg, rt, k, reg[k].default) == [])
  }

  lemma {:induction false} UsableEntries(entries: seq<string>, i: nat)
    requires i < |entries| && PortList.Problems(entries) == []
    ensures AllDigits(entries[i])
  {
    if i < |entries| - 1 {
      UsableEntries(entries[..|entries| - 1], i);
    }
  }

  lemma {:induction false} EntriesCover(s: string, c: char)
    requires c in s && !PortList.IsSeparator(c)
    ensures exists i :: 0 <= i < |PortList.Entries(s)| && c in PortList.Entries(s)[i]
    decreases |s|
  {
    if PortList.IsSeparator(s[0]) {
      assert s == [s[0]] + s[1..];
      EntriesCover(s[1..], c);
      assert PortList.Entries(s) == PortList.Entries(s[1..]);
    } else {
      var n := PortList.EntryLen(s);
      assert s == s[..n] + s[n..];
      if c in s[..n] {
        assert PortList.Entries(s)[0] == s[..n];
      } else {
        EntriesCover(s[n..], c);
        var i :| 0 <= i < |PortList.Entries(s[n..])| && c in PortList.Entries(s[n..])[i];
        assert PortList.Entries(s)[i + 1] == PortList.Entries(s[n..])[i];
      }
    }
  }

  lemma PortTextIsClean(s: string)
    requires PortList.ParseProblems(s) == []
    ensures RS !in s
  {
    if RS in s {
      EntriesCover(s, RS);
      var i :| 0 <= i < |PortList.Entries(s)| && RS in PortList.Entries(s)[i];
      UsableEntries(PortList.Entries(s), i);
    }
  }

  lemma ValidIsClean(reg: Registry, rt: Runtime, vals: Values)
    requires Sound(reg) && Valid(reg, rt, vals)
    ensures Clean(vals)
  {
    forall k | k in vals && IsSet(vals, k)
      ensures CleanEntry(Entry(k, vals[k].Content()))
    {
      assert Issues(reg, rt, k, vals[k]) == [];
      if reg[k].kind == KindPortList { PortTextIsClean(vals[k].s.value); }
    }
  }

  /** The entries of a layer that concern this runtime are valid. */
  ghost predicate ValidLayer(reg: Registry, rt: Runtime, vals: Values) {
    forall k :: k in vals && AppliesTo(reg, k, rt) ==> Issues(reg, rt, k, vals[k]) == []
  }

  lemma EffectiveIsClean(reg: Registry, rt: Runtime, fleet: Values, device: Values)
    requires Sound(reg) && ValidLayer(reg, rt, fleet) && ValidLayer(reg, rt, device)
    ensures Clean(Effective(reg, rt, fleet, device))
  {
    hide Issues;
    ValidIsClean(reg, rt, Effective(reg, rt, fleet, device));
  }

  // ---------- Diff ----------

  datatype Change = Change(key: Key, from: Value, to: Value)

  function Changes(before: Values, after: Values, keys: seq<Key>): seq<Change> {
    if keys == [] then []
    else
      var k := keys[|keys| - 1];
      var b, a := Lookup(before, k), Lookup(after, k);
      Changes(before, after, keys[..|keys| - 1]) + (if b.Equal(a) then [] else [Change(k, b, a)])
  }

  method Diff(before: Values, after: Values) returns (out: seq<Change>)
    ensures out == Changes(before, after, Sorted(before.Keys + after.Keys))
  {
    hide Sorted, Ascending, Before, Changes, Value.Equal, Lookup;
    var keys := SortedListing(before.Keys + after.Keys);
    out := [];
    ChangesNone(before, after);
    for n := 0 to |keys|
      invariant out == Changes(before, after, keys[..n])
    {
      ChangesNext(before, after, keys, n);
      var k := keys[n];
      var b, a := Lookup(before, k), Lookup(after, k);
      if b.Equal(a) {
        continue;
      }
      out := out + [Change(k, b, a)];
    }
    assert keys[..|keys|] == keys;
  }

  lemma ChangesNone(before: Values, after: Values)
    ensures Changes(before, after, []) == []
  {
  }

  lemma ChangesNext(before: Values, after: Values, keys: seq<Key>, n: nat)
    requires n < |keys|
    ensures var b, a := Lookup(before, keys[n]), Lookup(after, keys[n]);
            Changes(before, after, keys[..n + 1]) ==
              if b.Equal(a) then Changes(before, after, keys[..n])
              else Changes(before, after, keys[..n]) + [Change(keys[n], b, a)]
  {
    hide Value.Equal, Lookup;
    assert keys[..n + 1][..n] == keys[..n];
    assert Changes(before, after, keys[..n]) + [] == Changes(before, after, keys[..n]);
  }

  lemma {:induction false} NoChanges(before: Values, after: Values, keys: seq<Key>)
    ensures Changes(before, after, keys) == [] <==>
      forall k :: k in keys ==> Lookup(before, k).Content() == Lookup(after, k).Content()
  {
    if keys != [] {
      var n := |keys| - 1;
      NoChanges(before, after, keys[..n]);
      assert keys == keys[..n] + [keys[n]];
      EqualMeansSameContent(Lookup(before, keys[n]), Lookup(after, keys[n]));
    }
  }

  /** `Diff` is empty exactly when the two revisions agree. */
  lemma {:induction false} DiffMatchesRevision(rt: Runtime, before: Values, after: Values)
    requires Clean(before) && Clean(after)
    ensures Changes(before, after, Sorted(before.Keys + after.Keys)) == [] <==> Revision(rt, before) == Revision(rt, after)
  {
    hide Revision, Sorted, Ascending, Clean;
    var keys := Sorted(before.Keys + after.Keys);
    RevisionIsExact(rt, before, rt, after);
    NoChanges(before, after, keys);
    assert forall k :: k in keys <==> k in Elements(keys);
    hide Changes;
    if SameContents(before, after) {
    } else {
      var k :| Lookup(before, k).Content() != Lookup(after, k).Content();
      assert k in keys;
    }
  }

  /** Each key whose two values say different things is listed, with both, and no other. */
  lemma {:induction false} ChangesAre(before: Values, after: Values, keys: seq<Key>, c: Change)
    ensures c in Changes(before, after, keys) <==>
              && c.key in keys && c.from == (if c.key in before then before[c.key] else NOTHING)
              && c.to == (if c.key in after then after[c.key] else NOTHING)
              && c.from.Content() != c.to.Content()
  {
    hide Value.Equal, Value.Content;
    if keys != [] {
      var n := |keys| - 1;
      ChangesAre(before, after, keys[..n], c);
      assert keys == keys[..n] + [keys[n]];
      EqualMeansSameContent(Lookup(before, keys[n]), Lookup(after, keys[n]));
    }
  }

  /** And they are listed by key. */
  lemma {:induction false} ChangesInOrder(before: Values, after: Values, keys: seq<Key>)
    requires Ascending(keys)
    ensures forall i, j :: 0 <= i < j < |Changes(before, after, keys)| ==>
              Before(Changes(before, after, keys)[i].key, Changes(before, after, keys)[j].key)
  {
    hide Value.Equal, Before;
    if keys != [] {
      var n := |keys| - 1;
      ChangesInOrder(before, after, keys[..n]);
      forall c | c in Changes(before, after, keys[..n]) ensures c.key in keys[..n] {
        ChangesAre(before, after, keys[..n], c);
      }
    }
  }

  /** The bytes a revision is taken of: a heading, then for each set key in order the
      key, the kind of its value and the value. */
  lemma RevisionBytes(rt: Runtime, vals: Values)
    ensures Revision(rt, vals) == (if rt == Sensor then "v1\nsensor\n" else "v1\nagent\n")
                                  + Stream(LiveEntries(vals, Sorted(vals.Keys)))
  {
    hide Stream, LiveEntries, Sorted;
    assert "v1\n" + "sensor" + "\n" == "v1\nsensor\n" && "v1\n" + "agent" + "\n" == "v1\nagent\n";
  }

  lemma EntryBytes(k: Key, b: bool, i: int, s: string)
    ensures Encoded(Entry(k, Flag(b))) == k + "\0b\0" + (if b then "true" else "false") + "\U{001E}"
    ensures Encoded(Entry(k, Number(i))) == k + "\0i\0" + (if i < 0 then "-" + Itoa(-i) else Itoa(i)) + "\U{001E}"
    ensures Encoded(Entry(k, Words(s))) == k + "\0s\0" + s + "\U{001E}"
  {
    hide Itoa;
    assert k + [NUL] + ['b'] + [NUL] == k + "\0b\0" && k + [NUL] + ['i'] + [NUL] == k + "\0i\0";
    assert k + [NUL] + ['s'] + [NUL] == k + "\0s\0";
  }

  lemma EntriesJoin(es: seq<Entry>, fs: seq<Entry>)
    ensures Stream(es + fs) == Stream(es) + Stream(fs)
    ensures |es| == 1 ==> Stream(es) == Encoded(es[0])
  {
    hide Encoded;
    if fs == [] {
      assert es + fs == es;
    } else {
      EntriesJoin(es, fs[..|fs| - 1]);
      assert (es + fs)[..|es + fs| - 1] == es + fs[..|fs| - 1];
    }
  }

  /** The entries are those of the set keys, in order. */
  lemma LiveKeysAre(vals: Values, keys: seq<Key>, more: seq<Key>)
    ensures LiveEntries(vals, keys + more) == LiveEntries(vals, keys) + LiveEntries(vals, more)
    ensures |keys| == 1 ==>
              (LiveEntries(vals, keys) ==
               if keys[0] in vals && vals[keys[0]] != NOTHING then [Entry(keys[0], vals[keys[0]].Content())] else [])
  {
    hide Value.Content;
    if more == [] {
      assert keys + more == keys;
    } else {
      LiveKeysAre(vals, keys, more[..|more| - 1]);
      assert (keys + more)[..|keys + more| - 1] == keys + more[..|more| - 1];
    }
  }
}
