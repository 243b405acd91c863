/**
 Merging the settings an agent writes into the configuration document a person
 may have edited: keys keep their places and comments, values are replaced.
 */
module YamlMerge {
  import opened Options

  datatype Kind = Mapping | Sequence | Scalar | Alias

  datatype Comments = Comments(head: string, line: string, foot: string)

  /** A mapping's content is key, value, key, value, …. */
  datatype Node = Node(kind: Kind, value: string, comments: Comments, content: seq<Node>)

  function Pairs(c: seq<Node>): nat { |c| / 2 }

  function KeyAt(c: seq<Node>, i: nat): string
    requires i < Pairs(c)
  {
    c[2 * i].value
  }

  function ValueAt(c: seq<Node>, i: nat): Node
    requires i < Pairs(c)
  {
    c[2 * i + 1]
  }

  function WithValue(c: seq<Node>, i: nat, v: Node): seq<Node>
    requires i < Pairs(c)
  {
    c[2 * i + 1 := v]
  }

  /** The first pair from i on with a key, or the number of pairs. */
  function FindFrom(c: seq<Node>, key: string, i: nat): (r: nat)
    requires i <= Pairs(c)
    ensures i <= r <= Pairs(c)
    ensures r < Pairs(c) ==> KeyAt(c, r) == key
    ensures forall j :: i <= j < r ==> KeyAt(c, j) != key
    decreases Pairs(c) - i
  {
    if i == Pairs(c) || KeyAt(c, i) == key then i else FindFrom(c, key, i + 1)
  }

  function Find(c: seq<Node>, key: string): nat { FindFrom(c, key, 0) }

  predicate Has(c: seq<Node>, key: string) { Find(c, key) < Pairs(c) }

  function Get(c: seq<Node>, key: string): Option<Node> {
    if Has(c, key) then Some(ValueAt(c, Find(c, key))) else None
  }

  // ---------- mergeMapping ----------

  /** The value a key ends up with: two mappings are merged, anything else is
      replaced but keeps the comments it had. */
  function Merged(cur: Node, val: Node): Node
    decreases val, 0
  {
    if cur.kind.Mapping? && val.kind.Mapping? then cur.(content := Merge(cur.content, val.content))
    else val.(comments := cur.comments)
  }

  function Put(c: seq<Node>, key: Node, val: Node): seq<Node>
    decreases val, 1
  {
    var i := Find(c, key.value);
    if i < Pairs(c) then WithValue(c, i, Merged(ValueAt(c, i), val)) else c + [key, val]
  }

  function Merge(dst: seq<Node>, src: seq<Node>): seq<Node>
    decreases src
  {
    if |src| < 2 then dst else Merge(Put(dst, src[0], src[1]), src[2..])
  }

  /** The two nested loops; `dst` is the content being edited. */
  method MergeMapping(dst: seq<Node>, src: seq<Node>) returns (content: seq<Node>)
    ensures content == Merge(dst, src)
    decreases src
  {
    content := dst;
    var i := 0;
    assert src[0..] == src;
    while i + 1 < |src|
      invariant 0 <= i <= |src| && Merge(content, src[i..]) == Merge(dst, src)
    {
      var key, val := src[i], src[i + 1];
      assert src[i..][0] == key && src[i..][1] == val && src[i..][2..] == src[i + 2..];
      ghost var before := content;
      var j := 0;
      var found := false;
      while j + 1 < |content| && !found
        invariant 0 <= j && j % 2 == 0 && j / 2 <= Pairs(content)
        invariant !found ==> content == before && forall k :: 0 <= k < j / 2 ==> KeyAt(content, k) != key.value
        invariant found ==> content == Put(before, key, val)
        decreases |content| - j, !found
      {
        if content[j].value != key.value {
          assert KeyAt(content, j / 2) == content[j].value;
          j := j + 2;
          continue;
        }
        assert KeyAt(content, j / 2) == key.value;
        assert Find(content, key.value) == j / 2;
        found := true;
        var cur := content[j + 1];
        if cur.kind == Mapping && val.kind == Mapping {
          var inner := MergeMapping(cur.content, val.content);
          content := content[j + 1 := cur.(content := inner)];
        } else {
          content := content[j + 1 := val.(comments := cur.comments)];
        }
      }
      if !found {
        assert Find(content, key.value) == Pairs(content);
        content := content + [key, val];
      }
      i := i + 2;
    }
  }

  function RemoveKey(c: seq<Node>, key: string): seq<Node> {
    var i := Find(c, key);
    if i < Pairs(c) then c[..2 * i] + c[2 * i + 2..] else c
  }

  method RemoveFirst(c: seq<Node>, key: string) returns (content: seq<Node>)
    ensures content == RemoveKey(c, key)
  {
    var i := 0;
    while i + 1 < |c|
      invariant 0 <= i && i % 2 == 0 && i / 2 <= Pairs(c)
      invariant forall k :: 0 <= k < i / 2 ==> KeyAt(c, k) != key
    {
      assert KeyAt(c, i / 2) == c[i].value;
      if c[i].value == key {
        return c[..i] + c[i + 2..];
      }
      i := i + 2;
    }
    content := c;
  }

  // ---------- what a merge gives ----------

  /** Well-formed content: pairs, no key twice, and so on inside the mappings in it. */
  ghost predicate Tidy(c: seq<Node>) {
    && |c| % 2 == 0
    && (forall i, j :: 0 <= i < j < Pairs(c) ==> KeyAt(c, i) != KeyAt(c, j))
    && (forall i :: 0 <= i < Pairs(c) && ValueAt(c, i).kind.Mapping? ==> Tidy(ValueAt(c, i).content))
  }

  lemma FindIs(c: seq<Node>, key: string, i: nat)
    requires i <= Pairs(c) && (i < Pairs(c) ==> KeyAt(c, i) == key)
    requires forall j :: 0 <= j < i ==> KeyAt(c, j) != key
    ensures Find(c, key) == i
  {
  }

  lemma PairsOfRest(c: seq<Node>)
    requires |c| >= 2
    ensures Pairs(c) == Pairs(c[2..]) + 1
    ensures forall i :: 0 <= i < Pairs(c[2..]) ==> KeyAt(c[2..], i) == KeyAt(c, i + 1) && ValueAt(c[2..], i) == ValueAt(c, i + 1)
  {
  }

  lemma GetFirst(c: seq<Node>, k: string)
    requires |c| >= 2
    ensures Get(c, k) == if c[0].value == k then Some(c[1]) else Get(c[2..], k)
    ensures Has(c, k) <==> c[0].value == k || Has(c[2..], k)
  {
    PairsOfRest(c);
    if c[0].value == k {
      FindIs(c, k, 0);
    } else {
      var r := Find(c[2..], k);
      assert forall j :: 0 <= j < r + 1 ==> KeyAt(c, j) != k by {
        forall j | 0 <= j < r + 1 ensures KeyAt(c, j) != k { if j > 0 { assert KeyAt(c[2..], j - 1) == KeyAt(c, j); } }
      }
      if r < Pairs(c[2..]) { assert KeyAt(c, r + 1) == KeyAt(c[2..], r); }
      FindIs(c, k, r + 1);
    }
  }

  lemma TidyRest(c: seq<Node>)
    requires Tidy(c) && |c| >= 2
    ensures Tidy(c[2..]) && !Has(c[2..], c[0].value)
    ensures c[1].kind.Mapping? ==> Tidy(c[1].content)
  {
    PairsOfRest(c);
    assert KeyAt(c, 0) == c[0].value && ValueAt(c, 0) == c[1];
    forall i | 0 <= i < Pairs(c[2..])
      ensures KeyAt(c[2..], i) != c[0].value
    {
      assert KeyAt(c[2..], i) == KeyAt(c, i + 1);
    }
    forall i | 0 <= i < Pairs(c[2..]) && ValueAt(c[2..], i).kind.Mapping?
      ensures Tidy(ValueAt(c[2..], i).content)
    {
      assert ValueAt(c[2..], i) == ValueAt(c, i + 1);
    }
    forall i, j | 0 <= i < j < Pairs(c[2..])
      ensures KeyAt(c[2..], i) != KeyAt(c[2..], j)
    {
      assert KeyAt(c[2..], i) == KeyAt(c, i + 1) && KeyAt(c[2..], j) == KeyAt(c, j + 1);
    }
  }

  ghost function KeyNodes(c: seq<Node>): (r: seq<Node>)
    ensures |r| == Pairs(c) && forall i :: 0 <= i < |r| ==> r[i] == c[2 * i]
  {
    seq(Pairs(c), i requires 0 <= i < Pairs(c) => c[2 * i])
  }

  /** The value a key has after it is put. */
  function Settled(cur: Option<Node>, val: Node): Node {
    if cur.Some? then Merged(cur.value, val) else val
  }

  lemma PutGets(c: seq<Node>, key: Node, val: Node, k: string)
    requires |c| % 2 == 0
    ensures var r := Put(c, key, val);
            && |r| % 2 == 0
            && Get(r, k) == (if k == key.value then Some(Settled(Get(c, k), val)) else Get(c, k))
            && KeyNodes(r) == KeyNodes(c) + (if Has(c, key.value) then [] else [key])
            && (Has(r, k) <==> Has(c, k) || k == key.value)
  {
    hide Merged, Find;
    var r, i := Put(c, key, val), Find(c, key.value);
    var n := Find(c, k);
    FoundAt(c, k);
    FoundAt(c, key.value);
    if i < Pairs(c) {
      assert Pairs(r) == Pairs(c);
      assert forall j :: 0 <= j < Pairs(c) ==> KeyAt(r, j) == KeyAt(c, j);
      assert KeyNodes(r) == KeyNodes(c);
      FindIs(r, k, n);
    } else {
      assert Pairs(r) == Pairs(c) + 1;
      assert forall j :: 0 <= j < Pairs(c) ==> KeyAt(r, j) == KeyAt(c, j) && ValueAt(r, j) == ValueAt(c, j);
      assert KeyAt(r, Pairs(c)) == key.value && ValueAt(r, Pairs(c)) == val;
      assert KeyNodes(r) == KeyNodes(c) + [key];
      FindIs(r, k, if n == Pairs(c) && k != key.value then n + 1 else n);
    }
  }

  lemma FoundAt(c: seq<Node>, k: string)
    ensures Find(c, k) <= Pairs(c)
    ensures Find(c, k) < Pairs(c) ==> KeyAt(c, Find(c, k)) == k
    ensures forall j :: 0 <= j < Find(c, k) ==> KeyAt(c, j) != k
  {
  }

  /** The key nodes of src that dst has no key for, in order. */
  ghost function NewKeys(dst: seq<Node>, src: seq<Node>): seq<Node> {
    if |src| < 2 then [] else (if Has(dst, src[0].value) then [] else [src[0]]) + NewKeys(dst, src[2..])
  }

  lemma {:induction false} NewKeysSame(dst: seq<Node>, dst': seq<Node>, src: seq<Node>)
    requires forall k :: Has(src, k) ==> (Has(dst, k) <==> Has(dst', k))
    ensures NewKeys(dst, src) == NewKeys(dst', src)
  {
    hide Has, Get;
    if |src| >= 2 {
      forall k ensures Has(src, k) <==> src[0].value == k || Has(src[2..], k) { GetFirst(src, k); }
      NewKeysSame(dst, dst', src[2..]);
    }
  }

  /** Every key of src has its value from src — merged into the mapping it was, or
      with the comments it had; every other key has what it had. */
  lemma {:induction false} MergeGets(dst: seq<Node>, src: seq<Node>, k: string)
    requires |dst| % 2 == 0 && Tidy(src)
    ensures var r := Merge(dst, src);
            && |r| % 2 == 0
            && Get(r, k) == (if Get(src, k).None? then Get(dst, k) else Some(Settled(Get(dst, k), Get(src, k).value)))
    decreases |src|
  {
    hide Get, Put, Tidy, Settled;
    if |src| < 2 {
      NothingThere(src, k);
    } else {
      var next := Put(dst, src[0], src[1]);
      PutGets(dst, src[0], src[1], k);
      TidyRest(src);
      GetFirst(src, k);
      HasIsGet(src[2..], src[0].value);
      MergeGets(next, src[2..], k);
    }
  }

  lemma HasIsGet(c: seq<Node>, k: string)
    ensures Has(c, k) <==> Get(c, k).Some?
  {
  }

  lemma NothingThere(src: seq<Node>, k: string)
    requires |src| < 2
    ensures Get(src, k).None? && !Has(src, k)
  {
  }

  /** Keys stay in place, key nodes and all; new ones follow in the order of src. */
  lemma {:induction false} MergeKeepsPlaces(dst: seq<Node>, src: seq<Node>)
    requires |dst| % 2 == 0 && Tidy(src)
    ensures KeyNodes(Merge(dst, src)) == KeyNodes(dst) + NewKeys(dst, src)
    decreases |src|
  {
    hide Get, Has, Put, Tidy, KeyNodes;
    if |src| >= 2 {
      var next := Put(dst, src[0], src[1]);
      TidyRest(src);
      PutGets(dst, src[0], src[1], src[0].value);
      MergeKeepsPlaces(next, src[2..]);
      NewKeysAfterPut(dst, src);
      hide NewKeys;
      assert KeyNodes(dst) + [src[0]] + NewKeys(dst, src[2..]) == KeyNodes(dst) + ([src[0]] + NewKeys(dst, src[2..]));
    }
  }

  lemma NewKeysAfterPut(dst: seq<Node>, src: seq<Node>)
    requires |dst| % 2 == 0 && Tidy(src) && |src| >= 2
    ensures NewKeys(Put(dst, src[0], src[1]), src[2..]) == NewKeys(dst, src[2..])
    ensures NewKeys(dst, src) == (if Has(dst, src[0].value) then [] else [src[0]]) + NewKeys(dst, src[2..])
  {
    hide Get, Has, Put, Tidy;
    var next := Put(dst, src[0], src[1]);
    TidyRest(src);
    forall k | Has(src[2..], k) ensures Has(dst, k) <==> Has(next, k) { PutGets(dst, src[0], src[1], k); }
    NewKeysSame(dst, next, src[2..]);
  }

  // ---------- merging twice is merging once ----------

  /** Putting what is there already changes nothing. */
  ghost predicate Absorbs(c: seq<Node>, src: seq<Node>) {
    forall i :: 0 <= i < Pairs(src) ==> Put(c, src[2 * i], src[2 * i + 1]) == c
  }

  lemma {:induction false} AbsorbedMerge(c: seq<Node>, src: seq<Node>)
    requires Absorbs(c, src)
    ensures Merge(c, src) == c
    decreases |src|
  {
    hide Put;
    if |src| >= 2 {
      assert Put(c, src[2 * 0], src[2 * 0 + 1]) == c;
      forall i | 0 <= i < Pairs(src[2..])
        ensures Put(c, src[2..][2 * i], src[2..][2 * i + 1]) == c
      {
        assert Put(c, src[2 * (i + 1)], src[2 * (i + 1) + 1]) == c;
      }
      AbsorbedMerge(c, src[2..]);
    }
  }

  lemma TidyGets(c: seq<Node>, i: nat)
    requires Tidy(c) && i < Pairs(c)
    ensures Find(c, KeyAt(c, i)) == i && Get(c, KeyAt(c, i)) == Some(ValueAt(c, i))
    ensures ValueAt(c, i).kind.Mapping? ==> Tidy(ValueAt(c, i).content)
  {
    FindIs(c, KeyAt(c, i), i);
  }

  /** Well-formed content merged into itself is itself. */
  lemma {:induction false} SelfMerge(c: seq<Node>)
    requires Tidy(c)
    ensures Merge(c, c) == c
    decreases c
  {
    forall i | 0 <= i < Pairs(c)
      ensures Put(c, c[2 * i], c[2 * i + 1]) == c
    {
      TidyGets(c, i);
      var v := ValueAt(c, i);
      assert v in c;
      if v.kind.Mapping? { SelfMerge(v.content); }
      assert Merged(v, v) == v;
    }
    AbsorbedMerge(c, c);
  }

  /** Every mapping that is merged into holds pairs. */
  ghost predicate Even(c: seq<Node>) {
    |c| % 2 == 0 && forall i :: 0 <= i < Pairs(c) && ValueAt(c, i).kind.Mapping? ==> Even(ValueAt(c, i).content)
  }

  lemma EvenGets(c: seq<Node>, k: string)
    requires Even(c)
    ensures Get(c, k).Some? && Get(c, k).value.kind.Mapping? ==> Even(Get(c, k).value.content)
  {
  }

  /** What a key settles at is where it stays. */
  lemma {:induction false} SettledTwice(cur: Option<Node>, val: Node)
    requires val.kind.Mapping? ==> Tidy(val.content)
    requires cur.Some? && cur.value.kind.Mapping? ==> Even(cur.value.content)
    ensures Merged(Settled(cur, val), val) == Settled(cur, val)
    decreases val, 0
  {
    if val.kind.Mapping? {
      SelfMerge(val.content);
      if cur.Some? && cur.value.kind.Mapping? {
        MergeTwice(cur.value.content, val.content);
      }
    }
  }

  lemma PutSame(c: seq<Node>, key: Node, val: Node)
    requires Has(c, key.value) && Merged(Get(c, key.value).value, val) == Get(c, key.value).value
    ensures Put(c, key, val) == c
  {
    hide Merged, Find;
    var i := Find(c, key.value);
    assert c[2 * i + 1 := c[2 * i + 1]] == c;
  }

  /** Merging the same settings a second time changes nothing, whatever the document. */
  lemma {:induction false} MergeTwice(dst: seq<Node>, src: seq<Node>)
    requires Even(dst) && Tidy(src)
    ensures Merge(Merge(dst, src), src) == Merge(dst, src)
    decreases src, 1
  {
    hide Merge, Put, Even, Tidy, Settled, Merged, Get, Has;
    var r := Merge(dst, src);
    EvenIsEven(dst);
    forall i | 0 <= i < Pairs(src)
      ensures Put(r, src[2 * i], src[2 * i + 1]) == r
    {
      var k, v := KeyAt(src, i), ValueAt(src, i);
      TidyGets(src, i);
      MergeGets(dst, src, k);
      EvenGets(dst, k);
      assert v in src;
      SettledTwice(Get(dst, k), v);
      HasIsGet(r, k);
      PutSame(r, src[2 * i], v);
    }
    AbsorbedMerge(r, src);
  }

  lemma EvenIsEven(c: seq<Node>)
    requires Even(c)
    ensures |c| % 2 == 0
  {
  }

  // ---------- removing what is no longer set ----------

  ghost function Keys(c: seq<Node>): (r: seq<string>)
    ensures |r| == Pairs(c) && forall i :: 0 <= i < |r| ==> r[i] == KeyAt(c, i)
  {
    seq(Pairs(c), i requires 0 <= i < Pairs(c) => KeyAt(c, i))
  }

  lemma KeysWithout(c: seq<Node>, i: nat)
    requires i < Pairs(c)
    ensures Keys(c[..2 * i] + c[2 * i + 2..]) == Keys(c)[..i] + Keys(c)[i + 1..]
  {
    var r := c[..2 * i] + c[2 * i + 2..];
    assert Pairs(r) == Pairs(c) - 1;
    forall j | 0 <= j < Pairs(r)
      ensures KeyAt(r, j) == if j < i then KeyAt(c, j) else KeyAt(c, j + 1)
    {
      if j < i { assert r[2 * j] == c[2 * j]; } else { assert r[2 * j] == c[2 * (j + 1)]; }
    }
  }

  /** Removal takes out one pair of a key that is there, and nothing else. */
  lemma RemoveTakesOne(c: seq<Node>, key: string)
    ensures multiset(Keys(RemoveKey(c, key))) == multiset(Keys(c)) - multiset{key}
  {
    hide Keys, Find;
    FoundAt(c, key);
    var i := Find(c, key);
    if i < Pairs(c) {
      KeysWithout(c, i);
      assert Keys(c) == Keys(c)[..i] + [key] + Keys(c)[i + 1..];
    } else {
      assert forall j :: 0 <= j < |Keys(c)| ==> Keys(c)[j] != key;
    }
  }

  /** The removal loop of `saveConfigFile`: every managed key that is not desired. */
  function RemoveUnset(root: seq<Node>, managed: seq<string>, desired: seq<Node>): seq<Node> {
    if managed == [] then root
    else
      var rest := RemoveUnset(root, managed[..|managed| - 1], desired);
      var key := managed[|managed| - 1];
      if Has(desired, key) then rest else RemoveKey(rest, key)
  }

  method SaveConfig(document: seq<Node>, desired: seq<Node>, managed: seq<string>) returns (root: seq<Node>)
    ensures root == RemoveUnset(Merge(document, desired), managed, desired)
  {
    root := MergeMapping(document, desired);
    ghost var merged := root;
    for i := 0 to |managed|
      invariant root == RemoveUnset(merged, managed[..i], desired)
    {
      assert managed[..i + 1][..i] == managed[..i];
      if !Has(desired, managed[i]) {
        root := RemoveFirst(root, managed[i]);
      }
    }
    assert managed[..|managed|] == managed;
  }

  function Count(s: seq<string>, k: string): nat {
    if s == [] then 0 else Count(s[..|s| - 1], k) + (if s[|s| - 1] == k then 1 else 0)
  }

  lemma {:induction false} UnsetCounts(root: seq<Node>, managed: seq<string>, desired: seq<Node>, k: string)
    ensures var before, after := multiset(Keys(root))[k], multiset(Keys(RemoveUnset(root, managed, desired)))[k];
            after == if Has(desired, k) then before
                     else if before <= Count(managed, k) then 0 else before - Count(managed, k)
  {
    hide Has;
    if managed != [] {
      var init, key := managed[..|managed| - 1], managed[|managed| - 1];
      UnsetCounts(root, init, desired, k);
      RemoveTakesOne(RemoveUnset(root, init, desired), key);
    }
  }

  lemma HasIsListed(c: seq<Node>, k: string)
    ensures Has(c, k) <==> multiset(Keys(c))[k] > 0
  {
    hide Find;
    FoundAt(c, k);
    if Has(c, k) { assert Keys(c)[Find(c, k)] == k; }
    if k in Keys(c) {
      var i :| 0 <= i < |Keys(c)| && Keys(c)[i] == k;
      assert KeyAt(c, i) == k;
    }
  }

  /** A managed key that is named once among the managed ones is in the saved file
      exactly when it is desired — or when the document held it twice, for only the
      first of the two is taken out. */
  lemma ManagedKeysSaved(document: seq<Node>, desired: seq<Node>, managed: seq<string>, k: string)
    requires Even(document) && Tidy(desired) && Count(managed, k) == 1
    ensures Has(RemoveUnset(Merge(document, desired), managed, desired), k)
      <==> Has(desired, k) || multiset(Keys(document))[k] >= 2
  {
    hide RemoveUnset, Merge, Even, Tidy, Has, Keys, Get;
    var merged := Merge(document, desired);
    EvenIsEven(document);
    MergeGets(document, desired, k);
    UnsetCounts(merged, managed, desired, k);
    HasIsListed(RemoveUnset(merged, managed, desired), k);
    HasIsListed(merged, k);
    HasIsGet(merged, k);
    HasIsGet(desired, k);
    if !Has(desired, k) { MergeCounts(document, desired, k); }
  }

  /** For a document that holds a key twice the second of them stays. */
  lemma SecondStays(key: Node, first: Node, second: Node)
    ensures var document := [key, first, key, second];
            RemoveUnset(Merge(document, []), [key.value], []) == [key, second]
  {
    var document, managed := [key, first, key, second], [key.value];
    assert managed[..0] == [] && !Has([], key.value);
    assert KeyAt(document, 0) == key.value;
    assert RemoveUnset(document, [], []) == document;
    assert RemoveKey(document, key.value) == document[..0] + document[2..] == [key, second];
  }

  /** A merge changes neither how often a key of the document occurs nor any key
      that is not merged. */
  lemma MergeCounts(dst: seq<Node>, src: seq<Node>, k: string)
    requires |dst| % 2 == 0 && Tidy(src) && !Has(src, k)
    ensures multiset(Keys(Merge(dst, src)))[k] == multiset(Keys(dst))[k]
  {
    hide Merge, Tidy, Has;
    MergeKeepsPlaces(dst, src);
    NewKeysAreNew(dst, src, k);
    var more := seq(|NewKeys(dst, src)|, i requires 0 <= i < |NewKeys(dst, src)| => NewKeys(dst, src)[i].value);
    var kn := KeyNodes(Merge(dst, src));
    forall i | 0 <= i < |kn|
      ensures Keys(Merge(dst, src))[i] == (Keys(dst) + more)[i]
    {
      assert kn[i] == (KeyNodes(dst) + NewKeys(dst, src))[i];
    }
    assert Keys(Merge(dst, src)) == Keys(dst) + more;
    assert k !in more;
  }

  lemma {:induction false} NewKeysAreNew(dst: seq<Node>, src: seq<Node>, k: string)
    requires !Has(src, k)
    ensures forall n :: n in NewKeys(dst, src) ==> n.value != k
  {
    hide Has;
    if |src| >= 2 {
      GetFirst(src, k);
      NewKeysAreNew(dst, src[2..], k);
    }
  }
}
