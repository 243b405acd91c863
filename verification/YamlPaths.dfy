/**
 What merging settings into a document does at every depth, path by path: a path is the
 keys that lead through mappings from the root.
 */
module YamlPaths {
  import opened Options
  import opened YamlMerge

  predicate IsMapping(n: Option<Node>) { n.Some? && n.value.kind.Mapping? }

  /** Both documents have mappings all along the path. */
  ghost predicate Shared(dst: seq<Node>, src: seq<Node>, path: seq<string>)
    decreases |path|
  {
    path == [] ||
    (var d, s := Get(dst, path[0]), Get(src, path[0]);
     IsMapping(d) && IsMapping(s) && Shared(d.value.content, s.value.content, path[1..]))
  }

  /** What the mapping at the end of a path holds. */
  ghost function Under(c: seq<Node>, path: seq<string>): seq<Node>
    decreases |path|
  {
    if path == [] then c
    else
      var n := Get(c, path[0]);
      if IsMapping(n) then Under(n.value.content, path[1..]) else []
  }

  /** What becomes of a key: it keeps its node where the settings do not have it; it
      comes with its node where only they do; of two mappings the old node stays, to be
      merged into; of anything else the settings' node comes, with the old comments. */
  ghost predicate Becomes(d: Option<Node>, s: Option<Node>, r: Option<Node>) {
    && (s.None? ==> r == d)
    && (s.Some? && d.None? ==> r == s)
    && (IsMapping(s) && IsMapping(d) ==>
          r.Some? && r.value.kind == Mapping && r.value.value == d.value.value && r.value.comments == d.value.comments)
    && (s.Some? && d.Some? && !(IsMapping(s) && IsMapping(d)) ==>
          r == Some(Node(s.value.kind, s.value.value, d.value.comments, s.value.content)))
  }

  lemma TopBecomes(dst: seq<Node>, src: seq<Node>, k: string)
    requires |dst| % 2 == 0 && Tidy(src)
    ensures Becomes(Get(dst, k), Get(src, k), Get(Merge(dst, src), k))
    ensures IsMapping(Get(dst, k)) && IsMapping(Get(src, k)) ==>
              Get(Merge(dst, src), k).value.content == Merge(Get(dst, k).value.content, Get(src, k).value.content)
  {
    hide Get, Merge, Tidy;
    MergeGets(dst, src, k);
  }

  lemma TidyInside(c: seq<Node>, k: string)
    requires Tidy(c) && IsMapping(Get(c, k))
    ensures Tidy(Get(c, k).value.content)
  {
  }

  /** The mapping at the end of a shared path is the merge of the two there. */
  lemma {:induction false} MergedUnder(dst: seq<Node>, src: seq<Node>, path: seq<string>)
    requires Even(dst) && Tidy(src) && Shared(dst, src, path)
    ensures Even(Under(dst, path)) && Tidy(Under(src, path))
    ensures Under(Merge(dst, src), path) == Merge(Under(dst, path), Under(src, path))
    decreases |path|
  {
    hide Get, Merge, Tidy, Even;
    if path != [] {
      var k := path[0];
      EvenIsEven(dst);
      TopBecomes(dst, src, k);
      EvenGets(dst, k);
      TidyInside(src, k);
      MergedUnder(Get(dst, k).value.content, Get(src, k).value.content, path[1..]);
    }
  }

  /** At every depth each key becomes what it should, and key nodes keep their places,
      with the new ones behind them in the order of the settings. */
  lemma {:induction false} MergesAtEveryDepth(dst: seq<Node>, src: seq<Node>, path: seq<string>, k: string)
    requires Even(dst) && Tidy(src) && Shared(dst, src, path)
    ensures var d, s, r := Under(dst, path), Under(src, path), Under(Merge(dst, src), path);
            Becomes(Get(d, k), Get(s, k), Get(r, k)) && KeyNodes(r) == KeyNodes(d) + NewKeys(d, s)
  {
    hide Get, Merge, Tidy, Even, Under, Becomes, KeyNodes, NewKeys;
    MergedUnder(dst, src, path);
    EvenIsEven(Under(dst, path));
    TopBecomes(Under(dst, path), Under(src, path), k);
    MergeKeepsPlaces(Under(dst, path), Under(src, path));
  }

  /** Also pair by pair: only the first pair with a key the settings have is touched. */
  lemma {:induction false} OthersStay(dst: seq<Node>, src: seq<Node>, j: nat)
    requires |dst| % 2 == 0 && Tidy(src) && j < Pairs(dst)
    requires Get(src, KeyAt(dst, j)).None? || Find(dst, KeyAt(dst, j)) != j
    ensures j < Pairs(Merge(dst, src)) && KeyAt(Merge(dst, src), j) == KeyAt(dst, j)
    ensures ValueAt(Merge(dst, src), j) == ValueAt(dst, j)
    decreases |src|
  {
    hide Get, Find, Tidy, Merged;
    if |src| >= 2 {
      var next := Put(dst, src[0], src[1]);
      TidyRest(src);
      GetFirst(src, KeyAt(dst, j));
      PutTouches(dst, src[0], src[1], j);
      hide Put;
      OthersStay(next, src[2..], j);
    }
  }

  lemma PutTouches(c: seq<Node>, key: Node, val: Node, j: nat)
    requires |c| % 2 == 0 && j < Pairs(c) && (KeyAt(c, j) != key.value || Find(c, KeyAt(c, j)) != j)
    ensures var r := Put(c, key, val);
            && |r| % 2 == 0 && j < Pairs(r) && KeyAt(r, j) == KeyAt(c, j) && ValueAt(r, j) == ValueAt(c, j)
            && (Find(r, KeyAt(r, j)) == j <==> Find(c, KeyAt(c, j)) == j)
  {
    hide Merged, Find;
    var r, k := Put(c, key, val), KeyAt(c, j);
    FoundAt(c, key.value);
    FoundAt(c, k);
    assert forall i :: 0 <= i < Pairs(c) ==> KeyAt(r, i) == KeyAt(c, i);
    FindIs(r, k, Find(c, k));
  }

  // ---------- removing ----------

  /** Taking a key out changes no other, neither what it holds nor the order. */
  lemma RemovingKeepsOthers(c: seq<Node>, key: string, k: string)
    requires k != key
    ensures Get(RemoveKey(c, key), k) == Get(c, k)
  {
    hide Find;
    var i, n, r := Find(c, key), Find(c, k), RemoveKey(c, key);
    FoundAt(c, key);
    FoundAt(c, k);
    if i < Pairs(c) {
      assert forall j :: 0 <= j < i ==> KeyAt(r, j) == KeyAt(c, j) && ValueAt(r, j) == ValueAt(c, j);
      forall j | i <= j < Pairs(c) - 1 ensures KeyAt(r, j) == KeyAt(c, j + 1) && ValueAt(r, j) == ValueAt(c, j + 1) {
        assert r[2 * j] == c[2 * j + 2] && r[2 * j + 1] == c[2 * j + 3];
      }
      FindIs(r, k, if n < i then n else n - 1);
    }
  }

  lemma {:induction false} RemovalsKeepOthers(root: seq<Node>, managed: seq<string>, desired: seq<Node>, k: string)
    requires k !in managed || Has(desired, k)
    ensures Get(RemoveUnset(root, managed, desired), k) == Get(root, k)
  {
    hide Get, Has;
    if managed != [] {
      var init, key := managed[..|managed| - 1], managed[|managed| - 1];
      assert k in init ==> k in managed;
      assert key in managed;
      RemovalsKeepOthers(root, init, desired, k);
      if key != k && !Has(desired, key) { RemovingKeepsOthers(RemoveUnset(root, init, desired), key, k); }
    }
  }

  /** In the saved file a key that is desired, or that is not managed, is as the merge
      has it: what the person wrote about anything else stays. */
  lemma {:induction false} SavedKeys(document: seq<Node>, desired: seq<Node>, managed: seq<string>, k: string)
    requires Even(document) && Tidy(desired) && (k !in managed || Has(desired, k))
    ensures Becomes(Get(document, k), Get(desired, k), Get(RemoveUnset(Merge(document, desired), managed, desired), k))
  {
    hide Get, Has, Merge, Tidy, Even, Becomes, RemoveUnset;
    EvenIsEven(document);
    TopBecomes(document, desired, k);
    RemovalsKeepOthers(Merge(document, desired), managed, desired, k);
  }
}
